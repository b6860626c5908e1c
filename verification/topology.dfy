/** Domain topology of the Cartesian subdomain decomposition (src/pusher.c).

    A neighbour index is a base-3 number with one digit per spatial
    dimension, dimension 0 least significant; digit 0, 1, 2 stands for the
    offset -1, 0, +1 along that dimension. The index whose digits are all 1 is
    the subdomain itself (the neighbourhood centre). Ranks are the row-major
    linearisation of subdomain coordinates with the strides nSubdomainsProd. */
module Topology {

  /** 3^d, the number of neighbour indices in d dimensions. */
  function Pow3(d: nat): nat
    ensures Pow3(d) >= 1
  {
    if d == 0 then 1 else 3 * Pow3(d - 1)
  }

  /** The k lowest base-3 digits of ne, least significant first. */
  function Digits(ne: nat, k: nat): (ds: seq<nat>)
    ensures |ds| == k
    ensures IsDigits(ds)
  {
    if k == 0 then [] else [ne % 3] + Digits(ne / 3, k - 1)
  }

  /** The number whose base-3 digits are ds, least significant first. */
  function FromDigits(ds: seq<nat>): nat
  {
    if |ds| == 0 then 0 else ds[0] + 3 * FromDigits(ds[1..])
  }

  predicate IsDigits(ds: seq<nat>)
  {
    forall d :: 0 <= d < |ds| ==> ds[d] <= 2
  }

  /** Reading the digits of a neighbour index back gives the index. */
  lemma {:induction false} DigitsRoundTrip(ne: nat, k: nat)
    requires ne < Pow3(k)
    ensures FromDigits(Digits(ne, k)) == ne
  {
    if k > 0 {
      DigitsRoundTrip(ne / 3, k - 1);
      assert Digits(ne, k)[1..] == Digits(ne / 3, k - 1);
    }
  }

  /** A digit string denotes an index in [0, 3^k) whose digits are that string. */
  lemma {:induction false} FromDigitsRoundTrip(ds: seq<nat>)
    requires IsDigits(ds)
    ensures FromDigits(ds) < Pow3(|ds|)
    ensures Digits(FromDigits(ds), |ds|) == ds
  {
    if |ds| > 0 {
      var rest := ds[1..];
      assert IsDigits(rest) by {
        forall d | 0 <= d < |rest| ensures rest[d] <= 2 {
          assert rest[d] == ds[d + 1];
        }
      }
      FromDigitsRoundTrip(rest);
      var v := FromDigits(ds);
      assert v == ds[0] + 3 * FromDigits(rest);
      assert v % 3 == ds[0] && v / 3 == FromDigits(rest);
    }
  }

  /** Two indices below 3^k with the same digits are equal. */
  lemma DigitsInjective(a: nat, b: nat, k: nat)
    requires a < Pow3(k) && b < Pow3(k)
    requires Digits(a, k) == Digits(b, k)
    ensures a == b
  {
    DigitsRoundTrip(a, k);
    DigitsRoundTrip(b, k);
  }

  /** The neighbourhood centre: every digit 1 (no offset in any dimension). */
  function Center(nDims: nat): (c: nat)
    ensures c < Pow3(nDims)
  {
    if nDims == 0 then 0 else 1 + 3 * Center(nDims - 1)
  }

  lemma {:induction false} CenterDigits(nDims: nat)
    ensures Center(nDims) < Pow3(nDims)
    ensures Digits(Center(nDims), nDims) == seq(nDims, d => 1)
  {
    if nDims > 0 {
      CenterDigits(nDims - 1);
      assert Digits(Center(nDims), nDims)
          == [1] + Digits(Center(nDims - 1), nDims - 1);
    }
  }

  /** In three dimensions the centre is 13, the constant the 3D routines use. */
  lemma CenterIn3D()
    ensures Center(3) == 13
  {
  }

  /** puNeighborToReciprocal: the direction seen from the other side, every
      digit complemented. The source sums (2 - digit_d) * 3^d; the recursion
      below computes the same number in Horner form. */
  function Reciprocal(ne: nat, nDims: nat): (r: nat)
    ensures r < Pow3(nDims)
    ensures forall d :: 0 <= d < nDims ==> Digits(r, nDims)[d] == 2 - Digits(ne, nDims)[d]
  {
    if nDims == 0 then 0
    else
      var rest := Reciprocal(ne / 3, nDims - 1);
      var r := (2 - ne % 3) + 3 * rest;
      DigitPrepend(2 - ne % 3, rest, nDims);
      ReciprocalDigits(ne, nDims, rest, r);
      r
  }

  lemma ReciprocalDigits(ne: nat, nDims: nat, rest: nat, r: nat)
    requires nDims >= 1
    requires var lo, hi := Digits(rest, nDims - 1), Digits(ne / 3, nDims - 1);
      forall d :: 0 <= d < |lo| ==> lo[d] == 2 - hi[d]
    requires Digits(r, nDims) == [2 - ne % 3] + Digits(rest, nDims - 1)
    ensures forall d :: 0 <= d < nDims ==> Digits(r, nDims)[d] == 2 - Digits(ne, nDims)[d]
  {
    var dn := Digits(ne, nDims);
    assert dn == [ne % 3] + Digits(ne / 3, nDims - 1);
    forall d | 0 <= d < nDims ensures Digits(r, nDims)[d] == 2 - dn[d] {
      if d > 0 {
        assert Digits(r, nDims)[d] == Digits(rest, nDims - 1)[d - 1];
        assert dn[d] == Digits(ne / 3, nDims - 1)[d - 1];
      }
    }
  }

  /** Prepending a least significant digit x to the k-1 digits of rest. */
  lemma DigitPrepend(x: nat, rest: nat, k: nat)
    requires x <= 2 && k >= 1 && rest < Pow3(k - 1)
    ensures x + 3 * rest < Pow3(k)
    ensures Digits(x + 3 * rest, k) == [x] + Digits(rest, k - 1)
  {
    var r := x + 3 * rest;
    assert r % 3 == x && r / 3 == rest;
  }

  /** Complementing every digit twice gives back the direction. */
  lemma ReciprocalInvolution(ne: nat, nDims: nat)
    requires ne < Pow3(nDims)
    ensures Reciprocal(Reciprocal(ne, nDims), nDims) == ne
  {
    var r := Reciprocal(ne, nDims);
    var rr := Reciprocal(r, nDims);
    assert Digits(rr, nDims) == Digits(ne, nDims);
    DigitsInjective(rr, ne, nDims);
  }

  /** The centre is its own reciprocal, and it is the only such direction. */
  lemma ReciprocalFixesOnlyCenter(ne: nat, nDims: nat)
    requires ne < Pow3(nDims)
    ensures Reciprocal(ne, nDims) == ne <==> ne == Center(nDims)
  {
    CenterDigits(nDims);
    var ds := Digits(ne, nDims);
    if Reciprocal(ne, nDims) == ne {
      assert ds == seq(nDims, d => 1) by {
        forall d | 0 <= d < nDims ensures ds[d] == 1 {
          assert Digits(Reciprocal(ne, nDims), nDims)[d] == 2 - ds[d];
        }
      }
      DigitsInjective(ne, Center(nDims), nDims);
    } else if ne == Center(nDims) {
      var r := Reciprocal(ne, nDims);
      assert Digits(r, nDims) == Digits(ne, nDims);
      DigitsInjective(r, ne, nDims);
    }
  }

  /** Per-process view of the decomposition (the topology part of MpiInfo). */
  datatype Topology = Topology(subdomain: seq<int>, nSubdomains: seq<int>, nSubdomainsProd: seq<int>)
  {
    function NDims(): nat
    {
      |nSubdomains|
    }

    /** Coordinates lie inside the decomposition and the strides are the
        cumulative products of the subdomain counts. */
    predicate Valid()
    {
      && |subdomain| == |nSubdomains|
      && |nSubdomainsProd| == |nSubdomains| + 1
      && nSubdomainsProd[0] == 1
      && (forall d :: 0 <= d < |nSubdomains| ==>
            && nSubdomains[d] >= 1
            && 0 <= subdomain[d] < nSubdomains[d]
            && nSubdomainsProd[d + 1] == nSubdomainsProd[d] * nSubdomains[d])
    }

    /** The number of processes in the decomposition. */
    function NProcs(): int
      requires Valid()
    {
      nSubdomainsProd[NDims()]
    }

    /** The same decomposition seen from the process at coordinate c. */
    function At(c: seq<int>): Topology
    {
      Topology(c, nSubdomains, nSubdomainsProd)
    }
  }

  lemma {:induction false} StridesPositive(t: Topology, d: nat)
    requires t.Valid() && d <= t.NDims()
    ensures t.nSubdomainsProd[d] >= 1
  {
    if d > 0 {
      StridesPositive(t, d - 1);
      var p := t.nSubdomainsProd[d - 1];
      var n := t.nSubdomains[d - 1];
      assert p * n >= p * 1;
    }
  }

  /** Coordinate along dimension d of the neighbour whose digit there is k:
      offset k-1 with periodic wrap. Adding nSubdomains[d] keeps the operand
      of the source's % non-negative, so C's % and Dafny's agree here. */
  function Wrap(t: Topology, d: nat, k: nat): (c: int)
    requires t.Valid() && d < t.NDims()
    ensures 0 <= c < t.nSubdomains[d]
  {
    (t.subdomain[d] + (k - 1) + t.nSubdomains[d]) % t.nSubdomains[d]
  }

  /** Linearised rank of the coordinates c[d..], summed with the strides. */
  function LinearFrom(t: Topology, c: seq<int>, d: nat): int
    requires t.Valid() && |c| == t.NDims() && d <= t.NDims()
    decreases t.NDims() - d
  {
    if d == t.NDims() then 0
    else c[d] * t.nSubdomainsProd[d] + LinearFrom(t, c, d + 1)
  }

  /** The rank of the process itself. */
  function SelfRank(t: Topology): int
    requires t.Valid()
  {
    LinearFrom(t, t.subdomain, 0)
  }

  /** Coordinates of the neighbour in direction ne. */
  function NeighborCoords(t: Topology, ne: nat): (c: seq<int>)
    requires t.Valid()
    ensures |c| == t.NDims()
    ensures t.At(c).Valid()
  {
    seq(t.NDims(), d requires 0 <= d < t.NDims() => Wrap(t, d, Digits(ne, t.NDims())[d]))
  }

  lemma MulMono(a: int, b: int, p: int)
    requires a <= b && p >= 0
    ensures a * p <= b * p
  {
  }

  /** puNeighborToRank from dimension d on; ne holds the digits not yet
      consumed. Every partial sum stays below the process count. */
  function NeighborToRankFrom(t: Topology, ne: nat, d: nat): (r: int)
    requires t.Valid() && d <= t.NDims()
    ensures 0 <= r <= t.NProcs() - t.nSubdomainsProd[d]
    decreases t.NDims() - d
  {
    if d == t.NDims() then 0
    else
      var c := Wrap(t, d, ne % 3);
      var rest := NeighborToRankFrom(t, ne / 3, d + 1);
      var p := t.nSubdomainsProd[d];
      StridesPositive(t, d);
      MulMono(c, t.nSubdomains[d] - 1, p);
      assert (t.nSubdomains[d] - 1) * p == t.nSubdomainsProd[d + 1] - p;
      c * p + rest
  }

  /** puNeighborToRank: the rank of the neighbour in direction ne, with
      periodic wrap in every dimension. */
  function NeighborToRank(t: Topology, ne: nat): (r: int)
    requires t.Valid()
    ensures 0 <= r < t.NProcs()
  {
    StridesPositive(t, 0);
    NeighborToRankFrom(t, ne, 0)
  }

  /** puRankToNeighbor from dimension d on: rank holds the mixed-radix digits
      not yet consumed. */
  function RankToNeighborFrom(t: Topology, rank: nat, d: nat): nat
    requires t.Valid() && d <= t.NDims()
    decreases t.NDims() - d
  {
    if d == t.NDims() then 0
    else
      var n := t.nSubdomains[d];
      var digit := (rank % n - t.subdomain[d] + 1 + n) % n;
      digit + 3 * RankToNeighborFrom(t, rank / n, d + 1)
  }

  /** puRankToNeighbor: the direction in which the process of the given
      rank lies, relative to this one. */
  function RankToNeighbor(t: Topology, rank: nat): nat
    requires t.Valid()
  {
    RankToNeighborFrom(t, rank, 0)
  }

  // ---------------------------------------------------------------------
  // Modular arithmetic used by the proofs below.

  lemma MulStep(a: int, b: int, n: int)
    requires a < b && n > 0
    ensures a * n + n <= b * n
  {
    MulMono(a + 1, b, n);
  }

  lemma DivModUnique(r: int, n: int, q: int, c: int)
    requires n > 0 && 0 <= c < n && r == q * n + c
    ensures r / n == q && r % n == c
  {
    var q0 := r / n;
    var c0 := r % n;
    if q0 < q {
      MulStep(q0, q, n);
      assert false;
    } else if q < q0 {
      MulStep(q, q0, n);
      assert false;
    }
  }

  lemma ModAddMultiple(x: int, k: int, n: int)
    requires n > 0
    ensures (x + k * n) % n == x % n
  {
    DivModUnique(x + k * n, n, x / n + k, x % n);
  }

  lemma ModAddMod(x: int, y: int, n: int)
    requires n > 0
    ensures (x % n + y) % n == (x + y) % n
  {
    ModAddMultiple(x % n + y, x / n, n);
    assert x % n + y + (x / n) * n == x + y;
  }

  /** Stepping by k-1 and then back by the complementary digit returns to s. */
  lemma WrapBack(s: int, k: int, n: int)
    requires n >= 1 && 0 <= s < n
    ensures ((s + (k - 1) + n) % n + ((2 - k) - 1) + n) % n == s
  {
    ModAddMod(s + (k - 1) + n, ((2 - k) - 1) + n, n);
    ModAddMultiple(s, 2, n);
    assert s + (k - 1) + n + ((2 - k) - 1) + n == s + 2 * n;
    DivModUnique(s, n, 0, s);
  }

  /** Decoding the wrapped coordinate recovers the digit when n >= 3. */
  lemma WrapDecode(s: int, k: int, n: int)
    requires n >= 3 && 0 <= s < n && 0 <= k <= 2
    ensures ((s + (k - 1) + n) % n - s + 1 + n) % n == k
  {
    ModAddMod(s + (k - 1) + n, -s + 1 + n, n);
    assert s + (k - 1) + n - s + 1 + n == k + 2 * n;
    ModAddMultiple(k, 2, n);
    DivModUnique(k, n, 0, k);
  }

  // ---------------------------------------------------------------------
  // Properties of the rank mapping.

  /** The recursive rank computation is the linearisation of the neighbour's
      coordinates. */
  lemma {:induction false} NeighborToRankFromLinear(t: Topology, ne: nat, d: nat, c: seq<int>)
    requires t.Valid() && d <= t.NDims() && |c| == t.NDims()
    requires forall e :: d <= e < t.NDims() ==> c[e] == Wrap(t, e, Digits(ne, t.NDims() - d)[e - d])
    ensures NeighborToRankFrom(t, ne, d) == LinearFrom(t, c, d)
    decreases t.NDims() - d
  {
    if d < t.NDims() {
      CoordsShift(t, ne, d, c);
      NeighborToRankFromLinear(t, ne / 3, d + 1, c);
      DigitsTail(ne, t.NDims() - d, -1);
      RankStep(t, ne, d, c);
    }
  }

  /** The coordinates c[d+1..] follow the digits of ne / 3. */
  lemma CoordsShift(t: Topology, ne: nat, d: nat, c: seq<int>)
    requires t.Valid() && d < t.NDims() && |c| == t.NDims()
    requires forall e :: d <= e < t.NDims() ==> c[e] == Wrap(t, e, Digits(ne, t.NDims() - d)[e - d])
    ensures forall e :: d + 1 <= e < t.NDims() ==> c[e] == Wrap(t, e, Digits(ne / 3, t.NDims() - (d + 1))[e - (d + 1)])
  {
    forall e | d + 1 <= e < t.NDims()
      ensures c[e] == Wrap(t, e, Digits(ne / 3, t.NDims() - (d + 1))[e - (d + 1)])
    {
      var k: nat, j: nat := t.NDims() - d, e - (d + 1);
      assert c[e] == Wrap(t, e, Digits(ne, k)[j + 1]);
      DigitsTail(ne, k, j);
      assert k - 1 == t.NDims() - (d + 1);
    }
  }

  /** Digit j+1 of ne is digit j of ne / 3, and digit 0 is ne % 3. */
  lemma DigitsTail(ne: nat, k: nat, j: int)
    requires -1 <= j && j + 1 < k
    ensures j == -1 ==> Digits(ne, k)[0] == ne % 3
    ensures j >= 0 ==> Digits(ne, k)[j + 1] == Digits(ne / 3, k - 1)[j]
  {
  }

  /** One step of the rank recursion against one term of the linear sum. */
  lemma RankStep(t: Topology, ne: nat, d: nat, c: seq<int>)
    requires t.Valid() && d < t.NDims() && |c| == t.NDims()
    requires c[d] == Wrap(t, d, ne % 3)
    requires NeighborToRankFrom(t, ne / 3, d + 1) == LinearFrom(t, c, d + 1)
    ensures NeighborToRankFrom(t, ne, d) == LinearFrom(t, c, d)
  {
  }

  lemma NeighborToRankLinear(t: Topology, ne: nat)
    requires t.Valid()
    ensures NeighborToRank(t, ne) == LinearFrom(t, NeighborCoords(t, ne), 0)
  {
    NeighborToRankFromLinear(t, ne, 0, NeighborCoords(t, ne));
  }

  /** The centre direction names the process itself. */
  lemma NeighborToRankCenter(t: Topology)
    requires t.Valid()
    ensures NeighborToRank(t, Center(t.NDims())) == SelfRank(t)
  {
    var n := t.NDims();
    CenterDigits(n);
    var c := NeighborCoords(t, Center(n));
    forall d | 0 <= d < n ensures c[d] == t.subdomain[d] {
      DivModUnique(t.subdomain[d] + t.nSubdomains[d], t.nSubdomains[d], 1, t.subdomain[d]);
    }
    assert c == t.subdomain;
    NeighborToRankLinear(t, Center(n));
  }

  /** Stepping towards ne and then back along the reciprocal direction
      returns to the starting coordinates. */
  lemma ReciprocalCoords(t: Topology, ne: nat)
    requires t.Valid()
    ensures NeighborCoords(t.At(NeighborCoords(t, ne)), Reciprocal(ne, t.NDims())) == t.subdomain
  {
    var n := t.NDims();
    var q := t.At(NeighborCoords(t, ne));
    var r := Reciprocal(ne, n);
    var back := NeighborCoords(q, r);
    forall d | 0 <= d < n ensures back[d] == t.subdomain[d] {
      var k := Digits(ne, n)[d];
      assert Digits(r, n)[d] == 2 - k;
      WrapBack(t.subdomain[d], k, t.nSubdomains[d]);
    }
  }

  /** Tag agreement. Process P sends towards ne, to the process Q at
      NeighborCoords(P, ne), tagging the message with the reciprocal
      direction. Q's own rank is the rank P sent to, and seen from Q the
      reciprocal direction names P. */
  lemma TagAgreement(t: Topology, ne: nat)
    requires t.Valid()
    ensures t.At(NeighborCoords(t, ne)).Valid()
    ensures SelfRank(t.At(NeighborCoords(t, ne))) == NeighborToRank(t, ne)
    ensures NeighborToRank(t.At(NeighborCoords(t, ne)), Reciprocal(ne, t.NDims())) == SelfRank(t)
  {
    var q := t.At(NeighborCoords(t, ne));
    ReciprocalCoords(t, ne);
    NeighborToRankLinear(q, Reciprocal(ne, t.NDims()));
    NeighborToRankLinear(t, ne);
    assert forall c :: |c| == t.NDims() ==> LinearFrom(q, c, 0) == LinearFrom(t, c, 0) by {
      forall c | |c| == t.NDims() ensures LinearFrom(q, c, 0) == LinearFrom(t, c, 0) {
        SameStridesSameRank(t, q, c, 0);
      }
    }
  }

  /** The rank of a coordinate depends only on the strides. */
  lemma {:induction false} SameStridesSameRank(t: Topology, u: Topology, c: seq<int>, d: nat)
    requires t.Valid() && u.Valid() && u.nSubdomainsProd == t.nSubdomainsProd
    requires u.nSubdomains == t.nSubdomains
    requires |c| == t.NDims() && d <= t.NDims()
    ensures LinearFrom(t, c, d) == LinearFrom(u, c, d)
    decreases t.NDims() - d
  {
    if d < t.NDims() {
      SameStridesSameRank(t, u, c, d + 1);
    }
  }

  /** Mixed-radix (Horner) form of the linearised coordinates c[d..]. */
  function MixedFrom(t: Topology, c: seq<int>, d: nat): int
    requires t.Valid() && |c| == t.NDims() && d <= t.NDims()
    decreases t.NDims() - d
  {
    if d == t.NDims() then 0
    else c[d] + t.nSubdomains[d] * MixedFrom(t, c, d + 1)
  }

  lemma {:induction false} LinearIsMixed(t: Topology, c: seq<int>, d: nat)
    requires t.Valid() && |c| == t.NDims() && d <= t.NDims()
    ensures LinearFrom(t, c, d) == t.nSubdomainsProd[d] * MixedFrom(t, c, d)
    decreases t.NDims() - d
  {
    if d < t.NDims() {
      LinearIsMixed(t, c, d + 1);
      var p := t.nSubdomainsProd[d];
      var n := t.nSubdomains[d];
      var m := MixedFrom(t, c, d + 1);
      calc {
        LinearFrom(t, c, d);
        c[d] * p + t.nSubdomainsProd[d + 1] * m;
        c[d] * p + (p * n) * m;
        { assert (p * n) * m == p * (n * m); }
        p * (c[d] + n * m);
      }
    }
  }

  lemma {:induction false} MixedNonNegative(t: Topology, c: seq<int>, d: nat)
    requires t.Valid() && |c| == t.NDims() && d <= t.NDims()
    requires forall e :: 0 <= e < t.NDims() ==> 0 <= c[e]
    ensures MixedFrom(t, c, d) >= 0
    decreases t.NDims() - d
  {
    if d < t.NDims() {
      MixedNonNegative(t, c, d + 1);
    }
  }

  lemma {:induction false} RankToNeighborFromInverse(t: Topology, ds: seq<nat>, d: nat)
    requires t.Valid() && d <= t.NDims() && |ds| == t.NDims() && IsDigits(ds)
    requires forall e :: 0 <= e < t.NDims() ==> t.nSubdomains[e] >= 3
    ensures var c := seq(t.NDims(), e requires 0 <= e < t.NDims() => Wrap(t, e, ds[e]));
      MixedFrom(t, c, d) >= 0 && RankToNeighborFrom(t, MixedFrom(t, c, d), d) == FromDigits(ds[d..])
    decreases t.NDims() - d
  {
    var c := seq(t.NDims(), e requires 0 <= e < t.NDims() => Wrap(t, e, ds[e]));
    MixedNonNegative(t, c, d);
    if d < t.NDims() {
      RankToNeighborFromInverse(t, ds, d + 1);
      var n := t.nSubdomains[d];
      var m := MixedFrom(t, c, d + 1);
      MixedNonNegative(t, c, d + 1);
      DivModUnique(MixedFrom(t, c, d), n, m, c[d]);
      WrapDecode(t.subdomain[d], ds[d], n);
      assert ds[d..][1..] == ds[d + 1..];
    }
  }

  /** With at least three subdomains along every axis, the rank of a
      neighbour decodes back to the direction it was computed from. */
  lemma RankToNeighborInverse(t: Topology, ne: nat)
    requires t.Valid() && ne < Pow3(t.NDims())
    requires forall d :: 0 <= d < t.NDims() ==> t.nSubdomains[d] >= 3
    ensures RankToNeighbor(t, NeighborToRank(t, ne)) == ne
  {
    var n := t.NDims();
    var ds := Digits(ne, n);
    var c := NeighborCoords(t, ne);
    RankToNeighborFromInverse(t, ds, 0);
    assert c == seq(n, e requires 0 <= e < n => Wrap(t, e, ds[e]));
    NeighborToRankLinear(t, ne);
    LinearIsMixed(t, c, 0);
    assert ds[0..] == ds;
    DigitsRoundTrip(ne, n);
  }
}
