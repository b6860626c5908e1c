/** Particle migration bookkeeping (src/pusher.c): classification of
    particles against the subdomain thresholds, extraction of emigrants by
    swap-with-last removal, packing per neighbour, the periodic shift of
    arrivals and their import into the population. Positions are exact real
    numbers, where the program has doubles: the comparisons with thresholds
    are exact in both, but the program's shift additions round, so the
    facts about undoing a shift hold in exact arithmetic only. */
module Migration {
  import opened Topology
  import opened Aux

  /** One particle: the (pos..., vel...) tuple the send buffers carry. */
  datatype Particle = Particle(pos: seq<real>, vel: seq<real>)

  predicate Shaped(p: Particle, nDims: nat)
  {
    |p.pos| == nDims && |p.vel| == nDims
  }

  predicate AllShaped(ps: seq<Particle>, nDims: nat)
  {
    forall i :: 0 <= i < |ps| ==> Shaped(ps[i], nDims)
  }

  // ---------------------------------------------------------------------
  // Classification

  /** Digit of one coordinate: 1 - [x < lower] + [x >= upper]. */
  function DigitOf(x: real, lower: real, upper: real): nat
  {
    1 - (if x < lower then 1 else 0) + (if x >= upper then 1 else 0)
  }

  /** The thresholds hold the nDims lower bounds followed by the nDims upper bounds. */
  predicate Thresholds(th: seq<real>, nDims: nat)
  {
    |th| == 2 * nDims
  }

  /** Every lower threshold lies at or below the matching upper one. */
  predicate Ordered(th: seq<real>, nDims: nat)
    requires Thresholds(th, nDims)
  {
    forall d :: 0 <= d < nDims ==> th[d] <= th[nDims + d]
  }

  /** The digits a position is classified into, one per dimension. */
  function PositionDigits(pos: seq<real>, th: seq<real>, nDims: nat): (ds: seq<nat>)
    requires |pos| == nDims && Thresholds(th, nDims)
    ensures |ds| == nDims
  {
    seq(nDims, d requires 0 <= d < nDims => DigitOf(pos[d], th[d], th[nDims + d]))
  }

  /** The neighbour-index loop of puExtractEmigrantsND: dimensions are
      visited from nDims-1 down to 0, multiplying by 3 and adding the digit.
      ClassifyFrom(.., k) is the value once dimensions nDims-1 down to k have
      been visited, so its base-3 digits are the digits of dimensions k on. */
  function ClassifyFrom(pos: seq<real>, th: seq<real>, nDims: nat, k: nat): (ne: nat)
    requires |pos| == nDims && Thresholds(th, nDims) && k <= nDims
    ensures ne < Pow3(nDims - k)
    ensures Digits(ne, nDims - k) == PositionDigits(pos, th, nDims)[k..]
    decreases nDims - k
  {
    if k == nDims then 0
    else
      var rest := ClassifyFrom(pos, th, nDims, k + 1);
      var digit := DigitOf(pos[k], th[k], th[nDims + k]);
      var ne := 3 * rest + digit;
      assert ne % 3 == digit && ne / 3 == rest;
      assert Digits(ne, nDims - k) == [digit] + Digits(rest, nDims - k - 1);
      ne
  }

  /** The neighbour a particle at pos belongs to. */
  function Classify(pos: seq<real>, th: seq<real>, nDims: nat): (ne: nat)
    requires |pos| == nDims && Thresholds(th, nDims)
    ensures ne < Pow3(nDims)
    ensures Digits(ne, nDims) == PositionDigits(pos, th, nDims)
  {
    var ne := ClassifyFrom(pos, th, nDims, 0);
    assert PositionDigits(pos, th, nDims)[0..] == PositionDigits(pos, th, nDims);
    ne
  }

  /** Which side of the thresholds a coordinate lies on. With lower < upper,
      a coordinate exactly at the upper threshold migrates up and one exactly
      at the lower threshold stays. */
  lemma DigitBoundaries(x: real, lower: real, upper: real)
    requires lower < upper
    ensures DigitOf(x, lower, upper) == 0 <==> x < lower
    ensures DigitOf(x, lower, upper) == 2 <==> x >= upper
    ensures DigitOf(x, lower, upper) == 1 <==> lower <= x < upper
    ensures DigitOf(upper, lower, upper) == 2
    ensures DigitOf(lower, lower, upper) == 1
  {
  }

  /** A particle stays (classifies to the centre) exactly when every
      coordinate lies in [lower, upper). */
  lemma ClassifyCenterIff(pos: seq<real>, th: seq<real>, nDims: nat)
    requires |pos| == nDims && Thresholds(th, nDims) && Ordered(th, nDims)
    ensures Classify(pos, th, nDims) == Center(nDims)
      <==> forall d :: 0 <= d < nDims ==> th[d] <= pos[d] < th[nDims + d]
  {
    var ne := Classify(pos, th, nDims);
    var ds := PositionDigits(pos, th, nDims);
    CenterDigits(nDims);
    if ne == Center(nDims) {
      assert ds == Digits(Center(nDims), nDims);
      forall d | 0 <= d < nDims ensures th[d] <= pos[d] < th[nDims + d] {
        assert ds[d] == 1;
      }
    }
    if forall d :: 0 <= d < nDims ==> th[d] <= pos[d] < th[nDims + d] {
      assert ds == seq(nDims, d => 1);
      DigitsInjective(ne, Center(nDims), nDims);
    }
  }

  /** The 3D extraction routine classifies by 13 + nx + 3 ny + 9 nz with
      n = -[x < lower] + [x >= upper]; this is the general index for nDims = 3. */
  function Classify3D(pos: seq<real>, th: seq<real>): int
    requires |pos| == 3 && |th| == 6
  {
    var nx := - (if pos[0] < th[0] then 1 else 0) + (if pos[0] >= th[3] then 1 else 0);
    var ny := - (if pos[1] < th[1] then 1 else 0) + (if pos[1] >= th[4] then 1 else 0);
    var nz := - (if pos[2] < th[2] then 1 else 0) + (if pos[2] >= th[5] then 1 else 0);
    13 + nx + 3 * ny + 9 * nz
  }

  lemma Classify3DAgrees(pos: seq<real>, th: seq<real>)
    requires |pos| == 3 && |th| == 6
    ensures Classify3D(pos, th) == Classify(pos, th, 3)
  {
    var ds := PositionDigits(pos, th, 3);
    var ne := Classify(pos, th, 3);
    assert Digits(ne, 3) == ds;
    assert ne == ds[0] + 3 * ds[1] + 9 * ds[2] by {
      DigitsRoundTrip(ne, 3);
    }
  }

  // ---------------------------------------------------------------------
  // Population

  /** The particle store: species s lives in store[iStart[s] .. iStop[s]);
      iStart has one entry more than there are species, so the space
      reserved for species s ends at iStart[s+1]. */
  datatype Population = Population(store: seq<Particle>, iStart: seq<int>, iStop: seq<int>)
  {
    function NSpecies(): nat
    {
      |iStop|
    }

    predicate Valid(nDims: nat)
    {
      && |iStart| == |iStop| + 1
      && (forall s {:trigger iStop[s]} :: 0 <= s < |iStop| ==> 0 <= iStart[s] <= iStop[s] <= iStart[s + 1] <= |store|)
      && AllShaped(store, nDims)
    }

    /** The live particles of species s. */
    function Live(s: nat): seq<Particle>
      requires |iStart| == |iStop| + 1 && s < |iStop|
      requires iStop[s] <= |store| && 0 <= iStart[s] <= iStop[s]
    {
      store[iStart[s]..iStop[s]]
    }
  }

  // ---------------------------------------------------------------------
  // Extraction

  /** One removed particle and the neighbour it was packed for. */
  datatype Emigrant = Emigrant(ne: nat, particle: Particle)

  function ParticlesOf(log: seq<Emigrant>): (ps: seq<Particle>)
    ensures |ps| == |log|
    ensures forall i :: 0 <= i < |log| ==> ps[i] == log[i].particle
  {
    if |log| == 0 then [] else [log[0].particle] + ParticlesOf(log[1..])
  }

  /** Swap-with-last removal of live[p]: the last particle moves into slot p
      and the live range shrinks by one. */
  function RemoveAt(live: seq<Particle>, p: nat): (r: seq<Particle>)
    requires p < |live|
    ensures |r| == |live| - 1
    ensures r[..p] == live[..p]
    ensures multiset(live) == multiset(r) + multiset{live[p]}
  {
    RemoveAtMultiset(live, p);
    live[p := live[|live| - 1]][..|live| - 1]
  }

  lemma RemoveAtMultiset(live: seq<Particle>, p: nat)
    requires p < |live|
    ensures multiset(live) == multiset(live[p := live[|live| - 1]][..|live| - 1]) + multiset{live[p]}
  {
    var last := |live| - 1;
    var r := live[p := live[last]][..last];
    assert live == live[..last] + [live[last]];
    if p < last {
      assert r == live[..last][p := live[last]];
    } else {
      assert r == live[..last];
    }
  }

  /** Every particle from index p on classifies to the centre. */
  predicate StaysFrom(ps: seq<Particle>, p: nat, th: seq<real>, nDims: nat)
    requires AllShaped(ps, nDims) && Thresholds(th, nDims)
  {
    forall i :: p <= i < |ps| ==> Classify(ps[i].pos, th, nDims) == Center(nDims)
  }

  /** Every logged emigrant was packed for the neighbour its position
      classifies to, which is never the centre. */
  predicate Departing(log: seq<Emigrant>, th: seq<real>, nDims: nat)
    requires Thresholds(th, nDims)
  {
    forall i :: 0 <= i < |log| ==>
      && Shaped(log[i].particle, nDims)
      && log[i].ne == Classify(log[i].particle.pos, th, nDims)
      && log[i].ne != Center(nDims)
  }

  /** Result of scanning one species: the particles kept, in their new order,
      and the emigrants in the order they were packed. */
  datatype Scan = Scan(kept: seq<Particle>, gone: seq<Emigrant>)

  /** The scan loop of puExtractEmigrantsND over one species' live particles,
      with the cursor at p. A migrating particle is packed and replaced by
      the last live one, which is examined next at the same cursor. */
  function ScanSpecies(live: seq<Particle>, p: nat, th: seq<real>, nDims: nat): (r: Scan)
    requires p <= |live| && AllShaped(live, nDims) && Thresholds(th, nDims)
    ensures |r.kept| >= p
    ensures r.kept[..p] == live[..p]
    ensures AllShaped(r.kept, nDims)
    ensures StaysFrom(r.kept, p, th, nDims)
    ensures Departing(r.gone, th, nDims)
    ensures multiset(live) == multiset(r.kept) + multiset(ParticlesOf(r.gone))
    ensures |r.kept| + |r.gone| == |live|
    decreases |live| - p
  {
    if p == |live| then Scan(live, [])
    else
      var ne := Classify(live[p].pos, th, nDims);
      if ne == Center(nDims) then
        var r := ScanSpecies(live, p + 1, th, nDims);
        ScanKeepStep(live, p, th, nDims, r);
        r
      else
        var shrunk := RemoveAt(live, p);
        var rest := ScanSpecies(shrunk, p, th, nDims);
        ScanRemoveStep(live, p, th, nDims, rest);
        Scan(rest.kept, [Emigrant(ne, live[p])] + rest.gone)
  }

  /** The keeping branch of the scan keeps the scan's promises. */
  lemma ScanKeepStep(live: seq<Particle>, p: nat, th: seq<real>, nDims: nat, r: Scan)
    requires p < |live| && AllShaped(live, nDims) && Thresholds(th, nDims)
    requires Classify(live[p].pos, th, nDims) == Center(nDims)
    requires |r.kept| >= p + 1 && r.kept[..p + 1] == live[..p + 1]
    requires AllShaped(r.kept, nDims) && StaysFrom(r.kept, p + 1, th, nDims)
    ensures r.kept[..p] == live[..p]
    ensures StaysFrom(r.kept, p, th, nDims)
  {
    assert r.kept[p] == r.kept[..p + 1][p];
    assert r.kept[..p] == r.kept[..p + 1][..p];
  }

  /** The removal branch of the scan keeps the scan's promises. */
  lemma ScanRemoveStep(live: seq<Particle>, p: nat, th: seq<real>, nDims: nat, rest: Scan)
    requires p < |live| && AllShaped(live, nDims) && Thresholds(th, nDims)
    requires Classify(live[p].pos, th, nDims) != Center(nDims)
    requires |rest.kept| >= p && rest.kept[..p] == RemoveAt(live, p)[..p]
    requires Departing(rest.gone, th, nDims)
    requires multiset(RemoveAt(live, p)) == multiset(rest.kept) + multiset(ParticlesOf(rest.gone))
    ensures rest.kept[..p] == live[..p]
    ensures Departing([Emigrant(Classify(live[p].pos, th, nDims), live[p])] + rest.gone, th, nDims)
    ensures multiset(live) == multiset(rest.kept)
      + multiset(ParticlesOf([Emigrant(Classify(live[p].pos, th, nDims), live[p])] + rest.gone))
  {
    var e := Emigrant(Classify(live[p].pos, th, nDims), live[p]);
    assert ParticlesOf([e] + rest.gone) == [live[p]] + ParticlesOf(rest.gone);
  }

  /** A particle that classifies to the centre, i.e. stays. */
  predicate Stays(x: Particle, th: seq<real>, nDims: nat)
    requires Thresholds(th, nDims)
  {
    Shaped(x, nDims) && Classify(x.pos, th, nDims) == Center(nDims)
  }

  /** The scan partitions the live particles: the kept ones are exactly
      the staying ones and the packed ones exactly the others, counted with
      multiplicity. */
  lemma ScanPartition(live: seq<Particle>, th: seq<real>, nDims: nat)
    requires AllShaped(live, nDims) && Thresholds(th, nDims)
    ensures var r := ScanSpecies(live, 0, th, nDims);
      forall x :: multiset(r.kept)[x] == (if Stays(x, th, nDims) then multiset(live)[x] else 0)
    ensures var r := ScanSpecies(live, 0, th, nDims);
      forall x :: multiset(ParticlesOf(r.gone))[x] == (if Stays(x, th, nDims) then 0 else multiset(live)[x])
  {
    var r := ScanSpecies(live, 0, th, nDims);
    var gone := ParticlesOf(r.gone);
    forall x ensures multiset(r.kept)[x] == (if Stays(x, th, nDims) then multiset(live)[x] else 0)
      && multiset(gone)[x] == (if Stays(x, th, nDims) then 0 else multiset(live)[x])
    {
      assert multiset(live)[x] == multiset(r.kept)[x] + multiset(gone)[x];
      if Stays(x, th, nDims) {
        assert x !in gone;
      } else {
        assert x !in r.kept;
      }
    }
  }

  /** The same loop seen on the memory it writes: mem is the species' old
      live range, the particles still live are mem[..n], and removing the
      one at cursor p copies slot n-1 into slot p. The result is the whole
      old range as the loop leaves it, the slots it gave up included. */
  function ScanWindow(mem: seq<Particle>, p: nat, n: nat, th: seq<real>, nDims: nat): (w: seq<Particle>)
    requires p <= n <= |mem| && AllShaped(mem, nDims) && Thresholds(th, nDims)
    ensures |w| == |mem| && AllShaped(w, nDims)
    decreases n - p
  {
    if p == n then mem
    else if Classify(mem[p].pos, th, nDims) == Center(nDims) then ScanWindow(mem, p + 1, n, th, nDims)
    else ScanWindow(mem[p := mem[n - 1]], p, n - 1, th, nDims)
  }

  /** w, a window over mem whose first n slots were live, starts with k and
      agrees with mem beyond index |k|. */
  predicate WindowFacts(w: seq<Particle>, k: seq<Particle>, mem: seq<Particle>, n: nat)
  {
    && |w| == |mem| && |k| <= n <= |mem| && w[..|k|] == k
    && forall i :: |k| < i < |mem| ==> w[i] == mem[i]
  }

  /** The window the loop leaves starts with the kept particles, and every
      slot beyond the final cursor position keeps its old content, since the
      loop only writes at the cursor. The slot at the final cursor itself is
      not promised: it may hold a particle that was packed. */
  lemma {:induction false} ScanWindowKept(mem: seq<Particle>, p: nat, n: nat, th: seq<real>, nDims: nat)
    requires p <= n <= |mem| && AllShaped(mem, nDims) && Thresholds(th, nDims)
    ensures WindowFacts(ScanWindow(mem, p, n, th, nDims), ScanSpecies(mem[..n], p, th, nDims).kept, mem, n)
    decreases n - p
  {
    var w, k := ScanWindow(mem, p, n, th, nDims), ScanSpecies(mem[..n], p, th, nDims).kept;
    if p == n {
      assert w == mem && k == mem[..n];
    } else if Classify(mem[p].pos, th, nDims) == Center(nDims) {
      ScanWindowKept(mem, p + 1, n, th, nDims);
      assert w == ScanWindow(mem, p + 1, n, th, nDims);
      assert k == ScanSpecies(mem[..n], p + 1, th, nDims).kept;
    } else {
      var mem1 := mem[p := mem[n - 1]];
      var m: nat := n - 1;
      ScanWindowRemoveStep(mem, mem1, p, n, m, th, nDims);
      ScanWindowKept(mem1, p, m, th, nDims);
      WindowTransfer(mem, mem1, p, n, w, k);
    }
  }

  /** The removal case of ScanWindowKept over plain sequences: the copy
      into slot p lies below every slot the frame speaks about. */
  lemma WindowTransfer(mem: seq<Particle>, mem1: seq<Particle>, p: nat, n: nat, w: seq<Particle>, k: seq<Particle>)
    requires p < n <= |mem| && mem1 == mem[p := mem[n - 1]] && p <= |k|
    requires WindowFacts(w, k, mem1, n - 1)
    ensures WindowFacts(w, k, mem, n)
  {
  }

  /** The removal step: window and kept particles are those of the scan
      that continues on mem1, which is mem with slot n-1 copied into slot p,
      with m = n-1 particles live. */
  lemma ScanWindowRemoveStep(mem: seq<Particle>, mem1: seq<Particle>, p: nat, n: nat, m: nat,
                             th: seq<real>, nDims: nat)
    requires p < n <= |mem| && AllShaped(mem, nDims) && Thresholds(th, nDims)
    requires Classify(mem[p].pos, th, nDims) != Center(nDims)
    requires mem1 == mem[p := mem[n - 1]] && m == n - 1
    ensures AllShaped(mem1, nDims) && p <= m <= |mem1|
    ensures ScanWindow(mem, p, n, th, nDims) == ScanWindow(mem1, p, m, th, nDims)
    ensures ScanSpecies(mem[..n], p, th, nDims).kept == ScanSpecies(mem1[..m], p, th, nDims).kept
  {
    assert mem1[..m] == RemoveAt(mem[..n], p);
  }

  /** Two particles that both leave: the loop packs the first, copies the
      second over it, packs that one too, and leaves it behind in slot 0,
      which is where the (now empty) live range ends. */
  lemma VacatedSlotOverwritten()
    ensures var a, b := Particle([2.0], [0.0]), Particle([3.0], [0.0]);
      && ScanSpecies([a, b], 0, [0.0, 1.0], 1).kept == []
      && ScanWindow([a, b], 0, 2, [0.0, 1.0], 1) == [b, b]
  {
    var a, b := Particle([2.0], [0.0]), Particle([3.0], [0.0]);
    var th := [0.0, 1.0];
    LeavesUpward(a);
    LeavesUpward(b);
    assert RemoveAt([a, b], 0) == [b];
    assert RemoveAt([b], 0) == [];
    assert ScanSpecies([b], 0, th, 1).kept == [];
    assert ScanWindow([b, b], 0, 0, th, 1) == [b, b];
    assert ScanWindow([b, b], 0, 1, th, 1) == ScanWindow([b, b][0 := b], 0, 0, th, 1);
    assert [a, b][0 := b] == [b, b] == [b, b][0 := b];
  }

  /** On the line with thresholds 0 and 1, a particle at or above 1 leaves
      for the upper neighbour, not the centre. */
  lemma LeavesUpward(q: Particle)
    requires |q.pos| == 1 && q.pos[0] >= 1.0
    ensures Classify(q.pos, [0.0, 1.0], 1) == 2 != Center(1)
  {
    DigitBoundaries(q.pos[0], 0.0, 1.0);
    assert PositionDigits(q.pos, [0.0, 1.0], 1) == [2];
    assert Digits(2, 1) == [2];
    assert Center(1) == 1;
  }

  // ---------------------------------------------------------------------
  // Packing per neighbour

  /** The emigrants of a log that were packed for neighbour ne, in order. */
  function PackedFor(log: seq<Emigrant>, ne: nat): seq<Particle>
  {
    if |log| == 0 then []
    else (if log[0].ne == ne then [log[0].particle] else []) + PackedFor(log[1..], ne)
  }

  lemma PackedForHead(log: seq<Emigrant>, ne: nat)
    requires |log| > 0
    ensures PackedFor(log, ne) == (if log[0].ne == ne then [log[0].particle] else []) + PackedFor(log[1..], ne)
  {
  }

  predicate Targets(log: seq<Emigrant>, nNeighbors: nat)
  {
    forall i :: 0 <= i < |log| ==> log[i].ne < nNeighbors
  }

  /** The buffer half of the packing statements of the scan loop: each
      emigrant is appended to its neighbour's buffer. */
  function PackBuffers(buffers: seq<seq<Particle>>, log: seq<Emigrant>): (r: seq<seq<Particle>>)
    requires Targets(log, |buffers|)
    ensures |r| == |buffers|
    ensures forall ne :: 0 <= ne < |buffers| ==> r[ne] == buffers[ne] + PackedFor(log, ne)
    decreases |log|
  {
    if |log| == 0 then buffers
    else
      var e := log[0];
      var b1 := buffers[e.ne := buffers[e.ne] + [e.particle]];
      var r := PackBuffers(b1, log[1..]);
      PackBuffersStep(buffers, b1, log, r);
      r
  }

  /** One packing statement of PackBuffers: appending the head emigrant first
      and the rest after gives what the whole log packs. */
  lemma PackBuffersStep(buffers: seq<seq<Particle>>, b1: seq<seq<Particle>>, log: seq<Emigrant>, r: seq<seq<Particle>>)
    requires |log| > 0 && log[0].ne < |buffers|
    requires b1 == buffers[log[0].ne := buffers[log[0].ne] + [log[0].particle]]
    requires |r| == |b1| && forall ne :: 0 <= ne < |b1| ==> r[ne] == b1[ne] + PackedFor(log[1..], ne)
    ensures forall ne :: 0 <= ne < |buffers| ==> r[ne] == buffers[ne] + PackedFor(log, ne)
  {
    forall ne | 0 <= ne < |buffers| ensures r[ne] == buffers[ne] + PackedFor(log, ne) {
      PackedForHead(log, ne);
      AppendThenRest(buffers[ne], b1[ne], r[ne], if ne == log[0].ne then [log[0].particle] else [], PackedFor(log[1..], ne));
    }
  }

  /** Appending a head and then the rest is appending both at once. */
  lemma AppendThenRest<T>(a: seq<T>, a1: seq<T>, ra: seq<T>, head: seq<T>, rest: seq<T>)
    requires a1 == a + head && ra == a1 + rest
    ensures ra == a + (head + rest)
  {
  }

  /** The count half: each emigrant of species s increments the (neighbour, s)
      entry. The C array is flat with one block of nSpecies entries per
      neighbour (nEmigrants[ne*nSpecies + s]); it is modelled as one row per
      neighbour, which is how the exchange addresses it. */
  function PackCounts(counts: seq<seq<int>>, log: seq<Emigrant>, s: nat): (r: seq<seq<int>>)
    requires Targets(log, |counts|)
    requires forall ne :: 0 <= ne < |counts| ==> s < |counts[ne]|
    ensures |r| == |counts|
    ensures forall ne :: 0 <= ne < |counts| ==>
      |r[ne]| == |counts[ne]| && r[ne][s] == counts[ne][s] + |PackedFor(log, ne)|
    ensures forall ne, t :: 0 <= ne < |counts| && 0 <= t < |counts[ne]| && t != s ==>
      r[ne][t] == counts[ne][t]
    decreases |log|
  {
    if |log| == 0 then counts
    else
      var e := log[0];
      var r := PackCounts(counts[e.ne := counts[e.ne][s := counts[e.ne][s] + 1]], log[1..], s);
      assert forall ne :: 0 <= ne < |counts| ==>
        |PackedFor(log, ne)| == (if ne == e.ne then 1 else 0) + |PackedFor(log[1..], ne)|;
      r
  }

  // ---------------------------------------------------------------------
  // Extraction over the whole population

  /** Species ranges lie in species order. */
  lemma {:induction false} StartsOrdered(pop: Population, nDims: nat, a: nat, b: nat)
    requires pop.Valid(nDims) && a <= b <= pop.NSpecies()
    ensures pop.iStart[a] <= pop.iStart[b]
    decreases b - a
  {
    if a < b {
      assert pop.iStop[a] <= pop.iStart[a + 1];
      StartsOrdered(pop, nDims, a + 1, b);
    }
  }

  lemma LiveShaped(pop: Population, nDims: nat, s: nat)
    requires pop.Valid(nDims) && s < pop.NSpecies()
    ensures AllShaped(pop.Live(s), nDims)
  {
    var live := pop.Live(s);
    assert AllShaped(pop.store, nDims);
    forall i | 0 <= i < |live| ensures Shaped(live[i], nDims) {
      assert live[i] == pop.store[pop.iStart[s] + i];
    }
  }

  /** The scan of species s over its live particles. */
  function ScanOf(pop: Population, s: nat, th: seq<real>, nDims: nat): (r: Scan)
    requires pop.Valid(nDims) && s < pop.NSpecies() && Thresholds(th, nDims)
    ensures |r.kept| + |r.gone| == pop.iStop[s] - pop.iStart[s]
    ensures AllShaped(r.kept, nDims)
  {
    LiveShaped(pop, nDims, s);
    ScanSpecies(pop.Live(s), 0, th, nDims)
  }

  /** Species s's old live range as the scan loop leaves it: the kept
      particles first, then the slots given up. */
  function WindowOf(pop: Population, s: nat, th: seq<real>, nDims: nat): (w: seq<Particle>)
    requires pop.Valid(nDims) && s < pop.NSpecies() && Thresholds(th, nDims)
    ensures |w| == pop.iStop[s] - pop.iStart[s] && AllShaped(w, nDims)
    ensures w[..|ScanOf(pop, s, th, nDims).kept|] == ScanOf(pop, s, th, nDims).kept
    ensures forall i :: |ScanOf(pop, s, th, nDims).kept| < i < |w| ==> w[i] == pop.Live(s)[i]
  {
    LiveShaped(pop, nDims, s);
    var live := pop.Live(s);
    ScanWindowKept(live, 0, |live|, th, nDims);
    assert live[..|live|] == live;
    ScanWindow(live, 0, |live|, th, nDims)
  }

  /** Species s's old live range overwritten in place by window, which is
      what the scan loop leaves there; iStop[s] moves down to iStart[s] + n. */
  function Shrink(pop: Population, s: nat, window: seq<Particle>, n: nat, nDims: nat): (r: Population)
    requires pop.Valid(nDims) && s < pop.NSpecies()
    requires |window| == pop.iStop[s] - pop.iStart[s] && n <= |window| && AllShaped(window, nDims)
    ensures r.Valid(nDims) && r.iStart == pop.iStart && |r.store| == |pop.store|
    ensures r.iStop == pop.iStop[s := pop.iStart[s] + n]
    ensures r.Live(s) == window[..n]
    ensures r.store[pop.iStart[s]..pop.iStop[s]] == window
    ensures forall t :: 0 <= t < pop.NSpecies() && t != s ==> r.Live(t) == pop.Live(t)
    ensures forall i :: 0 <= i < |pop.store| && !(pop.iStart[s] <= i < pop.iStop[s]) ==>
      r.store[i] == pop.store[i]
  {
    var start := pop.iStart[s];
    var r := Population(pop.store[..start] + window + pop.store[start + |window|..],
                        pop.iStart, pop.iStop[s := start + n]);
    ShrinkFacts(pop, s, window, n, nDims, r);
    r
  }

  lemma ShrinkFacts(pop: Population, s: nat, window: seq<Particle>, n: nat, nDims: nat, r: Population)
    requires pop.Valid(nDims) && s < pop.NSpecies()
    requires |window| == pop.iStop[s] - pop.iStart[s] && n <= |window| && AllShaped(window, nDims)
    requires r == Population(pop.store[..pop.iStart[s]] + window + pop.store[pop.iStart[s] + |window|..],
                             pop.iStart, pop.iStop[s := pop.iStart[s] + n])
    ensures r.Valid(nDims) && |r.store| == |pop.store|
    ensures r.Live(s) == window[..n]
    ensures r.store[pop.iStart[s]..pop.iStop[s]] == window
    ensures forall t :: 0 <= t < pop.NSpecies() && t != s ==> r.Live(t) == pop.Live(t)
    ensures forall i :: 0 <= i < |pop.store| && !(pop.iStart[s] <= i < pop.iStop[s]) ==>
      r.store[i] == pop.store[i]
  {
    var start := pop.iStart[s];
    Splice(pop.store, start, window);
    ShrinkValid(pop, s, window, n, nDims, r);
    assert r.Live(s) == r.store[start..start + |window|][..n];
    ShrinkOthers(pop, s, window, n, nDims, r);
  }

  lemma ShrinkOthers(pop: Population, s: nat, window: seq<Particle>, n: nat, nDims: nat, r: Population)
    requires pop.Valid(nDims) && s < pop.NSpecies() && r.Valid(nDims)
    requires |window| == pop.iStop[s] - pop.iStart[s] && n <= |window|
    requires r == Population(pop.store[..pop.iStart[s]] + window + pop.store[pop.iStart[s] + |window|..],
                             pop.iStart, pop.iStop[s := pop.iStart[s] + n])
    ensures forall t :: 0 <= t < pop.NSpecies() && t != s ==> r.Live(t) == pop.Live(t)
  {
    forall t | 0 <= t < pop.NSpecies() && t != s
      ensures r.Live(t) == pop.Live(t)
    {
      ShrinkOther(pop, s, window, n, nDims, r, t);
    }
  }

  lemma ShrinkValid(pop: Population, s: nat, window: seq<Particle>, n: nat, nDims: nat, r: Population)
    requires pop.Valid(nDims) && s < pop.NSpecies()
    requires |window| == pop.iStop[s] - pop.iStart[s] && n <= |window| && AllShaped(window, nDims)
    requires r == Population(pop.store[..pop.iStart[s]] + window + pop.store[pop.iStart[s] + |window|..],
                             pop.iStart, pop.iStop[s := pop.iStart[s] + n])
    ensures r.Valid(nDims)
  {
    var start := pop.iStart[s];
    Splice(pop.store, start, window);
    forall i | 0 <= i < |r.store| ensures Shaped(r.store[i], nDims) {
      if start <= i < start + |window| {
        assert r.store[i] == window[i - start];
      } else {
        assert r.store[i] == pop.store[i];
        assert AllShaped(pop.store, nDims);
      }
    }
    forall t {:trigger r.iStart[t]} | 0 <= t < |r.iStop|
      ensures 0 <= r.iStart[t] <= r.iStop[t] <= r.iStart[t + 1] <= |r.store|
    {
      assert pop.iStop[t] <= pop.iStart[t + 1];
    }
  }

  lemma ShrinkOther(pop: Population, s: nat, window: seq<Particle>, n: nat, nDims: nat, r: Population, t: nat)
    requires pop.Valid(nDims) && s < pop.NSpecies() && t < pop.NSpecies() && t != s
    requires |window| == pop.iStop[s] - pop.iStart[s] && n <= |window|
    requires r == Population(pop.store[..pop.iStart[s]] + window + pop.store[pop.iStart[s] + |window|..],
                             pop.iStart, pop.iStop[s := pop.iStart[s] + n])
    ensures 0 <= r.iStart[t] <= r.iStop[t] <= |r.store|
    ensures r.Live(t) == pop.Live(t)
  {
    var lo, hi := pop.iStart[t], pop.iStop[t];
    if t < s {
      StartsOrdered(pop, nDims, t + 1, s);
    } else {
      StartsOrdered(pop, nDims, s + 1, t);
    }
    SpliceOutside(pop.store, pop.iStart[s], window, lo, hi);
  }

  /** A splice leaves every slice that avoids the overwritten slots alone. */
  lemma SpliceOutside(store: seq<Particle>, start: nat, kept: seq<Particle>, lo: nat, hi: nat)
    requires start + |kept| <= |store| && lo <= hi <= |store|
    requires hi <= start || start + |kept| <= lo
    ensures |store[..start] + kept + store[start + |kept|..]| == |store|
    ensures (store[..start] + kept + store[start + |kept|..])[lo..hi] == store[lo..hi]
  {
    Splice(store, start, kept);
    SliceAgrees(store[..start] + kept + store[start + |kept|..], store, lo, hi);
  }

  /** Overwriting store[start..start+|kept|] with kept. */
  lemma Splice(store: seq<Particle>, start: nat, kept: seq<Particle>)
    requires start + |kept| <= |store|
    ensures var r := store[..start] + kept + store[start + |kept|..];
      && |r| == |store|
      && r[start..start + |kept|] == kept
      && forall i :: 0 <= i < |store| && !(start <= i < start + |kept|) ==> r[i] == store[i]
  {
    var r := store[..start] + kept + store[start + |kept|..];
    assert forall i :: start + |kept| <= i < |store| ==> r[i] == store[i];
  }

  lemma SliceAgrees(a: seq<Particle>, b: seq<Particle>, lo: nat, hi: nat)
    requires lo <= hi <= |a| && hi <= |b|
    requires forall i :: lo <= i < hi ==> a[i] == b[i]
    ensures a[lo..hi] == b[lo..hi]
  {
  }

  /** One neighbour's send buffer: what was packed for it, species by species
      from species s on. */
  function GroupedFrom(logs: seq<seq<Emigrant>>, ne: nat, s: nat): seq<Particle>
    decreases |logs| - s
  {
    if s >= |logs| then [] else PackedFor(logs[s], ne) + GroupedFrom(logs, ne, s + 1)
  }

  /** The state puExtractEmigrantsND leaves behind: the population, the send
      buffer per neighbour, the (neighbour, species) counts, and per species
      the emigrants in packing order (a ghost of the model, not of the C). */
  datatype Extraction = Extraction(pop: Population, emigrants: seq<seq<Particle>>,
                                   nEmigrants: seq<seq<int>>, logs: seq<seq<Emigrant>>)

  /** Slot i lies in the live range of some species t >= s. */
  predicate InLiveFrom(pop: Population, i: int, s: nat)
    requires |pop.iStart| == |pop.iStop| + 1
  {
    exists t :: s <= t < pop.NSpecies() && pop.iStart[t] <= i < pop.iStop[t]
  }

  /** What processing species s.. of pop does, in terms of pop itself: each
      such species' old live range holds what the scan loop leaves in it, and
      every other slot keeps its content. */
  predicate ExtractedFrom(pop: Population, s: nat, buffers: seq<seq<Particle>>, counts: seq<seq<int>>,
                          logs: seq<seq<Emigrant>>, th: seq<real>, nDims: nat, r: Extraction)
    requires pop.Valid(nDims) && s <= pop.NSpecies() && Thresholds(th, nDims)
  {
    && r.pop.Valid(nDims) && r.pop.iStart == pop.iStart && |r.pop.store| == |pop.store|
    && |r.pop.iStop| == |pop.iStop| && |r.logs| == pop.NSpecies() && r.logs[..s] == logs
    && (forall t :: 0 <= t < s ==> r.pop.iStop[t] == pop.iStop[t] && r.pop.Live(t) == pop.Live(t))
    && (forall t :: s <= t < pop.NSpecies() ==>
          r.pop.Live(t) == ScanOf(pop, t, th, nDims).kept && r.logs[t] == ScanOf(pop, t, th, nDims).gone)
    && WindowsFrom(pop, s, r.pop.store, th, nDims)
    && (forall i :: 0 <= i < |pop.store| && !InLiveFrom(pop, i, s) ==> r.pop.store[i] == pop.store[i])
    && |r.emigrants| == |buffers|
    && (forall ne :: 0 <= ne < |buffers| ==> r.emigrants[ne] == buffers[ne] + GroupedFrom(r.logs, ne, s))
    && |r.nEmigrants| == |counts|
    && (forall ne :: 0 <= ne < |counts| ==> RowAdded(counts[ne], r.nEmigrants[ne], r.logs, ne, s))
  }

  /** Species s.. of pop have their old live ranges in store hold what the
      scan loop leaves there. */
  predicate WindowsFrom(pop: Population, s: nat, store: seq<Particle>, th: seq<real>, nDims: nat)
    requires pop.Valid(nDims) && Thresholds(th, nDims) && |store| == |pop.store|
  {
    forall t {:trigger WindowOf(pop, t, th, nDims)} :: s <= t < pop.NSpecies() ==>
      pop.iStart[t] <= pop.iStop[t] <= |store| &&
      store[pop.iStart[t]..pop.iStop[t]] == WindowOf(pop, t, th, nDims)
  }

  /** Row ne of the counts grew, from species s on, by what each species
      packed for ne. */
  predicate RowAdded(row: seq<int>, row': seq<int>, logs: seq<seq<Emigrant>>, ne: nat, s: nat)
  {
    && |row'| == |row|
    && forall t :: 0 <= t < |row| ==>
         row'[t] == row[t] + (if s <= t < |logs| then |PackedFor(logs[t], ne)| else 0)
  }

  /** Every emigrant's neighbour index addresses a buffer. */
  lemma DepartingTargets(log: seq<Emigrant>, th: seq<real>, nDims: nat)
    requires Thresholds(th, nDims) && Departing(log, th, nDims)
    ensures Targets(log, Pow3(nDims))
  {
  }

  /** Species s.. of the species loop of puExtractEmigrantsND. */
  function ExtractFrom(pop: Population, s: nat, buffers: seq<seq<Particle>>, counts: seq<seq<int>>,
                       logs: seq<seq<Emigrant>>, th: seq<real>, nDims: nat): (r: Extraction)
    requires pop.Valid(nDims) && s <= pop.NSpecies() && Thresholds(th, nDims)
    requires |logs| == s && |buffers| == Pow3(nDims) && |counts| == Pow3(nDims)
    requires forall ne :: 0 <= ne < |counts| ==> |counts[ne]| == pop.NSpecies()
    ensures ExtractedFrom(pop, s, buffers, counts, logs, th, nDims, r)
    decreases pop.NSpecies() - s
  {
    if s == pop.NSpecies() then
      ExtractedNone(pop, buffers, counts, logs, th, nDims);
      Extraction(pop, buffers, counts, logs)
    else
      var sc := ScanOf(pop, s, th, nDims);
      var pop1 := Shrink(pop, s, WindowOf(pop, s, th, nDims), |sc.kept|, nDims);
      DepartingTargets(sc.gone, th, nDims);
      var b1 := PackBuffers(buffers, sc.gone);
      var c1 := PackCounts(counts, sc.gone, s);
      var r := ExtractFrom(pop1, s + 1, b1, c1, logs + [sc.gone], th, nDims);
      ExtractStep(pop, s, buffers, counts, logs, th, nDims, r);
      r
  }

  lemma ExtractedNone(pop: Population, buffers: seq<seq<Particle>>, counts: seq<seq<int>>,
                      logs: seq<seq<Emigrant>>, th: seq<real>, nDims: nat)
    requires pop.Valid(nDims) && Thresholds(th, nDims) && |logs| == pop.NSpecies()
    requires forall ne :: 0 <= ne < |counts| ==> |counts[ne]| == pop.NSpecies()
    ensures ExtractedFrom(pop, pop.NSpecies(), buffers, counts, logs, th, nDims,
                          Extraction(pop, buffers, counts, logs))
  {
    var r := Extraction(pop, buffers, counts, logs);
    assert forall ne :: 0 <= ne < |buffers| ==> GroupedFrom(logs, ne, pop.NSpecies()) == [];
    assert forall i :: 0 <= i < |pop.store| ==> r.pop.store[i] == pop.store[i];
  }

  lemma ExtractStep(pop: Population, s: nat, buffers: seq<seq<Particle>>, counts: seq<seq<int>>,
                    logs: seq<seq<Emigrant>>, th: seq<real>, nDims: nat, r: Extraction)
    requires pop.Valid(nDims) && s < pop.NSpecies() && Thresholds(th, nDims)
    requires |logs| == s && |buffers| == Pow3(nDims) && |counts| == Pow3(nDims)
    requires forall ne :: 0 <= ne < |counts| ==> |counts[ne]| == pop.NSpecies()
    requires var sc := ScanOf(pop, s, th, nDims);
      Targets(sc.gone, Pow3(nDims)) &&
      ExtractedFrom(Shrink(pop, s, WindowOf(pop, s, th, nDims), |sc.kept|, nDims), s + 1, PackBuffers(buffers, sc.gone),
                    PackCounts(counts, sc.gone, s), logs + [sc.gone], th, nDims, r)
    ensures ExtractedFrom(pop, s, buffers, counts, logs, th, nDims, r)
  {
    var sc := ScanOf(pop, s, th, nDims);
    var pop1 := Shrink(pop, s, WindowOf(pop, s, th, nDims), |sc.kept|, nDims);
    assert forall t :: 0 <= t < pop.NSpecies() && t != s ==> pop1.iStop[t] == pop.iStop[t];
    ExtractStepWith(pop, s, buffers, counts, logs, th, nDims, r, sc.gone, pop1,
                    PackBuffers(buffers, sc.gone), PackCounts(counts, sc.gone, s));
  }

  /** ExtractStep over the facts it needs about the shrunk population
      pop1 and the packed buffers b1 and counts c1. */
  lemma ExtractStepWith(pop: Population, s: nat, buffers: seq<seq<Particle>>, counts: seq<seq<int>>,
                        logs: seq<seq<Emigrant>>, th: seq<real>, nDims: nat, r: Extraction,
                        gone: seq<Emigrant>, pop1: Population, b1: seq<seq<Particle>>, c1: seq<seq<int>>)
    requires pop.Valid(nDims) && s < pop.NSpecies() && Thresholds(th, nDims)
    requires |logs| == s && gone == ScanOf(pop, s, th, nDims).gone
    requires pop1.Valid(nDims) && pop1.iStart == pop.iStart && |pop1.iStop| == |pop.iStop|
    requires |pop1.store| == |pop.store|
    requires forall t :: 0 <= t < pop.NSpecies() && t != s ==>
      pop1.iStop[t] == pop.iStop[t] && pop1.Live(t) == pop.Live(t)
    requires pop1.Live(s) == ScanOf(pop, s, th, nDims).kept
    requires pop1.store[pop.iStart[s]..pop.iStop[s]] == WindowOf(pop, s, th, nDims)
    requires forall i :: 0 <= i < |pop.store| && !(pop.iStart[s] <= i < pop.iStop[s]) ==>
      pop1.store[i] == pop.store[i]
    requires |b1| == |buffers|
    requires forall ne :: 0 <= ne < |buffers| ==> b1[ne] == buffers[ne] + PackedFor(gone, ne)
    requires |c1| == |counts|
    requires forall ne :: 0 <= ne < |counts| ==>
      |c1[ne]| == |counts[ne]| && s < |counts[ne]| && c1[ne][s] == counts[ne][s] + |PackedFor(gone, ne)|
    requires forall ne, t :: 0 <= ne < |counts| && 0 <= t < |counts[ne]| && t != s ==> c1[ne][t] == counts[ne][t]
    requires ExtractedFrom(pop1, s + 1, b1, c1, logs + [gone], th, nDims, r)
    ensures ExtractedFrom(pop, s, buffers, counts, logs, th, nDims, r)
  {
    ExtractStepSpecies(pop, s, pop1, logs + [gone], th, nDims, r);
    ExtractStepBuffers(buffers, b1, gone, s, r);
    ExtractStepCounts(counts, c1, gone, s, r);
    ExtractStepWindows(pop, s, pop1, th, nDims, r.pop);
    ExtractStepStore(pop, s, pop1, r.pop);
  }

  lemma ExtractStepSpecies(pop: Population, s: nat, pop1: Population, logs1: seq<seq<Emigrant>>,
                           th: seq<real>, nDims: nat, r: Extraction)
    requires pop.Valid(nDims) && s < pop.NSpecies() && Thresholds(th, nDims)
    requires pop1.Valid(nDims) && pop1.iStart == pop.iStart && |pop1.iStop| == |pop.iStop|
    requires forall t :: 0 <= t < pop.NSpecies() && t != s ==>
      pop1.iStop[t] == pop.iStop[t] && pop1.Live(t) == pop.Live(t)
    requires pop1.Live(s) == ScanOf(pop, s, th, nDims).kept
    requires |logs1| == s + 1 && logs1[s] == ScanOf(pop, s, th, nDims).gone
    requires r.pop.Valid(nDims) && r.pop.iStart == pop1.iStart && |r.pop.iStop| == |pop1.iStop|
    requires |r.logs| == pop.NSpecies() && r.logs[..s + 1] == logs1
    requires forall t :: 0 <= t < s + 1 ==> r.pop.iStop[t] == pop1.iStop[t] && r.pop.Live(t) == pop1.Live(t)
    requires forall t :: s + 1 <= t < pop.NSpecies() ==>
      r.pop.Live(t) == ScanOf(pop1, t, th, nDims).kept && r.logs[t] == ScanOf(pop1, t, th, nDims).gone
    ensures r.logs[..s] == logs1[..s]
    ensures forall t :: 0 <= t < s ==> r.pop.iStop[t] == pop.iStop[t] && r.pop.Live(t) == pop.Live(t)
    ensures forall t :: s <= t < pop.NSpecies() ==>
      r.pop.Live(t) == ScanOf(pop, t, th, nDims).kept && r.logs[t] == ScanOf(pop, t, th, nDims).gone
  {
    assert r.logs[..s] == r.logs[..s + 1][..s];
    assert r.logs[s] == r.logs[..s + 1][s];
    forall t | s < t < pop.NSpecies()
      ensures ScanOf(pop1, t, th, nDims) == ScanOf(pop, t, th, nDims)
    {
      ScanOfLive(pop, pop1, t, th, nDims);
    }
  }

  /** A scan only looks at the live particles of its species. */
  lemma ScanOfLive(pop: Population, pop1: Population, t: nat, th: seq<real>, nDims: nat)
    requires pop.Valid(nDims) && pop1.Valid(nDims) && Thresholds(th, nDims)
    requires t < pop.NSpecies() && t < pop1.NSpecies() && pop1.Live(t) == pop.Live(t)
    ensures ScanOf(pop1, t, th, nDims) == ScanOf(pop, t, th, nDims)
  {
  }

  lemma ExtractStepBuffers(buffers: seq<seq<Particle>>, b1: seq<seq<Particle>>, gone: seq<Emigrant>,
                           s: nat, r: Extraction)
    requires |b1| == |buffers| && s < |r.logs| && r.logs[s] == gone
    requires forall ne :: 0 <= ne < |buffers| ==> b1[ne] == buffers[ne] + PackedFor(gone, ne)
    requires |r.emigrants| == |b1|
    requires forall ne :: 0 <= ne < |b1| ==> r.emigrants[ne] == b1[ne] + GroupedFrom(r.logs, ne, s + 1)
    ensures forall ne :: 0 <= ne < |buffers| ==> r.emigrants[ne] == buffers[ne] + GroupedFrom(r.logs, ne, s)
  {
    forall ne | 0 <= ne < |buffers|
      ensures r.emigrants[ne] == buffers[ne] + GroupedFrom(r.logs, ne, s)
    {
      assert buffers[ne] + PackedFor(gone, ne) + GroupedFrom(r.logs, ne, s + 1)
          == buffers[ne] + (PackedFor(gone, ne) + GroupedFrom(r.logs, ne, s + 1));
    }
  }

  lemma ExtractStepCounts(counts: seq<seq<int>>, c1: seq<seq<int>>, gone: seq<Emigrant>, s: nat, r: Extraction)
    requires |c1| == |counts| && s < |r.logs| && r.logs[s] == gone
    requires forall ne :: 0 <= ne < |counts| ==>
      |c1[ne]| == |counts[ne]| && s < |counts[ne]| && c1[ne][s] == counts[ne][s] + |PackedFor(gone, ne)|
    requires forall ne, t :: 0 <= ne < |counts| && 0 <= t < |counts[ne]| && t != s ==> c1[ne][t] == counts[ne][t]
    requires |r.nEmigrants| == |c1|
    requires forall ne :: 0 <= ne < |c1| ==> RowAdded(c1[ne], r.nEmigrants[ne], r.logs, ne, s + 1)
    ensures forall ne :: 0 <= ne < |counts| ==> RowAdded(counts[ne], r.nEmigrants[ne], r.logs, ne, s)
  {
    forall ne | 0 <= ne < |counts|
      ensures RowAdded(counts[ne], r.nEmigrants[ne], r.logs, ne, s)
    {
      assert RowAdded(c1[ne], r.nEmigrants[ne], r.logs, ne, s + 1);
    }
  }

  /** The windows of species s+1.. are not disturbed by shrinking species
      s, and the window of s survives the later species. */
  lemma ExtractStepWindows(pop: Population, s: nat, pop1: Population, th: seq<real>, nDims: nat, q: Population)
    requires pop.Valid(nDims) && s < pop.NSpecies() && Thresholds(th, nDims)
    requires pop1.Valid(nDims) && pop1.iStart == pop.iStart && |pop1.iStop| == |pop.iStop|
    requires |pop1.store| == |pop.store| && |q.store| == |pop.store|
    requires forall t :: 0 <= t < pop.NSpecies() && t != s ==>
      pop1.iStop[t] == pop.iStop[t] && pop1.Live(t) == pop.Live(t)
    requires pop1.store[pop.iStart[s]..pop.iStop[s]] == WindowOf(pop, s, th, nDims)
    requires WindowsFrom(pop1, s + 1, q.store, th, nDims)
    requires forall i :: 0 <= i < |pop1.store| && !InLiveFrom(pop1, i, s + 1) ==> q.store[i] == pop1.store[i]
    ensures WindowsFrom(pop, s, q.store, th, nDims)
  {
    WindowsLater(pop, s, pop1, th, nDims, q.store);
    WindowKept(pop, s, pop1, nDims, q.store);
  }

  lemma WindowsLater(pop: Population, s: nat, pop1: Population, th: seq<real>, nDims: nat, store: seq<Particle>)
    requires pop.Valid(nDims) && s < pop.NSpecies() && Thresholds(th, nDims)
    requires pop1.Valid(nDims) && pop1.iStart == pop.iStart && |pop1.iStop| == |pop.iStop|
    requires |pop1.store| == |pop.store| && |store| == |pop.store|
    requires forall t :: 0 <= t < pop.NSpecies() && t != s ==>
      pop1.iStop[t] == pop.iStop[t] && pop1.Live(t) == pop.Live(t)
    requires WindowsFrom(pop1, s + 1, store, th, nDims)
    ensures WindowsFrom(pop, s + 1, store, th, nDims)
  {
    forall t | s + 1 <= t < pop.NSpecies()
      ensures 0 <= pop.iStart[t] <= pop.iStop[t] <= |store|
        && store[pop.iStart[t]..pop.iStop[t]] == WindowOf(pop, t, th, nDims)
    {
      WindowOfLive(pop, pop1, t, th, nDims);
      assert store[pop1.iStart[t]..pop1.iStop[t]] == WindowOf(pop1, t, th, nDims);
    }
  }

  /** Species s.. only write inside their own old live ranges, so the old
      range of s is left as shrinking s made it. */
  lemma WindowKept(pop: Population, s: nat, pop1: Population, nDims: nat, store: seq<Particle>)
    requires pop.Valid(nDims) && s < pop.NSpecies() && 0 <= pop.iStart[s] <= pop.iStop[s]
    requires pop1.iStart == pop.iStart && |pop1.iStop| == |pop.iStop|
    requires |pop1.store| == |pop.store| && |store| == |pop.store|
    requires forall i :: 0 <= i < |pop1.store| && !InLiveFrom(pop1, i, s + 1) ==> store[i] == pop1.store[i]
    ensures store[pop.iStart[s]..pop.iStop[s]] == pop1.store[pop.iStart[s]..pop.iStop[s]]
  {
    var lo, hi := pop.iStart[s], pop.iStop[s];
    forall i | lo <= i < hi ensures store[i] == pop1.store[i] {
      forall t | s + 1 <= t < pop.NSpecies() ensures !(pop1.iStart[t] <= i < pop1.iStop[t]) {
        StartsOrdered(pop, nDims, s + 1, t);
      }
    }
    SliceAgrees(store, pop1.store, lo, hi);
  }

  /** The window of a species depends only on its live particles. */
  lemma WindowOfLive(pop: Population, pop1: Population, t: nat, th: seq<real>, nDims: nat)
    requires pop.Valid(nDims) && pop1.Valid(nDims) && Thresholds(th, nDims)
    requires t < pop.NSpecies() && t < pop1.NSpecies() && pop1.Live(t) == pop.Live(t)
    ensures WindowOf(pop1, t, th, nDims) == WindowOf(pop, t, th, nDims)
  {
  }

  /** Slots untouched by species s and by species s+1.. are untouched by s... */
  lemma ExtractStepStore(pop: Population, s: nat, pop1: Population, q: Population)
    requires |pop.iStart| == |pop.iStop| + 1 && s < pop.NSpecies()
    requires |pop1.store| == |pop.store| && pop1.iStart == pop.iStart && |pop1.iStop| == |pop.iStop|
    requires forall t :: 0 <= t < pop.NSpecies() && t != s ==> pop1.iStop[t] == pop.iStop[t]
    requires forall i :: 0 <= i < |pop.store| && !(pop.iStart[s] <= i < pop.iStop[s]) ==>
      pop1.store[i] == pop.store[i]
    requires |q.store| == |pop.store|
    requires forall i :: 0 <= i < |pop1.store| && !InLiveFrom(pop1, i, s + 1) ==> q.store[i] == pop1.store[i]
    ensures forall i :: 0 <= i < |pop.store| && !InLiveFrom(pop, i, s) ==> q.store[i] == pop.store[i]
  {
    forall i | 0 <= i < |pop.store| && !InLiveFrom(pop, i, s)
      ensures q.store[i] == pop.store[i]
    {
      assert !InLiveFrom(pop, i, s + 1);
      assert !InLiveFrom(pop1, i, s + 1);
      assert !(pop.iStart[s] <= i < pop.iStop[s]);
    }
  }

  /** puExtractEmigrantsND: every species' live particles are scanned; the
      ones that leave the centre region are removed (swap with last) and
      packed, species after species, into the buffer of the neighbour they
      classify to, and counted under (neighbour, species). Buffers and counts
      start empty. */
  function ExtractEmigrants(pop: Population, th: seq<real>, nDims: nat): (r: Extraction)
    requires pop.Valid(nDims) && Thresholds(th, nDims)
    ensures r.pop.Valid(nDims) && r.pop.iStart == pop.iStart
    ensures |r.pop.iStop| == |pop.iStop| && |r.pop.store| == |pop.store|
    ensures |r.logs| == pop.NSpecies()
    ensures forall s :: 0 <= s < pop.NSpecies() ==> r.pop.iStop[s] == pop.iStop[s] - |r.logs[s]|
    // what stays behind is exactly what classifies to the centre ...
    ensures forall s, i :: 0 <= s < pop.NSpecies() && pop.iStart[s] <= i < r.pop.iStop[s] ==>
      Stays(r.pop.store[i], th, nDims)
    // ... and every emigrant was packed for the neighbour it classifies to
    ensures forall s :: 0 <= s < pop.NSpecies() ==> Departing(r.logs[s], th, nDims)
    // no particle is lost or duplicated
    ensures forall s :: 0 <= s < pop.NSpecies() ==>
      multiset(pop.Live(s)) == multiset(r.pop.Live(s)) + multiset(ParticlesOf(r.logs[s]))
    ensures |r.emigrants| == Pow3(nDims)
    ensures forall ne :: 0 <= ne < Pow3(nDims) ==> r.emigrants[ne] == GroupedFrom(r.logs, ne, 0)
    ensures |r.nEmigrants| == Pow3(nDims)
    ensures forall ne :: 0 <= ne < Pow3(nDims) ==> |r.nEmigrants[ne]| == pop.NSpecies()
    ensures forall ne, s :: 0 <= ne < Pow3(nDims) && 0 <= s < pop.NSpecies() ==>
      r.nEmigrants[ne][s] == |PackedFor(r.logs[s], ne)|
    // each old live range holds what the scan loop leaves there, and every
    // slot outside the old live ranges keeps its content
    ensures WindowsFrom(pop, 0, r.pop.store, th, nDims)
    ensures forall i :: 0 <= i < |pop.store| && !InLiveFrom(pop, i, 0) ==> r.pop.store[i] == pop.store[i]
  {
    var nS := pop.NSpecies();
    var buffers := seq(Pow3(nDims), ne => []);
    var counts := seq(Pow3(nDims), ne => seq(nS, s => 0));
    var r := ExtractFrom(pop, 0, buffers, counts, [], th, nDims);
    ExtractedAll(pop, buffers, counts, th, nDims, r);
    r
  }

  /** Of the slots species s gave up, all but the first keep their old
      content; the first, at the new iStop[s], may hold a packed particle. */
  lemma ExtractionVacated(pop: Population, th: seq<real>, nDims: nat, s: nat)
    requires pop.Valid(nDims) && Thresholds(th, nDims) && s < pop.NSpecies()
    ensures var r := ExtractEmigrants(pop, th, nDims);
      && r.pop.iStop[s] == pop.iStart[s] + |ScanOf(pop, s, th, nDims).kept|
      && forall i :: r.pop.iStop[s] < i < pop.iStop[s] ==> r.pop.store[i] == pop.store[i]
  {
    var buffers := seq(Pow3(nDims), ne => []);
    var counts := seq(Pow3(nDims), ne => seq(pop.NSpecies(), s => 0));
    var r := ExtractFrom(pop, 0, buffers, counts, [], th, nDims);
    assert r == ExtractEmigrants(pop, th, nDims);
    assert r.pop.Live(s) == ScanOf(pop, s, th, nDims).kept;
    assert WindowsFrom(pop, 0, r.pop.store, th, nDims);
    var lo, hi := pop.iStart[s], pop.iStop[s];
    var w := WindowOf(pop, s, th, nDims);
    assert r.pop.store[lo..hi] == w;
    TailAgrees(r.pop.store, pop.store, lo, hi, |ScanOf(pop, s, th, nDims).kept|, w);
  }

  /** A window written over prev[lo..hi] that agrees with it beyond index k
      leaves those slots as they were. */
  lemma TailAgrees(store: seq<Particle>, prev: seq<Particle>, lo: nat, hi: nat, k: nat, w: seq<Particle>)
    requires lo <= hi <= |store| && hi <= |prev| && store[lo..hi] == w
    requires forall j :: k < j < |w| ==> w[j] == prev[lo..hi][j]
    ensures forall i :: lo + k < i < hi ==> store[i] == prev[i]
  {
    forall i | lo + k < i < hi ensures store[i] == prev[i] {
      assert store[i] == w[i - lo];
      assert prev[lo..hi][i - lo] == prev[i];
    }
  }

  lemma ExtractedAll(pop: Population, buffers: seq<seq<Particle>>, counts: seq<seq<int>>,
                     th: seq<real>, nDims: nat, r: Extraction)
    requires pop.Valid(nDims) && Thresholds(th, nDims)
    requires buffers == seq(Pow3(nDims), ne => [])
    requires counts == seq(Pow3(nDims), ne => seq(pop.NSpecies(), s => 0))
    requires ExtractedFrom(pop, 0, buffers, counts, [], th, nDims, r)
    ensures forall s :: 0 <= s < pop.NSpecies() ==> r.pop.iStop[s] == pop.iStop[s] - |r.logs[s]|
    ensures forall s, i :: 0 <= s < pop.NSpecies() && pop.iStart[s] <= i < r.pop.iStop[s] ==>
      Stays(r.pop.store[i], th, nDims)
    ensures forall s :: 0 <= s < pop.NSpecies() ==> Departing(r.logs[s], th, nDims)
    ensures forall s :: 0 <= s < pop.NSpecies() ==>
      multiset(pop.Live(s)) == multiset(r.pop.Live(s)) + multiset(ParticlesOf(r.logs[s]))
    ensures forall ne :: 0 <= ne < Pow3(nDims) ==> r.emigrants[ne] == GroupedFrom(r.logs, ne, 0)
    ensures forall ne :: 0 <= ne < Pow3(nDims) ==> |r.nEmigrants[ne]| == pop.NSpecies()
    ensures forall ne, s :: 0 <= ne < Pow3(nDims) && 0 <= s < pop.NSpecies() ==>
      r.nEmigrants[ne][s] == |PackedFor(r.logs[s], ne)|
  {
    forall s | 0 <= s < pop.NSpecies()
      ensures r.pop.iStop[s] == pop.iStop[s] - |r.logs[s]|
      ensures Departing(r.logs[s], th, nDims)
      ensures multiset(pop.Live(s)) == multiset(r.pop.Live(s)) + multiset(ParticlesOf(r.logs[s]))
      ensures forall i :: pop.iStart[s] <= i < r.pop.iStop[s] ==> Stays(r.pop.store[i], th, nDims)
    {
      ExtractedSpecies(pop, s, th, nDims, r.pop, r.logs[s]);
    }
    forall ne | 0 <= ne < Pow3(nDims)
      ensures |r.nEmigrants[ne]| == pop.NSpecies()
      ensures forall s :: 0 <= s < pop.NSpecies() ==> r.nEmigrants[ne][s] == |PackedFor(r.logs[s], ne)|
    {
      assert RowAdded(counts[ne], r.nEmigrants[ne], r.logs, ne, 0);
    }
  }

  /** What the scan of species s promises, read off the population after it. */
  lemma ExtractedSpecies(pop: Population, s: nat, th: seq<real>, nDims: nat, q: Population, log: seq<Emigrant>)
    requires pop.Valid(nDims) && Thresholds(th, nDims) && s < pop.NSpecies()
    requires q.Valid(nDims) && q.iStart == pop.iStart && |q.iStop| == |pop.iStop|
    requires q.Live(s) == ScanOf(pop, s, th, nDims).kept && log == ScanOf(pop, s, th, nDims).gone
    ensures q.iStop[s] == pop.iStop[s] - |log|
    ensures Departing(log, th, nDims)
    ensures multiset(pop.Live(s)) == multiset(q.Live(s)) + multiset(ParticlesOf(log))
    ensures forall i :: pop.iStart[s] <= i < q.iStop[s] ==> Stays(q.store[i], th, nDims)
  {
    var sc := ScanOf(pop, s, th, nDims);
    LiveShaped(pop, nDims, s);
    forall i | pop.iStart[s] <= i < q.iStop[s]
      ensures Stays(q.store[i], th, nDims)
    {
      assert q.store[i] == sc.kept[i - pop.iStart[s]];
    }
  }

  // ---------------------------------------------------------------------
  // What the extraction promises the exchange

  /** Counts of emigrants packed for neighbours below k. */
  function CountBelow(log: seq<Emigrant>, k: nat): nat
  {
    if k == 0 then 0 else CountBelow(log, k - 1) + |PackedFor(log, k - 1)|
  }

  /** Emigrants packed for neighbours below k, as a multiset. */
  function UnionBelow(log: seq<Emigrant>, k: nat): multiset<Particle>
  {
    if k == 0 then multiset{} else UnionBelow(log, k - 1) + multiset(PackedFor(log, k - 1))
  }

  lemma BelowCons(log: seq<Emigrant>, k: nat)
    requires |log| > 0
    ensures CountBelow(log, k) == (if log[0].ne < k then 1 else 0) + CountBelow(log[1..], k)
    ensures UnionBelow(log, k) == (if log[0].ne < k then multiset{log[0].particle} else multiset{})
                                  + UnionBelow(log[1..], k)
  {
    CountBelowCons(log, k);
    UnionBelowCons(log, k);
  }

  lemma {:induction false} CountBelowCons(log: seq<Emigrant>, k: nat)
    requires |log| > 0
    ensures CountBelow(log, k) == (if log[0].ne < k then 1 else 0) + CountBelow(log[1..], k)
  {
    if k > 0 {
      CountBelowCons(log, k - 1);
      PackedForHead(log, k - 1);
    }
  }

  lemma {:induction false} UnionBelowCons(log: seq<Emigrant>, k: nat)
    requires |log| > 0
    ensures UnionBelow(log, k) == (if log[0].ne < k then multiset{log[0].particle} else multiset{})
                                  + UnionBelow(log[1..], k)
  {
    if k > 0 {
      UnionBelowCons(log, k - 1);
      PackedForHeadMultiset(log, k - 1);
      UnionStep(log[0].ne, k, log[0].particle, UnionBelow(log, k - 1), multiset(PackedFor(log, k - 1)),
                UnionBelow(log[1..], k - 1), multiset(PackedFor(log[1..], k - 1)));
    }
  }

  /** The head emigrant is counted below k iff it is counted below k-1 or
      packed for k-1. */
  lemma UnionStep(ne: nat, k: nat, p: Particle, below: multiset<Particle>, packed: multiset<Particle>,
                  below': multiset<Particle>, packed': multiset<Particle>)
    requires k > 0
    requires below == (if ne < k - 1 then multiset{p} else multiset{}) + below'
    requires packed == (if ne == k - 1 then multiset{p} else multiset{}) + packed'
    ensures below + packed == (if ne < k then multiset{p} else multiset{}) + (below' + packed')
  {
  }

  lemma PackedForHeadMultiset(log: seq<Emigrant>, ne: nat)
    requires |log| > 0
    ensures multiset(PackedFor(log, ne))
         == (if log[0].ne == ne then multiset{log[0].particle} else multiset{}) + multiset(PackedFor(log[1..], ne))
  {
    PackedForHead(log, ne);
  }

  /** Every emigrant is packed for exactly one neighbour. */
  lemma {:induction false} BelowTotal(log: seq<Emigrant>, k: nat)
    requires Targets(log, k)
    ensures CountBelow(log, k) == |log|
    ensures UnionBelow(log, k) == multiset(ParticlesOf(log))
    decreases |log|
  {
    if |log| == 0 {
      BelowEmpty(log, k);
    } else {
      BelowCons(log, k);
      BelowTotal(log[1..], k);
      assert ParticlesOf(log) == [log[0].particle] + ParticlesOf(log[1..]);
    }
  }

  lemma {:induction false} BelowEmpty(log: seq<Emigrant>, k: nat)
    requires |log| == 0
    ensures CountBelow(log, k) == 0 && UnionBelow(log, k) == multiset{}
  {
    if k > 0 {
      BelowEmpty(log, k - 1);
    }
  }

  /** Column s of the counts summed over neighbours below k. */
  function ColumnSum(counts: seq<seq<int>>, s: nat, k: nat): int
    requires k <= |counts| && forall ne :: 0 <= ne < |counts| ==> s < |counts[ne]|
  {
    if k == 0 then 0 else ColumnSum(counts, s, k - 1) + counts[k - 1][s]
  }

  /** Nothing is ever packed for the centre: its buffer and counts stay empty. */
  lemma NothingForCenter(pop: Population, th: seq<real>, nDims: nat)
    requires pop.Valid(nDims) && Thresholds(th, nDims)
    ensures var r := ExtractEmigrants(pop, th, nDims);
      && r.emigrants[Center(nDims)] == []
      && forall s :: 0 <= s < pop.NSpecies() ==> r.nEmigrants[Center(nDims)][s] == 0
  {
    var r := ExtractEmigrants(pop, th, nDims);
    var c := Center(nDims);
    NoneForCenter(r.logs, th, nDims);
    assert r.emigrants[c] == GroupedFrom(r.logs, c, 0);
    assert forall s :: 0 <= s < pop.NSpecies() ==> r.nEmigrants[c][s] == |PackedFor(r.logs[s], c)|;
  }

  lemma NoneForCenter(logs: seq<seq<Emigrant>>, th: seq<real>, nDims: nat)
    requires Thresholds(th, nDims)
    requires forall s :: 0 <= s < |logs| ==> Departing(logs[s], th, nDims)
    ensures forall s :: 0 <= s < |logs| ==> PackedFor(logs[s], Center(nDims)) == []
    ensures GroupedFrom(logs, Center(nDims), 0) == []
  {
    forall s | 0 <= s < |logs| ensures PackedFor(logs[s], Center(nDims)) == [] {
      NoneFor(logs[s], Center(nDims), th, nDims);
    }
    NoGroup(logs, Center(nDims), 0);
  }

  lemma {:induction false} NoneFor(log: seq<Emigrant>, c: nat, th: seq<real>, nDims: nat)
    requires Thresholds(th, nDims) && Departing(log, th, nDims) && c == Center(nDims)
    ensures PackedFor(log, c) == []
    decreases |log|
  {
    if |log| > 0 {
      NoneFor(log[1..], c, th, nDims);
    }
  }

  lemma {:induction false} NoGroup(logs: seq<seq<Emigrant>>, ne: nat, s: nat)
    requires forall t :: s <= t < |logs| ==> PackedFor(logs[t], ne) == []
    ensures GroupedFrom(logs, ne, s) == []
    decreases |logs| - s
  {
    if s < |logs| {
      NoGroup(logs, ne, s + 1);
    }
  }

  /** Summed over all neighbours, the counts of species s are the number of
      particles species s lost, and the packed particles are exactly those
      that left the live range. */
  lemma ExtractionConserves(pop: Population, th: seq<real>, nDims: nat, s: nat)
    requires pop.Valid(nDims) && Thresholds(th, nDims) && s < pop.NSpecies()
    ensures var r := ExtractEmigrants(pop, th, nDims);
      ColumnSum(r.nEmigrants, s, Pow3(nDims)) == pop.iStop[s] - r.pop.iStop[s]
    ensures var r := ExtractEmigrants(pop, th, nDims);
      multiset(pop.Live(s)) == multiset(r.pop.Live(s)) + UnionBelow(r.logs[s], Pow3(nDims))
  {
    var r := ExtractEmigrants(pop, th, nDims);
    LogConserved(r.nEmigrants, r.logs[s], s, th, nDims);
  }

  /** A departing log is counted and packed once per emigrant. */
  lemma LogConserved(counts: seq<seq<int>>, log: seq<Emigrant>, s: nat, th: seq<real>, nDims: nat)
    requires Thresholds(th, nDims) && Departing(log, th, nDims)
    requires |counts| == Pow3(nDims) && forall ne :: 0 <= ne < |counts| ==> s < |counts[ne]|
    requires forall ne :: 0 <= ne < |counts| ==> counts[ne][s] == |PackedFor(log, ne)|
    ensures ColumnSum(counts, s, Pow3(nDims)) == |log|
    ensures UnionBelow(log, Pow3(nDims)) == multiset(ParticlesOf(log))
  {
    DepartingTargets(log, th, nDims);
    BelowTotal(log, Pow3(nDims));
    ColumnIsCount(counts, log, s, Pow3(nDims));
  }

  lemma {:induction false} ColumnIsCount(counts: seq<seq<int>>, log: seq<Emigrant>, s: nat, k: nat)
    requires k <= |counts| && forall ne :: 0 <= ne < |counts| ==> s < |counts[ne]|
    requires forall ne :: 0 <= ne < |counts| ==> counts[ne][s] == |PackedFor(log, ne)|
    ensures ColumnSum(counts, s, k) == CountBelow(log, k)
  {
    if k > 0 {
      ColumnIsCount(counts, log, s, k - 1);
      var x, y := counts[k - 1][s], |PackedFor(log, k - 1)|;
      assert x == y;
      assert ColumnSum(counts, s, k) == ColumnSum(counts, s, k - 1) + x;
      assert CountBelow(log, k) == CountBelow(log, k - 1) + y;
    }
  }

  /** A neighbour's buffer holds as many particles as its count row adds up
      to, which is what exchangeMigrants sends. */
  lemma BufferMatchesCounts(pop: Population, th: seq<real>, nDims: nat, ne: nat)
    requires pop.Valid(nDims) && Thresholds(th, nDims) && ne < Pow3(nDims)
    ensures var r := ExtractEmigrants(pop, th, nDims);
      |r.emigrants[ne]| == Sum(r.nEmigrants[ne])
  {
    var r := ExtractEmigrants(pop, th, nDims);
    GroupLength(r.logs, r.nEmigrants[ne], ne, 0);
    assert r.nEmigrants[ne][0..] == r.nEmigrants[ne];
  }

  lemma {:induction false} GroupLength(logs: seq<seq<Emigrant>>, row: seq<int>, ne: nat, s: nat)
    requires |row| == |logs| && s <= |logs|
    requires forall t :: 0 <= t < |logs| ==> row[t] == |PackedFor(logs[t], ne)|
    ensures |GroupedFrom(logs, ne, s)| == Sum(row[s..])
    decreases |logs| - s
  {
    if s < |logs| {
      GroupLength(logs, row, ne, s + 1);
      SumFront(row[s..]);
      assert row[s..][1..] == row[s + 1..];
    }
  }

  // ---------------------------------------------------------------------
  // Wire format: particles travel as flat (pos..., vel...) tuples

  function Flatten(ps: seq<Particle>): seq<real>
  {
    if |ps| == 0 then [] else ps[0].pos + ps[0].vel + Flatten(ps[1..])
  }

  /** The first count tuples of 2*nDims numbers, read back as particles. */
  function Unflatten(xs: seq<real>, nDims: nat, count: nat): (ps: seq<Particle>)
    requires 2 * nDims * count <= |xs|
    ensures |ps| == count && AllShaped(ps, nDims)
  {
    if count == 0 then []
    else
      assert 2 * nDims * count == 2 * nDims + 2 * nDims * (count - 1);
      [Particle(xs[..nDims], xs[nDims..2 * nDims])] + Unflatten(xs[2 * nDims..], nDims, count - 1)
  }

  /** A buffer of count particles is 2*nDims*count numbers long, which is the
      message length exchangeMigrants sends. */
  lemma {:induction false} FlattenLength(ps: seq<Particle>, nDims: nat)
    requires AllShaped(ps, nDims)
    ensures |Flatten(ps)| == 2 * nDims * |ps|
  {
    if |ps| > 0 {
      FlattenLength(ps[1..], nDims);
    }
  }

  /** Reading the flat buffer back gives the particles that were packed,
      whatever follows them in the receive buffer. */
  lemma {:induction false} UnflattenFlatten(ps: seq<Particle>, rest: seq<real>, nDims: nat)
    requires AllShaped(ps, nDims)
    ensures 2 * nDims * |ps| <= |Flatten(ps) + rest|
    ensures Unflatten(Flatten(ps) + rest, nDims, |ps|) == ps
  {
    FlattenLength(ps, nDims);
    if |ps| > 0 {
      var xs := Flatten(ps) + rest;
      var p := ps[0];
      assert xs == p.pos + p.vel + (Flatten(ps[1..]) + rest);
      assert xs[..nDims] == p.pos;
      assert xs[nDims..2 * nDims] == p.vel;
      assert xs[2 * nDims..] == Flatten(ps[1..]) + rest;
      UnflattenFlatten(ps[1..], rest, nDims);
      assert ps == [p] + ps[1..];
    }
  }

  // ---------------------------------------------------------------------
  // shiftImmigrants

  /** The coordinate shift of dimension d for a message tagged ne: the
      digit's offset times the true size of that dimension. */
  function Offset(ne: nat, nDims: nat, d: nat, trueSize: seq<int>): real
    requires d < nDims && nDims < |trueSize|
  {
    Displacement(Digits(ne, nDims)[d], trueSize[d + 1])
  }

  /** A digit of 0, 1 or 2 moves a coordinate down by size, not at all, or
      up by size. */
  function Displacement(digit: int, size: int): real
  {
    (digit - 1) as real * size as real
  }

  /** The loop of shiftImmigrants over dimensions d.. for one particle,
      consuming one base-3 digit of ne per dimension. */
  function ShiftFrom(pos: seq<real>, ne: nat, d: nat, trueSize: seq<int>): (r: seq<real>)
    requires d <= |pos| < |trueSize|
    ensures |r| == |pos|
    ensures forall e :: 0 <= e < d ==> r[e] == pos[e]
    ensures forall e :: d <= e < |pos| ==>
      r[e] == pos[e] + Displacement(Digits(ne, |pos| - d)[e - d], trueSize[e + 1])
    decreases |pos| - d
  {
    if d == |pos| then pos
    else
      var shifted := pos[d := pos[d] + Displacement(ne % 3, trueSize[d + 1])];
      var r := ShiftFrom(shifted, ne / 3, d + 1, trueSize);
      ShiftStep(pos, ne, d, trueSize, shifted, r);
      r
  }

  /** One dimension of the shift loop: dimension d takes the low digit of ne
      and the later dimensions the digits of ne / 3. */
  lemma ShiftStep(pos: seq<real>, ne: nat, d: nat, trueSize: seq<int>, shifted: seq<real>, r: seq<real>)
    requires d < |pos| < |trueSize|
    requires shifted == pos[d := pos[d] + Displacement(ne % 3, trueSize[d + 1])]
    requires |r| == |shifted|
    requires forall e :: 0 <= e < d + 1 ==> r[e] == shifted[e]
    requires forall e :: d + 1 <= e < |shifted| ==>
      r[e] == shifted[e] + Displacement(Digits(ne / 3, |shifted| - (d + 1))[e - (d + 1)], trueSize[e + 1])
    ensures forall e :: 0 <= e < d ==> r[e] == pos[e]
    ensures forall e :: d <= e < |pos| ==>
      r[e] == pos[e] + Displacement(Digits(ne, |pos| - d)[e - d], trueSize[e + 1])
  {
    var k: nat := |pos| - d;
    assert Digits(ne, k) == [ne % 3] + Digits(ne / 3, k - 1);
    assert k - 1 == |shifted| - (d + 1);
    forall e | d <= e < |pos|
      ensures r[e] == pos[e] + Displacement(Digits(ne, k)[e - d], trueSize[e + 1])
    {
      if e > d {
        var j: nat := e - (d + 1);
        assert Digits(ne, k)[j + 1] == Digits(ne / 3, k - 1)[j];
      }
    }
  }

  /** One particle of the receive buffer moved by Offset in every dimension. */
  function ShiftParticle(p: Particle, ne: nat, nDims: nat, trueSize: seq<int>): (q: Particle)
    requires Shaped(p, nDims) && nDims < |trueSize|
    ensures Shaped(q, nDims) && q.vel == p.vel
    ensures forall d :: 0 <= d < nDims ==> q.pos[d] == p.pos[d] + Offset(ne, nDims, d, trueSize)
  {
    Particle(ShiftFrom(p.pos, ne, 0, trueSize), p.vel)
  }

  /** shiftImmigrants: the positions of the first total particles of the
      receive buffer are moved by Offset in every dimension; velocities and
      the particles past total are left alone. */
  function ShiftImmigrants(buf: seq<Particle>, ne: nat, nDims: nat, trueSize: seq<int>, total: int)
    : (r: seq<Particle>)
    requires AllShaped(buf, nDims) && nDims < |trueSize|
    ensures |r| == |buf| && AllShaped(r, nDims)
    ensures forall i :: 0 <= i < |buf| ==> r[i].vel == buf[i].vel
    ensures forall i :: 0 <= i < |buf| && !(i < total) ==> r[i] == buf[i]
    ensures forall i, d :: 0 <= i < |buf| && i < total && 0 <= d < nDims ==>
      r[i].pos[d] == buf[i].pos[d] + Offset(ne, nDims, d, trueSize)
  {
    seq(|buf|, i requires 0 <= i < |buf| =>
      if i < total then ShiftParticle(buf[i], ne, nDims, trueSize) else buf[i])
  }

  /** Shifting by the reciprocal direction undoes a shift: the two sides of
      an exchange move coordinates by opposite amounts. This holds for the
      exact reals of the model; the program's double additions round. */
  lemma ShiftReciprocal(buf: seq<Particle>, ne: nat, nDims: nat, trueSize: seq<int>, total: int)
    requires AllShaped(buf, nDims) && nDims < |trueSize|
    ensures ShiftImmigrants(ShiftImmigrants(buf, ne, nDims, trueSize, total),
                            Reciprocal(ne, nDims), nDims, trueSize, total) == buf
  {
    var once := ShiftImmigrants(buf, ne, nDims, trueSize, total);
    var twice := ShiftImmigrants(once, Reciprocal(ne, nDims), nDims, trueSize, total);
    forall i | 0 <= i < |buf| ensures twice[i] == buf[i] {
      if i < total {
        forall d | 0 <= d < nDims ensures twice[i].pos[d] == buf[i].pos[d] {
          OffsetReciprocal(ne, nDims, d, trueSize);
        }
      }
    }
  }

  lemma OffsetReciprocal(ne: nat, nDims: nat, d: nat, trueSize: seq<int>)
    requires d < nDims < |trueSize|
    ensures Offset(Reciprocal(ne, nDims), nDims, d, trueSize) == -Offset(ne, nDims, d, trueSize)
  {
    var k := Digits(ne, nDims)[d] as int;
    assert Digits(Reciprocal(ne, nDims), nDims)[d] as int == 2 - k;
    DisplacementMirror(k, trueSize[d + 1]);
  }

  /** The mirrored digit 2-k moves a coordinate by the opposite amount. */
  lemma DisplacementMirror(k: int, size: int)
    ensures Displacement(2 - k, size) == -Displacement(k, size)
  {
    var a := (k - 1) as real;
    assert ((2 - k) - 1) as real == -a;
    assert (-a) * size as real == -(a * size as real);
  }

  // ---------------------------------------------------------------------
  // importParticles

  predicate NonNegative(n: seq<int>)
  {
    forall t :: 0 <= t < |n| ==> n[t] >= 0
  }

  /** n[s] + n[s+1] + ... */
  function SumFrom(n: seq<int>, s: nat): (r: int)
    requires NonNegative(n)
    ensures r >= 0
    decreases |n| - s
  {
    if s >= |n| then 0 else n[s] + SumFrom(n, s + 1)
  }

  /** The buffer cut into consecutive pieces of n[s], n[s+1], ... particles. */
  function Chunks(buf: seq<Particle>, n: seq<int>, s: nat): (r: seq<seq<Particle>>)
    requires s <= |n| && NonNegative(n) && SumFrom(n, s) <= |buf|
    ensures |r| == |n| - s
    decreases |n| - s
  {
    if s == |n| then [] else [buf[..n[s]]] + Chunks(buf[n[s]..], n, s + 1)
  }

  /** Piece t of the cut holds exactly n[s+t] particles, the count announced
      for its species. */
  lemma {:induction false} ChunkSizes(buf: seq<Particle>, n: seq<int>, s: nat)
    requires s <= |n| && NonNegative(n) && SumFrom(n, s) <= |buf|
    ensures forall t :: 0 <= t < |n| - s ==> |Chunks(buf, n, s)[t]| == n[s + t]
    decreases |n| - s
  {
    if s < |n| {
      ChunkSizes(buf[n[s]..], n, s + 1);
      forall t | 0 <= t < |n| - s ensures |Chunks(buf, n, s)[t]| == n[s + t] {
        ChunkAt(buf, n, s, t);
      }
    }
  }

  /** Pieces laid end to end, from piece s on. */
  function JoinFrom(groups: seq<seq<Particle>>, s: nat): seq<Particle>
    decreases |groups| - s
  {
    if s >= |groups| then [] else groups[s] + JoinFrom(groups, s + 1)
  }

  function Sizes(groups: seq<seq<Particle>>): (n: seq<int>)
    ensures |n| == |groups| && NonNegative(n)
    ensures forall t :: 0 <= t < |groups| ==> n[t] == |groups[t]|
  {
    seq(|groups|, t requires 0 <= t < |groups| => |groups[t]|)
  }

  /** Cutting a concatenation at the pieces' sizes gives the pieces back:
      the receiver recovers each species' share of the message. */
  lemma {:induction false} ChunksJoin(groups: seq<seq<Particle>>, s: nat, rest: seq<Particle>)
    requires s <= |groups|
    ensures SumFrom(Sizes(groups), s) == |JoinFrom(groups, s)|
    ensures Chunks(JoinFrom(groups, s) + rest, Sizes(groups), s) == groups[s..]
    decreases |groups| - s
  {
    if s < |groups| {
      ChunksJoin(groups, s + 1, rest);
      var n := Sizes(groups);
      var tail := JoinFrom(groups, s + 1) + rest;
      var whole := JoinFrom(groups, s) + rest;
      assert whole == groups[s] + tail;
      CutAppend(groups[s], tail);
      assert whole[..n[s]] == groups[s] && whole[n[s]..] == tail;
      assert Chunks(whole, n, s) == [groups[s]] + Chunks(tail, n, s + 1);
      SliceCons(groups, s);
    }
  }

  lemma SliceCons<T>(xs: seq<T>, s: nat)
    requires s < |xs|
    ensures xs[s..] == [xs[s]] + xs[s + 1..]
  {
  }

  lemma CutAppend(a: seq<Particle>, b: seq<Particle>)
    ensures (a + b)[..|a|] == a && (a + b)[|a|..] == b
  {
  }

  /** The live range of species s extended in place by add, which must fit
      below the next species' start. */
  function Grow(pop: Population, s: nat, add: seq<Particle>, nDims: nat): (r: Population)
    requires pop.Valid(nDims) && s < pop.NSpecies()
    requires pop.iStop[s] + |add| <= pop.iStart[s + 1] && AllShaped(add, nDims)
    ensures r.Valid(nDims) && r.iStart == pop.iStart && |r.store| == |pop.store|
    ensures r.iStop == pop.iStop[s := pop.iStop[s] + |add|]
    ensures r.Live(s) == pop.Live(s) + add
    ensures forall t :: 0 <= t < pop.NSpecies() && t != s ==> r.Live(t) == pop.Live(t)
    ensures forall i :: 0 <= i < |pop.store| && !(pop.iStop[s] <= i < r.iStop[s]) ==>
      r.store[i] == pop.store[i]
  {
    var stop := pop.iStop[s];
    var r := Population(pop.store[..stop] + add + pop.store[stop + |add|..],
                        pop.iStart, pop.iStop[s := stop + |add|]);
    GrowFacts(pop, s, add, nDims, r);
    r
  }

  lemma GrowFacts(pop: Population, s: nat, add: seq<Particle>, nDims: nat, r: Population)
    requires pop.Valid(nDims) && s < pop.NSpecies()
    requires pop.iStop[s] + |add| <= pop.iStart[s + 1] && AllShaped(add, nDims)
    requires r == Population(pop.store[..pop.iStop[s]] + add + pop.store[pop.iStop[s] + |add|..],
                             pop.iStart, pop.iStop[s := pop.iStop[s] + |add|])
    ensures r.Valid(nDims) && |r.store| == |pop.store|
    ensures r.Live(s) == pop.Live(s) + add
    ensures forall t :: 0 <= t < pop.NSpecies() && t != s ==> r.Live(t) == pop.Live(t)
    ensures forall i :: 0 <= i < |pop.store| && !(pop.iStop[s] <= i < r.iStop[s]) ==>
      r.store[i] == pop.store[i]
  {
    Splice(pop.store, pop.iStop[s], add);
    GrowValid(pop, s, add, nDims, r);
    GrowLive(pop, s, add, nDims, r);
    GrowOthers(pop, s, add, nDims, r);
  }

  lemma GrowValid(pop: Population, s: nat, add: seq<Particle>, nDims: nat, r: Population)
    requires pop.Valid(nDims) && s < pop.NSpecies()
    requires pop.iStop[s] + |add| <= pop.iStart[s + 1] && AllShaped(add, nDims)
    requires r == Population(pop.store[..pop.iStop[s]] + add + pop.store[pop.iStop[s] + |add|..],
                             pop.iStart, pop.iStop[s := pop.iStop[s] + |add|])
    ensures r.Valid(nDims)
  {
    var stop := pop.iStop[s];
    Splice(pop.store, stop, add);
    forall i | 0 <= i < |r.store| ensures Shaped(r.store[i], nDims) {
      if stop <= i < stop + |add| {
        assert r.store[i] == add[i - stop];
      } else {
        assert r.store[i] == pop.store[i];
        assert AllShaped(pop.store, nDims);
      }
    }
    forall t {:trigger r.iStart[t]} | 0 <= t < |r.iStop|
      ensures 0 <= r.iStart[t] <= r.iStop[t] <= r.iStart[t + 1] <= |r.store|
    {
      assert pop.iStop[t] <= pop.iStart[t + 1];
    }
  }

  lemma GrowLive(pop: Population, s: nat, add: seq<Particle>, nDims: nat, r: Population)
    requires pop.Valid(nDims) && s < pop.NSpecies() && r.Valid(nDims)
    requires pop.iStop[s] + |add| <= pop.iStart[s + 1]
    requires r == Population(pop.store[..pop.iStop[s]] + add + pop.store[pop.iStop[s] + |add|..],
                             pop.iStart, pop.iStop[s := pop.iStop[s] + |add|])
    ensures r.Live(s) == pop.Live(s) + add
  {
    var start, stop := pop.iStart[s], pop.iStop[s];
    assert pop.iStop[s] <= pop.iStart[s + 1];
    assert r.store[start..stop + |add|] == pop.store[start..stop] + add;
  }

  lemma GrowOthers(pop: Population, s: nat, add: seq<Particle>, nDims: nat, r: Population)
    requires pop.Valid(nDims) && s < pop.NSpecies() && r.Valid(nDims)
    requires pop.iStop[s] + |add| <= pop.iStart[s + 1]
    requires r == Population(pop.store[..pop.iStop[s]] + add + pop.store[pop.iStop[s] + |add|..],
                             pop.iStart, pop.iStop[s := pop.iStop[s] + |add|])
    ensures forall t :: 0 <= t < pop.NSpecies() && t != s ==> r.Live(t) == pop.Live(t)
  {
    forall t | 0 <= t < pop.NSpecies() && t != s
      ensures r.Live(t) == pop.Live(t)
    {
      GrowOther(pop, s, add, nDims, r, t);
    }
  }

  lemma GrowOther(pop: Population, s: nat, add: seq<Particle>, nDims: nat, r: Population, t: nat)
    requires pop.Valid(nDims) && s < pop.NSpecies() && t < pop.NSpecies() && t != s
    requires pop.iStop[s] + |add| <= pop.iStart[s + 1]
    requires r == Population(pop.store[..pop.iStop[s]] + add + pop.store[pop.iStop[s] + |add|..],
                             pop.iStart, pop.iStop[s := pop.iStop[s] + |add|])
    ensures 0 <= r.iStart[t] <= r.iStop[t] <= |r.store|
    ensures r.Live(t) == pop.Live(t)
  {
    var lo, hi := pop.iStart[t], pop.iStop[t];
    if t < s {
      StartsOrdered(pop, nDims, t + 1, s);
      assert pop.iStop[s] >= pop.iStart[s];
    } else {
      StartsOrdered(pop, nDims, s + 1, t);
    }
    SpliceOutside(pop.store, pop.iStop[s], add, lo, hi);
  }

  /** Species t >= s can each take n[t] more particles without running into
      the next species' reserved slots. */
  predicate Room(pop: Population, n: seq<int>, s: nat)
    requires |pop.iStart| == |pop.iStop| + 1 && |n| == pop.NSpecies()
  {
    forall t {:trigger n[t]} :: s <= t < |n| ==> pop.iStop[t] + n[t] <= pop.iStart[t + 1]
  }

  /** Slot i is one of the slots species t >= s grows into. */
  predicate InGrownFrom(pop: Population, n: seq<int>, i: int, s: nat)
    requires |n| == |pop.iStop|
  {
    exists t :: s <= t < |n| && pop.iStop[t] <= i < pop.iStop[t] + n[t]
  }

  /** What importing species s.. of buf into pop does. */
  predicate ImportedFrom(pop: Population, buf: seq<Particle>, n: seq<int>, s: nat, nDims: nat, r: Population)
    requires pop.Valid(nDims) && |n| == pop.NSpecies() && s <= |n|
    requires NonNegative(n) && SumFrom(n, s) <= |buf|
  {
    var parts := Chunks(buf, n, s);
    && r.Valid(nDims) && r.iStart == pop.iStart && |r.store| == |pop.store| && |r.iStop| == |pop.iStop|
    && (forall t :: 0 <= t < s ==> r.iStop[t] == pop.iStop[t] && r.Live(t) == pop.Live(t))
    && (forall t :: s <= t < |n| ==> r.iStop[t] == pop.iStop[t] + n[t] && r.Live(t) == pop.Live(t) + parts[t - s])
    && (forall i :: 0 <= i < |pop.store| && !InGrownFrom(pop, n, i, s) ==> r.store[i] == pop.store[i])
  }

  /** Species s.. of importParticles: each species' piece of the buffer is
      written after its last live particle. */
  function ImportFrom(pop: Population, buf: seq<Particle>, n: seq<int>, s: nat, nDims: nat): (r: Population)
    requires pop.Valid(nDims) && |n| == pop.NSpecies() && s <= |n|
    requires NonNegative(n) && SumFrom(n, s) <= |buf| && AllShaped(buf, nDims) && Room(pop, n, s)
    ensures ImportedFrom(pop, buf, n, s, nDims, r)
    decreases |n| - s
  {
    if s == |n| then
      assert forall i :: 0 <= i < |pop.store| ==> pop.store[i] == pop.store[i];
      pop
    else
      var pop1 := Grow(pop, s, buf[..n[s]], nDims);
      assert Room(pop1, n, s + 1) by {
        forall t {:trigger n[t]} | s + 1 <= t < |n| ensures pop1.iStop[t] + n[t] <= pop1.iStart[t + 1] {
          assert pop.iStop[t] + n[t] <= pop.iStart[t + 1];
        }
      }
      var r := ImportFrom(pop1, buf[n[s]..], n, s + 1, nDims);
      ImportStep(pop, buf, n, s, nDims, pop1, r);
      r
  }

  lemma ImportStep(pop: Population, buf: seq<Particle>, n: seq<int>, s: nat, nDims: nat,
                   pop1: Population, r: Population)
    requires pop.Valid(nDims) && |n| == pop.NSpecies() && s < |n|
    requires NonNegative(n) && SumFrom(n, s) <= |buf| && AllShaped(buf, nDims) && Room(pop, n, s)
    requires pop1 == Grow(pop, s, buf[..n[s]], nDims)
    requires ImportedFrom(pop1, buf[n[s]..], n, s + 1, nDims, r)
    ensures ImportedFrom(pop, buf, n, s, nDims, r)
  {
    ImportStepSpecies(pop, buf, n, s, nDims, pop1, r);
    ImportStepStore(pop, n, s, pop1, r);
  }

  lemma ImportStepSpecies(pop: Population, buf: seq<Particle>, n: seq<int>, s: nat, nDims: nat,
                          pop1: Population, r: Population)
    requires pop.Valid(nDims) && |n| == pop.NSpecies() && s < |n|
    requires NonNegative(n) && SumFrom(n, s) <= |buf| && AllShaped(buf, nDims) && Room(pop, n, s)
    requires pop1 == Grow(pop, s, buf[..n[s]], nDims)
    requires ImportedFrom(pop1, buf[n[s]..], n, s + 1, nDims, r)
    ensures forall t :: 0 <= t < s ==> r.iStop[t] == pop.iStop[t] && r.Live(t) == pop.Live(t)
    ensures forall t :: s <= t < |n| ==>
      r.iStop[t] == pop.iStop[t] + n[t] && r.Live(t) == pop.Live(t) + Chunks(buf, n, s)[t - s]
  {
    forall t | s <= t < |n|
      ensures r.iStop[t] == pop.iStop[t] + n[t] && r.Live(t) == pop.Live(t) + Chunks(buf, n, s)[t - s]
    {
      ImportSpeciesAt(pop, buf, n, s, nDims, pop1, r, t);
    }
  }

  lemma ImportSpeciesAt(pop: Population, buf: seq<Particle>, n: seq<int>, s: nat, nDims: nat,
                        pop1: Population, r: Population, t: nat)
    requires pop.Valid(nDims) && pop1.Valid(nDims) && r.Valid(nDims)
    requires |n| == pop.NSpecies() == pop1.NSpecies() == r.NSpecies() && s <= t < |n|
    requires NonNegative(n) && SumFrom(n, s) <= |buf|
    requires pop1.iStop[s] == pop.iStop[s] + n[s] && pop1.Live(s) == pop.Live(s) + buf[..n[s]]
    requires t > s ==> pop1.iStop[t] == pop.iStop[t] && pop1.Live(t) == pop.Live(t)
    requires t == s ==> r.iStop[s] == pop1.iStop[s] && r.Live(s) == pop1.Live(s)
    requires t > s ==>
      && r.iStop[t] == pop1.iStop[t] + n[t]
      && r.Live(t) == pop1.Live(t) + Chunks(buf[n[s]..], n, s + 1)[t - (s + 1)]
    ensures r.iStop[t] == pop.iStop[t] + n[t] && r.Live(t) == pop.Live(t) + Chunks(buf, n, s)[t - s]
  {
    ChunkAt(buf, n, s, t - s);
  }

  /** Piece k of the cut from species s on: the first piece, or a piece of the
      cut of what follows it. */
  lemma ChunkAt(buf: seq<Particle>, n: seq<int>, s: nat, k: nat)
    requires s + k < |n| && NonNegative(n) && SumFrom(n, s) <= |buf|
    ensures Chunks(buf, n, s)[k] == if k == 0 then buf[..n[s]] else Chunks(buf[n[s]..], n, s + 1)[k - 1]
  {
  }

  lemma ImportStepStore(pop: Population, n: seq<int>, s: nat, pop1: Population, r: Population)
    requires |n| == |pop.iStop| && s < |n| && |pop1.iStop| == |pop.iStop| && |r.store| == |pop.store|
    requires |pop1.store| == |pop.store|
    requires pop1.iStop[s] == pop.iStop[s] + n[s]
    requires forall t :: s < t < |n| ==> pop1.iStop[t] == pop.iStop[t]
    requires forall i :: 0 <= i < |pop.store| && !(pop.iStop[s] <= i < pop1.iStop[s]) ==>
      pop1.store[i] == pop.store[i]
    requires forall i :: 0 <= i < |pop1.store| && !InGrownFrom(pop1, n, i, s + 1) ==> r.store[i] == pop1.store[i]
    ensures forall i :: 0 <= i < |pop.store| && !InGrownFrom(pop, n, i, s) ==> r.store[i] == pop.store[i]
  {
    forall i | 0 <= i < |pop.store| && !InGrownFrom(pop, n, i, s)
      ensures r.store[i] == pop.store[i]
    {
      assert !InGrownFrom(pop1, n, i, s + 1);
      assert !(pop.iStop[s] <= i < pop.iStop[s] + n[s]);
    }
  }

  /** importParticles: species after species, the next n[s] particles of the
      message are appended to species s. Nothing outside the slots the
      species grow into changes. The source does not check that a species
      has room to grow; that is required here. */
  function ImportParticles(pop: Population, buf: seq<Particle>, n: seq<int>, nDims: nat): (r: Population)
    requires pop.Valid(nDims) && |n| == pop.NSpecies()
    requires NonNegative(n) && SumFrom(n, 0) <= |buf| && AllShaped(buf, nDims) && Room(pop, n, 0)
    ensures r.Valid(nDims) && r.iStart == pop.iStart && |r.store| == |pop.store| && |r.iStop| == |pop.iStop|
    ensures forall t :: 0 <= t < |n| ==>
      r.iStop[t] == pop.iStop[t] + n[t] && r.Live(t) == pop.Live(t) + Chunks(buf, n, 0)[t]
    ensures forall i :: 0 <= i < |pop.store| && !InGrownFrom(pop, n, i, 0) ==> r.store[i] == pop.store[i]
  {
    ImportFrom(pop, buf, n, 0, nDims)
  }

  /** Importing a message that is pieces laid end to end, with the pieces'
      sizes as counts, appends each piece to its species. */
  lemma ImportPieces(pop: Population, groups: seq<seq<Particle>>, rest: seq<Particle>, nDims: nat)
    requires pop.Valid(nDims) && |groups| == pop.NSpecies()
    requires AllShaped(JoinFrom(groups, 0) + rest, nDims) && Room(pop, Sizes(groups), 0)
    ensures SumFrom(Sizes(groups), 0) <= |JoinFrom(groups, 0) + rest|
    ensures var r := ImportParticles(pop, JoinFrom(groups, 0) + rest, Sizes(groups), nDims);
      forall t :: 0 <= t < |groups| ==> r.Live(t) == pop.Live(t) + groups[t]
  {
    ChunksJoin(groups, 0, rest);
    assert groups[0..] == groups;
  }
}
