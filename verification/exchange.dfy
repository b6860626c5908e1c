/** The migration exchange between neighbouring processes (src/pusher.c:
    exchangeNMigrants, exchangeMigrants, puMigrate).

    The message passing library is not modelled; what each process posts is.
    A process posts one send and one receive per non-centre neighbour. A
    message is matched by the receiver's posted source rank and tag, so the
    tags are what make the exchange deliver each buffer to the right place,
    also when several directions lead to the same process. */
module Exchange {
  import opened Aux
  import opened Topology
  import opened Migration

  /** One posted operation: to or from peer, with a tag and a body (the data
      sent, or the slot a receive fills). The centre direction posts
      nothing. */
  datatype Post<T> = NoPost | Post(peer: int, tag: nat, body: T)

  /** A send posted by the process at rank `from` is taken by a receive
      posted by the process at rank `to`. */
  predicate Matches<S, R>(from: int, send: Post<S>, to: int, recv: Post<R>)
  {
    send.Post? && recv.Post? && send.peer == to && recv.peer == from && send.tag == recv.tag
  }

  // ---------------------------------------------------------------------
  // exchangeNMigrants

  /** The sends of exchangeNMigrants: each neighbour's count row goes to the
      neighbour's rank, tagged with the direction as the neighbour sees it. */
  function CountSends(t: Topology, nEmigrants: seq<seq<int>>): (r: seq<Post<seq<int>>>)
    requires t.Valid() && |nEmigrants| == Pow3(t.NDims())
    ensures |r| == Pow3(t.NDims()) && r[Center(t.NDims())] == NoPost
    ensures forall ne :: 0 <= ne < |r| && ne != Center(t.NDims()) ==>
      && r[ne].Post? && r[ne].body == nEmigrants[ne] && r[ne].peer == NeighborToRank(t, ne)
      && r[ne].tag == Reciprocal(ne, t.NDims())
  {
    seq(Pow3(t.NDims()), ne requires 0 <= ne < Pow3(t.NDims()) =>
      if ne == Center(t.NDims()) then NoPost
      else Post(NeighborToRank(t, ne), Reciprocal(ne, t.NDims()), nEmigrants[ne]))
  }

  /** The receives of exchangeNMigrants: the row of direction ne is taken
      from the neighbour's rank with tag ne and lands in slot ne of
      nImmigrants. */
  function CountRecvs(t: Topology): (r: seq<Post<nat>>)
    requires t.Valid()
    ensures |r| == Pow3(t.NDims()) && r[Center(t.NDims())] == NoPost
    ensures forall ne :: 0 <= ne < |r| && ne != Center(t.NDims()) ==>
      r[ne].Post? && r[ne].body == ne && r[ne].peer == NeighborToRank(t, ne) && r[ne].tag == ne
  {
    seq(Pow3(t.NDims()), ne requires 0 <= ne < Pow3(t.NDims()) =>
      if ne == Center(t.NDims()) then NoPost else Post(NeighborToRank(t, ne), ne, ne))
  }

  /** The process at coordinates NeighborCoords(t, ne). */
  function NeighborAt(t: Topology, ne: nat): (q: Topology)
    requires t.Valid()
    ensures q.Valid() && q.NDims() == t.NDims()
  {
    TagAgreement(t, ne);
    t.At(NeighborCoords(t, ne))
  }

  /** What process t sends towards ne is taken by the neighbour's receive for
      the reciprocal direction, so it lands in the neighbour's slot
      Reciprocal(ne). */
  lemma CountsDelivered(t: Topology, nEmigrants: seq<seq<int>>, ne: nat)
    requires t.Valid() && |nEmigrants| == Pow3(t.NDims())
    requires ne < Pow3(t.NDims()) && ne != Center(t.NDims())
    ensures var q, m := NeighborAt(t, ne), Reciprocal(ne, t.NDims());
      && m != Center(t.NDims())
      && Matches(SelfRank(t), CountSends(t, nEmigrants)[ne], SelfRank(q), CountRecvs(q)[m])
      && CountRecvs(q)[m].body == m
  {
    var n := t.NDims();
    var m := Reciprocal(ne, n);
    TagAgreement(t, ne);
    ReciprocalFixesOnlyCenter(ne, n);
    ReciprocalInvolution(ne, n);
    if m == Center(n) {
      ReciprocalFixesOnlyCenter(m, n);
    }
  }

  /** Every posted receive is fed: the receive for direction m is matched by
      the send of the neighbour in direction m towards Reciprocal(m). */
  lemma CountsReceived(t: Topology, m: nat, rows: seq<seq<int>>)
    requires t.Valid() && |rows| == Pow3(t.NDims())
    requires m < Pow3(t.NDims()) && m != Center(t.NDims())
    ensures var p, ne := NeighborAt(t, m), Reciprocal(m, t.NDims());
      && ne != Center(t.NDims())
      && Matches(SelfRank(p), CountSends(p, rows)[ne], SelfRank(t), CountRecvs(t)[m])
  {
    var n := t.NDims();
    var p, ne := NeighborAt(t, m), Reciprocal(m, n);
    TagAgreement(t, m);
    ReciprocalFixesOnlyCenter(m, n);
    if ne == Center(n) {
      ReciprocalInvolution(m, n);
      ReciprocalFixesOnlyCenter(ne, n);
    }
    ReciprocalInvolution(m, n);
  }

  /** The sends of one process carry pairwise different tags, so even when
      several directions lead to the same process (fewer than three
      subdomains along an axis) the receiver tells them apart. */
  lemma SendTagsDistinct(t: Topology, nEmigrants: seq<seq<int>>, a: nat, b: nat)
    requires t.Valid() && |nEmigrants| == Pow3(t.NDims())
    requires a < Pow3(t.NDims()) && b < Pow3(t.NDims()) && a != b
    requires a != Center(t.NDims()) && b != Center(t.NDims())
    ensures CountSends(t, nEmigrants)[a].tag != CountSends(t, nEmigrants)[b].tag
  {
    ReciprocalInvolution(a, t.NDims());
    ReciprocalInvolution(b, t.NDims());
  }

  // ---------------------------------------------------------------------
  // exchangeMigrants, sending side

  /** The buffers agree with the counts: what exchangeMigrants relies on
      when it derives the message length from the counts. */
  predicate Consistent(x: Extraction, nDims: nat)
  {
    && |x.nEmigrants| == |x.emigrants|
    && forall ne :: 0 <= ne < |x.emigrants| ==>
         AllShaped(x.emigrants[ne], nDims) && |x.emigrants[ne]| == Sum(x.nEmigrants[ne])
  }

  /** The payload sends of exchangeMigrants: buffer ne, flattened, to the
      neighbour's rank with the reciprocal tag. Its length is 2*nDims times
      the count row's sum, which is the length the source passes. */
  function PayloadSends(t: Topology, x: Extraction): (r: seq<Post<seq<real>>>)
    requires t.Valid() && |x.emigrants| == Pow3(t.NDims()) && Consistent(x, t.NDims())
    ensures |r| == Pow3(t.NDims()) && r[Center(t.NDims())] == NoPost
    ensures forall ne :: 0 <= ne < |r| && ne != Center(t.NDims()) ==>
      && r[ne].Post? && r[ne].peer == NeighborToRank(t, ne) && r[ne].tag == Reciprocal(ne, t.NDims())
      && r[ne].body == Flatten(x.emigrants[ne])
      && |r[ne].body| == 2 * t.NDims() * Sum(x.nEmigrants[ne])
  {
    var n := t.NDims();
    forall ne | 0 <= ne < Pow3(n) ensures |Flatten(x.emigrants[ne])| == 2 * n * Sum(x.nEmigrants[ne]) {
      FlattenLength(x.emigrants[ne], n);
    }
    seq(Pow3(n), ne requires 0 <= ne < Pow3(n) =>
      if ne == Center(n) then NoPost
      else Post(NeighborToRank(t, ne), Reciprocal(ne, n), Flatten(x.emigrants[ne])))
  }

  /** Every emigrant carries a particle of the population's shape, so every
      packed buffer does. */
  lemma {:induction false} PackedShaped(log: seq<Emigrant>, ne: nat, nDims: nat)
    requires forall i :: 0 <= i < |log| ==> Shaped(log[i].particle, nDims)
    ensures AllShaped(PackedFor(log, ne), nDims)
  {
    if |log| > 0 {
      PackedShaped(log[1..], ne, nDims);
      PackedForHead(log, ne);
    }
  }

  lemma {:induction false} GroupedShaped(logs: seq<seq<Emigrant>>, ne: nat, s: nat, th: seq<real>, nDims: nat)
    requires Thresholds(th, nDims)
    requires forall t :: 0 <= t < |logs| ==> Departing(logs[t], th, nDims)
    ensures AllShaped(GroupedFrom(logs, ne, s), nDims)
    decreases |logs| - s
  {
    if s < |logs| {
      assert Departing(logs[s], th, nDims);
      PackedShaped(logs[s], ne, nDims);
      GroupedShaped(logs, ne, s + 1, th, nDims);
    }
  }

  /** What puExtractEmigrantsND leaves behind is what exchangeMigrants
      assumes: every buffer is as long as its count row adds up to. */
  lemma ExtractionConsistent(pop: Population, th: seq<real>, nDims: nat)
    requires pop.Valid(nDims) && Thresholds(th, nDims)
    ensures Consistent(ExtractEmigrants(pop, th, nDims), nDims)
  {
    var x := ExtractEmigrants(pop, th, nDims);
    forall ne | 0 <= ne < |x.emigrants|
      ensures AllShaped(x.emigrants[ne], nDims) && |x.emigrants[ne]| == Sum(x.nEmigrants[ne])
    {
      GroupedShaped(x.logs, ne, 0, th, nDims);
      BufferMatchesCounts(pop, th, nDims, ne);
    }
  }

  // ---------------------------------------------------------------------
  // A buffer as pieces per species

  /** The pieces one neighbour's buffer is made of, one per species. */
  function Groups(logs: seq<seq<Emigrant>>, ne: nat): (g: seq<seq<Particle>>)
    ensures |g| == |logs|
    ensures forall t :: 0 <= t < |logs| ==> g[t] == PackedFor(logs[t], ne)
  {
    seq(|logs|, t requires 0 <= t < |logs| => PackedFor(logs[t], ne))
  }

  /** A send buffer is its per-species pieces laid end to end. */
  lemma {:induction false} GroupedIsJoin(logs: seq<seq<Emigrant>>, ne: nat, s: nat)
    ensures GroupedFrom(logs, ne, s) == JoinFrom(Groups(logs, ne), s)
    decreases |logs| - s
  {
    if s < |logs| {
      GroupedIsJoin(logs, ne, s + 1);
    }
  }

  /** The reference Sum peels entries off the back, while the pieces are cut
      front to back; both add up the same counts. */
  lemma {:induction false} SumFromIsSum(n: seq<int>, s: nat)
    requires NonNegative(n) && s <= |n|
    ensures SumFrom(n, s) == Sum(n[s..])
    decreases |n| - s
  {
    if s < |n| {
      SumFromIsSum(n, s + 1);
      SumFront(n[s..]);
      assert n[s..][1..] == n[s + 1..];
    }
  }

  // ---------------------------------------------------------------------
  // exchangeMigrants, receiving side

  /** Particles moved by Offset(ne, ...) in every dimension. */
  function Moved(ps: seq<Particle>, ne: nat, nDims: nat, trueSize: seq<int>): (r: seq<Particle>)
    requires AllShaped(ps, nDims) && nDims < |trueSize|
    ensures |r| == |ps| && AllShaped(r, nDims)
    ensures forall i :: 0 <= i < |ps| ==> r[i].vel == ps[i].vel
    ensures forall i, d :: 0 <= i < |ps| && 0 <= d < nDims ==>
      r[i].pos[d] == ps[i].pos[d] + Offset(ne, nDims, d, trueSize)
  {
    seq(|ps|, i requires 0 <= i < |ps| => ShiftParticle(ps[i], ne, nDims, trueSize))
  }

  /** Moving in the reciprocal direction undoes a move, in exact arithmetic
      (the program's double additions round). */
  lemma MovedBack(ps: seq<Particle>, ne: nat, nDims: nat, trueSize: seq<int>)
    requires AllShaped(ps, nDims) && nDims < |trueSize|
    ensures Moved(Moved(ps, ne, nDims, trueSize), Reciprocal(ne, nDims), nDims, trueSize) == ps
  {
    ShiftReciprocal(ps, ne, nDims, trueSize, |ps|);
    MovedIsShift(ps, ne, nDims, trueSize);
    MovedIsShift(Moved(ps, ne, nDims, trueSize), Reciprocal(ne, nDims), nDims, trueSize);
  }

  /** Shifting a whole receive buffer moves every particle in it. */
  lemma MovedIsShift(ps: seq<Particle>, ne: nat, nDims: nat, trueSize: seq<int>)
    requires AllShaped(ps, nDims) && nDims < |trueSize|
    ensures ShiftImmigrants(ps, ne, nDims, trueSize, |ps|) == Moved(ps, ne, nDims, trueSize)
  {
  }

  /** Moving commutes with taking a slice. */
  lemma MovedSlice(ps: seq<Particle>, ne: nat, nDims: nat, trueSize: seq<int>, lo: nat, hi: nat)
    requires AllShaped(ps, nDims) && nDims < |trueSize| && lo <= hi <= |ps|
    ensures Moved(ps, ne, nDims, trueSize)[lo..hi] == Moved(ps[lo..hi], ne, nDims, trueSize)
  {
    var a, b := Moved(ps, ne, nDims, trueSize)[lo..hi], Moved(ps[lo..hi], ne, nDims, trueSize);
    forall i | 0 <= i < hi - lo ensures a[i] == b[i] {
      assert a[i] == ShiftParticle(ps[lo + i], ne, nDims, trueSize);
    }
  }

  /** Moving commutes with cutting into pieces. */
  lemma {:induction false} ChunksMoved(ps: seq<Particle>, n: seq<int>, s: nat, ne: nat, nDims: nat,
                                       trueSize: seq<int>, k: nat)
    requires AllShaped(ps, nDims) && nDims < |trueSize|
    requires s + k < |n| && NonNegative(n) && SumFrom(n, s) <= |ps|
    ensures AllShaped(Chunks(ps, n, s)[k], nDims)
    ensures Chunks(Moved(ps, ne, nDims, trueSize), n, s)[k] == Moved(Chunks(ps, n, s)[k], ne, nDims, trueSize)
    decreases k, 1
  {
    if k == 0 {
      FirstChunkMoved(ps, n, s, ne, nDims, trueSize);
    } else {
      LaterChunkMoved(ps, n, s, ne, nDims, trueSize, k);
    }
  }

  /** Piece k > 0 is piece k-1 of what follows the first piece. */
  lemma {:induction false} LaterChunkMoved(ps: seq<Particle>, n: seq<int>, s: nat, ne: nat, nDims: nat,
                                           trueSize: seq<int>, k: nat)
    requires AllShaped(ps, nDims) && nDims < |trueSize|
    requires 0 < k && s + k < |n| && NonNegative(n) && SumFrom(n, s) <= |ps|
    ensures AllShaped(Chunks(ps, n, s)[k], nDims)
    ensures Chunks(Moved(ps, ne, nDims, trueSize), n, s)[k] == Moved(Chunks(ps, n, s)[k], ne, nDims, trueSize)
    decreases k, 0
  {
    var mv := Moved(ps, ne, nDims, trueSize);
    var tl, mtl := ps[n[s]..], mv[n[s]..];
    MovedSlice(ps, ne, nDims, trueSize, n[s], |ps|);
    assert mtl == mv[n[s]..|ps|] && tl == ps[n[s]..|ps|];
    ChunksMoved(tl, n, s + 1, ne, nDims, trueSize, k - 1);
    ChunkAt(ps, n, s, k);
    ChunkAt(mv, n, s, k);
  }

  lemma FirstChunkMoved(ps: seq<Particle>, n: seq<int>, s: nat, ne: nat, nDims: nat, trueSize: seq<int>)
    requires AllShaped(ps, nDims) && nDims < |trueSize|
    requires s < |n| && NonNegative(n) && SumFrom(n, s) <= |ps|
    ensures AllShaped(Chunks(ps, n, s)[0], nDims)
    ensures Chunks(Moved(ps, ne, nDims, trueSize), n, s)[0] == Moved(Chunks(ps, n, s)[0], ne, nDims, trueSize)
  {
    var mv := Moved(ps, ne, nDims, trueSize);
    ChunkAt(ps, n, s, 0);
    ChunkAt(mv, n, s, 0);
    MovedSlice(ps, ne, nDims, trueSize, 0, n[s]);
    assert mv[..n[s]] == mv[0..n[s]] && ps[..n[s]] == ps[0..n[s]];
  }

  /** One message as it sits in the receive buffer: its tag, which names
      the direction it came from, and the buffer's contents (the message
      followed by whatever an earlier message left behind). */
  datatype Arrival = Arrival(tag: nat, data: seq<real>)

  /** The counts received for the arrival's direction fit the species and
      the buffer holds the particles they add up to. */
  predicate Readable(a: Arrival, nImmigrants: seq<seq<int>>, nSpecies: nat, nDims: nat)
  {
    && a.tag < |nImmigrants| && |nImmigrants[a.tag]| == nSpecies && NonNegative(nImmigrants[a.tag])
    && 2 * nDims * Sum(nImmigrants[a.tag]) <= |a.data|
  }

  /** The particles of an arrival, as sent. */
  function Incoming(a: Arrival, nImmigrants: seq<seq<int>>, nSpecies: nat, nDims: nat): (ps: seq<Particle>)
    requires Readable(a, nImmigrants, nSpecies, nDims)
    ensures |ps| == Sum(nImmigrants[a.tag]) == SumFrom(nImmigrants[a.tag], 0) && AllShaped(ps, nDims)
  {
    SumFromIsSum(nImmigrants[a.tag], 0);
    assert nImmigrants[a.tag][0..] == nImmigrants[a.tag];
    Unflatten(a.data, nDims, Sum(nImmigrants[a.tag]))
  }

  /** The body of the receive loop of exchangeMigrants: the buffer is shifted
      by the arrival's direction (shiftImmigrants over the received total)
      and imported with the counts received for that direction. Species s
      gains its piece of the message, moved into this process's
      coordinates. */
  function ReceiveOne(pop: Population, a: Arrival, nImmigrants: seq<seq<int>>, nDims: nat, trueSize: seq<int>)
    : (r: Population)
    requires pop.Valid(nDims) && nDims < |trueSize| && Readable(a, nImmigrants, pop.NSpecies(), nDims)
    requires Room(pop, nImmigrants[a.tag], 0)
    ensures r.Valid(nDims) && r.iStart == pop.iStart && |r.store| == |pop.store| && |r.iStop| == |pop.iStop|
    ensures forall s :: 0 <= s < pop.NSpecies() ==>
      && r.iStop[s] == pop.iStop[s] + nImmigrants[a.tag][s]
      && AllShaped(Chunks(Incoming(a, nImmigrants, pop.NSpecies(), nDims), nImmigrants[a.tag], 0)[s], nDims)
      && r.Live(s) == pop.Live(s)
           + Moved(Chunks(Incoming(a, nImmigrants, pop.NSpecies(), nDims), nImmigrants[a.tag], 0)[s],
                   a.tag, nDims, trueSize)
  {
    var row := nImmigrants[a.tag];
    var ps := Incoming(a, nImmigrants, pop.NSpecies(), nDims);
    var total := Sum(row);
    var buf := ShiftImmigrants(ps, a.tag, nDims, trueSize, total);
    MovedIsShift(ps, a.tag, nDims, trueSize);
    forall s | 0 <= s < pop.NSpecies()
      ensures AllShaped(Chunks(ps, row, 0)[s], nDims)
      ensures Chunks(buf, row, 0)[s] == Moved(Chunks(ps, row, 0)[s], a.tag, nDims, trueSize)
    {
      ChunksMoved(ps, row, 0, a.tag, nDims, trueSize, s);
    }
    ImportParticles(pop, buf, row, nDims)
  }

  /** End to end for one direction: the buffer process P packs for ne, sent
      with the reciprocal tag m, together with the count row that the count
      exchange put into the neighbour's slot m, makes each of the
      neighbour's species gain exactly what P packed of that species for
      ne, moved by Offset(m), the opposite of Offset(ne). */
  lemma Delivery(pop: Population, th: seq<real>, nDims: nat, ne: nat, q: Population,
                 nImmigrants: seq<seq<int>>, stale: seq<real>, trueSize: seq<int>)
    requires pop.Valid(nDims) && Thresholds(th, nDims) && ne < Pow3(nDims)
    requires q.Valid(nDims) && q.NSpecies() == pop.NSpecies() && nDims < |trueSize|
    requires Reciprocal(ne, nDims) < |nImmigrants|
    requires nImmigrants[Reciprocal(ne, nDims)] == ExtractEmigrants(pop, th, nDims).nEmigrants[ne]
    requires Room(q, nImmigrants[Reciprocal(ne, nDims)], 0)
    ensures var x := ExtractEmigrants(pop, th, nDims);
      var a := Arrival(Reciprocal(ne, nDims), Flatten(x.emigrants[ne]) + stale);
      && Readable(a, nImmigrants, q.NSpecies(), nDims)
      && forall s :: 0 <= s < q.NSpecies() ==>
           && AllShaped(PackedFor(x.logs[s], ne), nDims)
           && ReceiveOne(q, a, nImmigrants, nDims, trueSize).Live(s)
                == q.Live(s) + Moved(PackedFor(x.logs[s], ne), Reciprocal(ne, nDims), nDims, trueSize)
  {
    var x := ExtractEmigrants(pop, th, nDims);
    var m := Reciprocal(ne, nDims);
    DeliveryFacts(pop, th, nDims, ne);
    DeliveryOf(x, ne, q, m, nImmigrants, stale, nDims, trueSize);
  }

  lemma DeliveryOf(x: Extraction, ne: nat, q: Population, m: nat, nImmigrants: seq<seq<int>>,
                   stale: seq<real>, nDims: nat, trueSize: seq<int>)
    requires q.Valid(nDims) && |x.logs| == q.NSpecies() && nDims < |trueSize| && ne < |x.emigrants|
    requires x.emigrants[ne] == JoinFrom(Groups(x.logs, ne), 0) && AllShaped(x.emigrants[ne], nDims)
    requires forall s :: 0 <= s < |x.logs| ==> AllShaped(PackedFor(x.logs[s], ne), nDims)
    requires m < |nImmigrants| && nImmigrants[m] == Sizes(Groups(x.logs, ne)) && Room(q, nImmigrants[m], 0)
    ensures var a := Arrival(m, Flatten(x.emigrants[ne]) + stale);
      && Readable(a, nImmigrants, q.NSpecies(), nDims)
      && forall s :: 0 <= s < q.NSpecies() ==>
           ReceiveOne(q, a, nImmigrants, nDims, trueSize).Live(s)
             == q.Live(s) + Moved(PackedFor(x.logs[s], ne), m, nDims, trueSize)
  {
    var g := Groups(x.logs, ne);
    ReceivePieces(q, g, m, nImmigrants, stale, nDims, trueSize);
  }

  /** The extraction's side of Delivery: buffer ne is the per-species pieces
      laid end to end, and its count row holds the pieces' sizes. */
  lemma DeliveryFacts(pop: Population, th: seq<real>, nDims: nat, ne: nat)
    requires pop.Valid(nDims) && Thresholds(th, nDims) && ne < Pow3(nDims)
    ensures var x := ExtractEmigrants(pop, th, nDims);
      && |x.logs| == pop.NSpecies()
      && x.emigrants[ne] == JoinFrom(Groups(x.logs, ne), 0)
      && Sizes(Groups(x.logs, ne)) == x.nEmigrants[ne]
      && AllShaped(x.emigrants[ne], nDims)
      && forall s :: 0 <= s < |x.logs| ==> AllShaped(PackedFor(x.logs[s], ne), nDims)
  {
    var x := ExtractEmigrants(pop, th, nDims);
    DeliveryFactsOf(x, pop.NSpecies(), th, nDims, ne);
  }

  lemma DeliveryFactsOf(x: Extraction, nS: nat, th: seq<real>, nDims: nat, ne: nat)
    requires Thresholds(th, nDims) && ne < |x.emigrants| && ne < |x.nEmigrants|
    requires |x.logs| == nS && forall s :: 0 <= s < nS ==> Departing(x.logs[s], th, nDims)
    requires x.emigrants[ne] == GroupedFrom(x.logs, ne, 0)
    requires |x.nEmigrants[ne]| == nS
    requires forall s :: 0 <= s < nS ==> x.nEmigrants[ne][s] == |PackedFor(x.logs[s], ne)|
    ensures x.emigrants[ne] == JoinFrom(Groups(x.logs, ne), 0)
    ensures Sizes(Groups(x.logs, ne)) == x.nEmigrants[ne]
    ensures AllShaped(x.emigrants[ne], nDims)
    ensures forall s :: 0 <= s < nS ==> AllShaped(PackedFor(x.logs[s], ne), nDims)
  {
    GroupedIsJoin(x.logs, ne, 0);
    GroupedShaped(x.logs, ne, 0, th, nDims);
    forall s | 0 <= s < nS
      ensures AllShaped(PackedFor(x.logs[s], ne), nDims)
    {
      PackedShaped(x.logs[s], ne, nDims);
    }
  }

  /** The receiver's side of Delivery: a message that is pieces laid end to
      end, read with the pieces' sizes as counts, appends each piece, moved,
      to its species. */
  lemma ReceivePieces(q: Population, g: seq<seq<Particle>>, m: nat, nImmigrants: seq<seq<int>>,
                      stale: seq<real>, nDims: nat, trueSize: seq<int>)
    requires q.Valid(nDims) && |g| == q.NSpecies() && nDims < |trueSize|
    requires forall s :: 0 <= s < |g| ==> AllShaped(g[s], nDims)
    requires AllShaped(JoinFrom(g, 0), nDims)
    requires m < |nImmigrants| && nImmigrants[m] == Sizes(g) && Room(q, nImmigrants[m], 0)
    ensures var a := Arrival(m, Flatten(JoinFrom(g, 0)) + stale);
      && Readable(a, nImmigrants, q.NSpecies(), nDims)
      && forall s :: 0 <= s < q.NSpecies() ==>
           ReceiveOne(q, a, nImmigrants, nDims, trueSize).Live(s) == q.Live(s) + Moved(g[s], m, nDims, trueSize)
  {
    var buf := JoinFrom(g, 0);
    var a := Arrival(m, Flatten(buf) + stale);
    ChunksJoin(g, 0, []);
    SumFromIsSum(Sizes(g), 0);
    assert Sizes(g)[0..] == Sizes(g);
    UnflattenFlatten(buf, stale, nDims);
    assert Readable(a, nImmigrants, q.NSpecies(), nDims);
    assert Incoming(a, nImmigrants, q.NSpecies(), nDims) == buf;
    assert buf + [] == buf;
    assert Chunks(buf, Sizes(g), 0) == g by {
      assert g[0..] == g;
    }
  }

  /** Every arrival can be read with the counts for its direction. */
  predicate AllReadable(arrivals: seq<Arrival>, nImmigrants: seq<seq<int>>, nSpecies: nat, nDims: nat)
  {
    forall j :: 0 <= j < |arrivals| ==> Readable(arrivals[j], nImmigrants, nSpecies, nDims)
  }

  /** Particles of species s announced by arrivals k.. */
  function Expected(arrivals: seq<Arrival>, nImmigrants: seq<seq<int>>, nSpecies: nat, nDims: nat,
                    k: nat, s: nat): (n: int)
    requires AllReadable(arrivals, nImmigrants, nSpecies, nDims) && s < nSpecies
    ensures n >= 0
    decreases |arrivals| - k
  {
    if k >= |arrivals| then 0
    else
      assert Readable(arrivals[k], nImmigrants, nSpecies, nDims);
      nImmigrants[arrivals[k].tag][s] + Expected(arrivals, nImmigrants, nSpecies, nDims, k + 1, s)
  }

  /** Every species can take what arrivals k.. bring it. */
  predicate RoomForAll(pop: Population, arrivals: seq<Arrival>, nImmigrants: seq<seq<int>>, nDims: nat, k: nat)
    requires pop.Valid(nDims) && AllReadable(arrivals, nImmigrants, pop.NSpecies(), nDims)
  {
    forall s {:trigger pop.iStop[s]} :: 0 <= s < pop.NSpecies() ==>
      pop.iStop[s] + Expected(arrivals, nImmigrants, pop.NSpecies(), nDims, k, s) <= pop.iStart[s + 1]
  }

  /** What one arrival adds to species s: its piece of the message, moved
      into this process's coordinates. */
  function ArrivedPiece(a: Arrival, nImmigrants: seq<seq<int>>, nSpecies: nat, nDims: nat,
                        trueSize: seq<int>, s: nat): seq<Particle>
    requires Readable(a, nImmigrants, nSpecies, nDims) && s < nSpecies && nDims < |trueSize|
  {
    var ps := Incoming(a, nImmigrants, nSpecies, nDims);
    ChunksMoved(ps, nImmigrants[a.tag], 0, a.tag, nDims, trueSize, s);
    Moved(Chunks(ps, nImmigrants[a.tag], 0)[s], a.tag, nDims, trueSize)
  }

  lemma ArrivedHead(arrivals: seq<Arrival>, nImmigrants: seq<seq<int>>, nSpecies: nat, nDims: nat,
                    trueSize: seq<int>, k: nat, s: nat)
    requires AllReadable(arrivals, nImmigrants, nSpecies, nDims) && s < nSpecies && nDims < |trueSize|
    requires k < |arrivals|
    ensures Readable(arrivals[k], nImmigrants, nSpecies, nDims)
    ensures Arrived(arrivals, nImmigrants, nSpecies, nDims, trueSize, k, s)
         == ArrivedPiece(arrivals[k], nImmigrants, nSpecies, nDims, trueSize, s)
            + Arrived(arrivals, nImmigrants, nSpecies, nDims, trueSize, k + 1, s)
  {
  }

  /** What arrivals k.. add to species s, in the order they are processed. */
  function Arrived(arrivals: seq<Arrival>, nImmigrants: seq<seq<int>>, nSpecies: nat, nDims: nat,
                   trueSize: seq<int>, k: nat, s: nat): seq<Particle>
    requires AllReadable(arrivals, nImmigrants, nSpecies, nDims) && s < nSpecies && nDims < |trueSize|
    decreases |arrivals| - k
  {
    if k >= |arrivals| then []
    else
      assert Readable(arrivals[k], nImmigrants, nSpecies, nDims);
      ArrivedPiece(arrivals[k], nImmigrants, nSpecies, nDims, trueSize, s)
        + Arrived(arrivals, nImmigrants, nSpecies, nDims, trueSize, k + 1, s)
  }

  /** Each species of r holds the live particles it has in pop followed by
      what arrivals k.. brought it, and its live range grew by the counts
      those arrivals announced. */
  predicate ReceivedFrom(pop: Population, r: Population, arrivals: seq<Arrival>, nImmigrants: seq<seq<int>>,
                         nDims: nat, trueSize: seq<int>, k: nat)
    requires pop.Valid(nDims) && nDims < |trueSize| && AllReadable(arrivals, nImmigrants, pop.NSpecies(), nDims)
    requires r.Valid(nDims) && |r.iStop| == |pop.iStop|
  {
    forall s :: 0 <= s < pop.NSpecies() ==>
      && r.iStop[s] == pop.iStop[s] + Expected(arrivals, nImmigrants, pop.NSpecies(), nDims, k, s)
      && r.Live(s) == pop.Live(s) + Arrived(arrivals, nImmigrants, pop.NSpecies(), nDims, trueSize, k, s)
  }

  /** The receive loop of exchangeMigrants from arrival k on, the arrivals
      in the order the library delivers them. Each species ends with its
      old particles followed by what every arrival brought it. */
  function ReceiveFrom(pop: Population, arrivals: seq<Arrival>, nImmigrants: seq<seq<int>>, nDims: nat,
                       trueSize: seq<int>, k: nat): (r: Population)
    requires pop.Valid(nDims) && nDims < |trueSize| && AllReadable(arrivals, nImmigrants, pop.NSpecies(), nDims)
    requires RoomForAll(pop, arrivals, nImmigrants, nDims, k)
    ensures r.Valid(nDims) && r.iStart == pop.iStart && |r.store| == |pop.store| && |r.iStop| == |pop.iStop|
    ensures ReceivedFrom(pop, r, arrivals, nImmigrants, nDims, trueSize, k)
    decreases |arrivals| - k
  {
    if k >= |arrivals| then
      pop
    else
      ReceiveRoom(pop, arrivals, nImmigrants, nDims, k);
      var pop1 := ReceiveOne(pop, arrivals[k], nImmigrants, nDims, trueSize);
      ReceiveRoomAfter(pop, pop1, arrivals, nImmigrants, nDims, k);
      var r := ReceiveFrom(pop1, arrivals, nImmigrants, nDims, trueSize, k + 1);
      ReceiveStep(pop, pop1, r, arrivals, nImmigrants, nDims, trueSize, k);
      r
  }

  /** ReceiveOne's effect on each species, with the arrival's piece named. */
  lemma ReceiveOneFacts(pop: Population, a: Arrival, nImmigrants: seq<seq<int>>, nDims: nat, trueSize: seq<int>)
    requires pop.Valid(nDims) && nDims < |trueSize| && Readable(a, nImmigrants, pop.NSpecies(), nDims)
    requires Room(pop, nImmigrants[a.tag], 0)
    ensures var r := ReceiveOne(pop, a, nImmigrants, nDims, trueSize);
      forall s :: 0 <= s < pop.NSpecies() ==>
        && r.iStop[s] == pop.iStop[s] + nImmigrants[a.tag][s]
        && r.Live(s) == pop.Live(s) + ArrivedPiece(a, nImmigrants, pop.NSpecies(), nDims, trueSize, s)
  {
  }

  lemma ReceiveRoom(pop: Population, arrivals: seq<Arrival>, nImmigrants: seq<seq<int>>, nDims: nat, k: nat)
    requires pop.Valid(nDims) && AllReadable(arrivals, nImmigrants, pop.NSpecies(), nDims) && k < |arrivals|
    requires RoomForAll(pop, arrivals, nImmigrants, nDims, k)
    ensures Readable(arrivals[k], nImmigrants, pop.NSpecies(), nDims)
    ensures Room(pop, nImmigrants[arrivals[k].tag], 0)
  {
    var row := nImmigrants[arrivals[k].tag];
    assert Readable(arrivals[k], nImmigrants, pop.NSpecies(), nDims);
    forall t {:trigger row[t]} | 0 <= t < |row| ensures pop.iStop[t] + row[t] <= pop.iStart[t + 1] {
      assert pop.iStop[t] + Expected(arrivals, nImmigrants, pop.NSpecies(), nDims, k, t) <= pop.iStart[t + 1];
    }
  }

  lemma ReceiveRoomAfter(pop: Population, pop1: Population, arrivals: seq<Arrival>, nImmigrants: seq<seq<int>>,
                         nDims: nat, k: nat)
    requires pop.Valid(nDims) && AllReadable(arrivals, nImmigrants, pop.NSpecies(), nDims) && k < |arrivals|
    requires RoomForAll(pop, arrivals, nImmigrants, nDims, k)
    requires Readable(arrivals[k], nImmigrants, pop.NSpecies(), nDims)
    requires pop1.Valid(nDims) && pop1.iStart == pop.iStart && |pop1.iStop| == |pop.iStop|
    requires forall s :: 0 <= s < pop.NSpecies() ==> pop1.iStop[s] == pop.iStop[s] + nImmigrants[arrivals[k].tag][s]
    ensures RoomForAll(pop1, arrivals, nImmigrants, nDims, k + 1)
  {
    forall s {:trigger pop1.iStop[s]} | 0 <= s < pop1.NSpecies()
      ensures pop1.iStop[s] + Expected(arrivals, nImmigrants, pop1.NSpecies(), nDims, k + 1, s) <= pop1.iStart[s + 1]
    {
      assert pop.iStop[s] + Expected(arrivals, nImmigrants, pop.NSpecies(), nDims, k, s) <= pop.iStart[s + 1];
    }
  }

  lemma ReceiveStep(pop: Population, pop1: Population, r: Population, arrivals: seq<Arrival>,
                    nImmigrants: seq<seq<int>>, nDims: nat, trueSize: seq<int>, k: nat)
    requires pop.Valid(nDims) && nDims < |trueSize| && AllReadable(arrivals, nImmigrants, pop.NSpecies(), nDims)
    requires k < |arrivals| && Readable(arrivals[k], nImmigrants, pop.NSpecies(), nDims)
    requires Room(pop, nImmigrants[arrivals[k].tag], 0)
    requires pop1 == ReceiveOne(pop, arrivals[k], nImmigrants, nDims, trueSize)
    requires r.Valid(nDims) && |r.iStop| == |pop1.iStop|
    requires ReceivedFrom(pop1, r, arrivals, nImmigrants, nDims, trueSize, k + 1)
    ensures ReceivedFrom(pop, r, arrivals, nImmigrants, nDims, trueSize, k)
  {
    ReceiveOneFacts(pop, arrivals[k], nImmigrants, nDims, trueSize);
    forall s | 0 <= s < pop.NSpecies()
      ensures r.iStop[s] == pop.iStop[s] + Expected(arrivals, nImmigrants, pop.NSpecies(), nDims, k, s)
      ensures r.Live(s) == pop.Live(s) + Arrived(arrivals, nImmigrants, pop.NSpecies(), nDims, trueSize, k, s)
    {
      ArrivedHead(arrivals, nImmigrants, pop.NSpecies(), nDims, trueSize, k, s);
      var piece := ArrivedPiece(arrivals[k], nImmigrants, pop.NSpecies(), nDims, trueSize, s);
      var rest := Arrived(arrivals, nImmigrants, pop.NSpecies(), nDims, trueSize, k + 1, s);
      var whole := Arrived(arrivals, nImmigrants, pop.NSpecies(), nDims, trueSize, k, s);
      var p0, p1, pr := pop.Live(s), pop1.Live(s), r.Live(s);
      AppendStep(p0, p1, pr, piece, rest, whole);
    }
  }

  /** Appending one arrival's piece and then the rest is appending both. */
  lemma AppendStep(p0: seq<Particle>, p1: seq<Particle>, pr: seq<Particle>,
                   piece: seq<Particle>, rest: seq<Particle>, whole: seq<Particle>)
    requires p1 == p0 + piece && pr == p1 + rest && whole == piece + rest
    ensures pr == p0 + whole
  {
  }

  /** exchangeMigrants, receiving side: nNeighbors-1 messages, one per
      non-centre direction, in whatever order they arrive. */
  function ReceiveAll(pop: Population, arrivals: seq<Arrival>, nImmigrants: seq<seq<int>>, nDims: nat,
                      trueSize: seq<int>): (r: Population)
    requires pop.Valid(nDims) && nDims < |trueSize| && |arrivals| == Pow3(nDims) - 1
    requires AllReadable(arrivals, nImmigrants, pop.NSpecies(), nDims)
    requires RoomForAll(pop, arrivals, nImmigrants, nDims, 0)
    ensures r.Valid(nDims) && r.iStart == pop.iStart && |r.store| == |pop.store| && |r.iStop| == |pop.iStop|
    ensures forall s :: 0 <= s < pop.NSpecies() ==>
      && r.iStop[s] == pop.iStop[s] + Expected(arrivals, nImmigrants, pop.NSpecies(), nDims, 0, s)
      && r.Live(s) == pop.Live(s) + Arrived(arrivals, nImmigrants, pop.NSpecies(), nDims, trueSize, 0, s)
  {
    ReceiveFrom(pop, arrivals, nImmigrants, nDims, trueSize, 0)
  }
}
