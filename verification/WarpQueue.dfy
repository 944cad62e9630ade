/**
 Queue loads and queue moves as a warp issues them: a load reserves an entry,
 stores its active lanes and then learns how many responses to wait for; a move
 reads the head and takes it out.  The k-th move gets the k-th load's data.
 */
module WarpQueue {
  import opened AsyncFifo
  import opened RingQueue

  const MOV_VALUES := 4

  // what a load leaves in an entry: its data in the active lanes, zero elsewhere
  ghost function Masked(mask: set<nat>, data: seq<seq<Word>>, words: nat): (z: seq<seq<Word>>)
    ensures |z| == |data|
  {
    seq(|data|, l requires 0 <= l < |data| => if l in mask then data[l] else seq(words, w requires w >= 0 => 0))
  }

  predicate DataFits(f: Fifo, data: seq<seq<Word>>) {
    |data| == f.warpSize && forall l :: 0 <= l < |data| ==> |data[l]| == f.words
  }

  ghost function Loaded(f: Fifo, mask: set<nat>, data: seq<seq<Word>>, accesses: nat): Fifo {
    f.(next := f.next + 1, records := f.records + [Record(f.next, accesses, mask, Masked(mask, data, f.words))])
  }

  // one lane of one entry replaced
  ghost function WithLaneOf(f: Fifo, s: nat, l: nat, values: seq<Word>): Fifo
    requires Holds(f, s) && l < |f.records[Index(f, s)].lanes|
  {
    var i := Index(f, s);
    f.(records := f.records[i := f.records[i].(lanes := f.records[i].lanes[l := values])])
  }

  // lane l once the first `word` values are stored
  ghost function StoredSoFar(f: Fifo, s: nat, l: nat, values: seq<Word>, word: nat): Fifo
    requires WellFormed(f) && Holds(f, s) && l < f.warpSize && |values| == f.words && word <= f.words
  {
    WithLaneOf(f, s, l, values[..word] + f.records[Index(f, s)].lanes[l][word..])
  }

  lemma {:induction false} StoreStarts(f: Fifo, s: nat, l: nat, values: seq<Word>)
    requires WellFormed(f) && Holds(f, s) && l < f.warpSize && |values| == f.words
    ensures StoredSoFar(f, s, l, values, 0) == f
    ensures StoredSoFar(f, s, l, values, |values|) == WithLaneOf(f, s, l, values)
  {
    var i := Index(f, s);
    var r := f.records[i];
    assert values[..0] + r.lanes[l][0..] == r.lanes[l];
    assert values[..|values|] + r.lanes[l][|values|..] == values;
    assert r.lanes[l := r.lanes[l]] == r.lanes;
    assert f.records[i := r] == f.records;
  }

  lemma {:induction false} StoreNext(f: Fifo, s: nat, l: nat, values: seq<Word>, word: nat)
    requires WellFormed(f) && Holds(f, s) && l < f.warpSize && |values| == f.words && word < f.words
    ensures var g := StoredSoFar(f, s, l, values, word);
            && WellFormed(g) && Legal(g, Store(s, l, word, values[word]))
            && Step(g, Store(s, l, word, values[word])) == StoredSoFar(f, s, l, values, word + 1)
  {
    var i := Index(f, s);
    var before := f.records[i].lanes[l];
    assert (values[..word] + before[word..])[word := values[word]] == values[..word + 1] + before[word + 1..];
    var mid := values[..word] + before[word..];
    var next := values[..word + 1] + before[word + 1..];
    var lanes := f.records[i].lanes;
    assert lanes[l := mid][l := next] == lanes[l := next];
    var g := StoredSoFar(f, s, l, values, word);
    var h := Step(g, Store(s, l, word, values[word]));
    assert h.records[i] == f.records[i].(lanes := lanes[l := next]);
    assert h.records == f.records[i := f.records[i].(lanes := lanes[l := next])];
  }

  /** wasp_rfq_ld_exec and smemq_ld_exec for one lane: word by word. */
  method LdExec(q: AsyncQueue, t: Token, lane: nat, values: seq<Word>)
    requires q.Valid() && q.Configured() && q.Accepts(t) && q.Live(t)
    requires lane < q.warpSize && |values| == q.words
    modifies q.storage
    ensures q.Valid() && q.Accepts(t)
    ensures Holds(old(q.Abs()), t.sequence) && lane < |old(q.Abs()).records[Index(old(q.Abs()), t.sequence)].lanes|
    ensures q.Abs() == WithLaneOf(old(q.Abs()), t.sequence, lane, values)
  {
    ghost var f := q.Abs();
    StoreStarts(f, t.sequence, lane, values);
    q.LiveWords(t);
    for word := 0 to |values|
      invariant q.Valid() && q.Accepts(t) && q.storage[t.slot].words == q.words
      invariant q.Abs() == StoredSoFar(f, t.sequence, lane, values, word)
    {
      StoreNext(f, t.sequence, lane, values, word);
      q.SetLaneValue(t, lane, word, values[word]);
    }
  }

  // the entry of a load whose lanes before l have been executed
  ghost function PartlyLoaded(f: Fifo, mask: set<nat>, data: seq<seq<Word>>, l: nat): Fifo
    requires l <= |data|
  {
    var z := Masked(mask, data, f.words);
    var zeros := Masked({}, data, f.words);
    f.(next := f.next + 1, records := f.records + [Record(f.next, 0, mask, z[..l] + zeros[l..])])
  }

  lemma {:induction false} ReservedIsPartlyLoaded(f: Fifo, mask: set<nat>, data: seq<seq<Word>>)
    requires WellFormed(f) && Legal(f, Reserve(mask, 0)) && DataFits(f, data)
    ensures Step(f, Reserve(mask, 0)) == PartlyLoaded(f, mask, data, 0)
  {
    var zeros := Masked({}, data, f.words);
    assert Zeros(f.words, f.warpSize) == Masked(mask, data, f.words)[..0] + zeros[0..];
  }

  lemma {:induction false} NextLane(f: Fifo, mask: set<nat>, data: seq<seq<Word>>, l: nat)
    requires WellFormed(f) && |f.records| < f.capacity && DataFits(f, data) && l < |data|
    ensures var g := PartlyLoaded(f, mask, data, l);
            Holds(g, f.next) && l < |g.records[Index(g, f.next)].lanes|
    ensures l in mask ==>
              WithLaneOf(PartlyLoaded(f, mask, data, l), f.next, l, data[l]) == PartlyLoaded(f, mask, data, l + 1)
    ensures l !in mask ==> PartlyLoaded(f, mask, data, l) == PartlyLoaded(f, mask, data, l + 1)
  {
    var z := Masked(mask, data, f.words);
    var zeros := Masked({}, data, f.words);
    assert z[..l + 1] + zeros[l + 1..] == (z[..l] + zeros[l..])[l := z[l]];
    if l !in mask {
      assert z[l] == zeros[l];
      assert z[..l + 1] + zeros[l + 1..] == z[..l] + zeros[l..];
    }
  }

  lemma {:induction false} FullyLoaded(f: Fifo, mask: set<nat>, data: seq<seq<Word>>, accesses: nat)
    requires WellFormed(f) && |f.records| < f.capacity && DataFits(f, data)
    ensures var g := PartlyLoaded(f, mask, data, |data|);
            && WellFormed(g) && Legal(g, SetPending(f.next, accesses))
            && Step(g, SetPending(f.next, accesses)) == Loaded(f, mask, data, accesses)
  {
    var z := Masked(mask, data, f.words);
    var zeros := Masked({}, data, f.words);
    assert z[..|data|] + zeros[|data|..] == z;
  }

  /** A queue load as issued: reserve, store the active lanes, set the number of
      responses to wait for. */
  method IssueLoad(q: AsyncQueue, key: Key, mask: set<nat>, data: seq<seq<Word>>, accesses: nat)
    returns (t: Token)
    requires q.Valid() && q.Configured() && !q.Full() && DataFits(q.Abs(), data)
    modifies q, q.storage
    ensures q.Valid() && q.Configured() && q.storage == old(q.storage)
    ensures q.Abs() == Loaded(old(q.Abs()), mask, data, accesses)
    ensures t == Token(key, SlotOf(old(q.nextSequence), q.entries), old(q.nextSequence), q.words, true)
    ensures q.Accepts(t) && q.Live(t)
  {
    ghost var f := q.Abs();
    t := ReserveAndLoad(q, key, mask, data);
    FullyLoaded(f, mask, data, accesses);
    q.SetPendingResponses(t, accesses);
  }

  // all of it but the number of responses
  method ReserveAndLoad(q: AsyncQueue, key: Key, mask: set<nat>, data: seq<seq<Word>>) returns (t: Token)
    requires q.Valid() && q.Configured() && !q.Full() && DataFits(q.Abs(), data)
    modifies q, q.storage
    ensures q.Valid() && q.Configured() && q.storage == old(q.storage)
    ensures q.Abs() == PartlyLoaded(old(q.Abs()), mask, data, |data|)
    ensures t == Token(key, SlotOf(old(q.nextSequence), q.entries), old(q.nextSequence), q.words, true)
    ensures q.Accepts(t) && q.Live(t)
  {
    ghost var f := q.Abs();
    t := q.ReserveTail(key, mask, 0);
    ReservedIsPartlyLoaded(f, mask, data);
    LoadLanes(q, t, mask, data, f);
  }

  // the load's functional execution: every active lane in turn
  method LoadLanes(q: AsyncQueue, t: Token, mask: set<nat>, data: seq<seq<Word>>, ghost f: Fifo)
    requires q.Valid() && q.Configured() && q.Accepts(t) && q.Live(t) && t.sequence == f.next
    requires WellFormed(f) && |f.records| < f.capacity && DataFits(f, data)
    requires q.Abs() == PartlyLoaded(f, mask, data, 0)
    modifies q.storage
    ensures q.Valid() && q.Accepts(t)
    ensures q.Abs() == PartlyLoaded(f, mask, data, |data|)
  {
    for lane := 0 to q.warpSize
      invariant q.Valid() && q.Accepts(t)
      invariant q.Abs() == PartlyLoaded(f, mask, data, lane)
    {
      NextLane(f, mask, data, lane);
      if lane in mask {
        LdExec(q, t, lane, data[lane]);
      }
    }
  }

  /** wasp_rfq_mov_exec and smemq_mov_exec for one lane: four values, those
      beyond the payload zero. */
  method MovExec(q: AsyncQueue, lane: nat) returns (values: seq<Word>)
    requires q.Valid() && q.Configured() && HeadReady(q.Abs())
    requires lane < q.warpSize && q.words <= MOV_VALUES
    ensures |values| == MOV_VALUES
    ensures forall w :: 0 <= w < MOV_VALUES ==>
              values[w] == if w < q.words then q.Abs().records[0].lanes[lane][w] else 0
  {
    values := [0, 0, 0, 0];
    for word := 0 to q.words
      invariant |values| == MOV_VALUES
      invariant forall w :: 0 <= w < MOV_VALUES ==>
                  values[w] == if w < word then q.Abs().records[0].lanes[lane][w] else 0
    {
      var v := q.HeadLaneValue(lane, word);
      values := values[word := v];
    }
  }

  /** A queue move as issued: read every active lane of the head, then take it
      out. */
  method IssueMove(q: AsyncQueue, mask: set<nat>) returns (values: map<nat, seq<Word>>)
    requires q.Valid() && q.Configured() && HeadReady(q.Abs()) && q.words <= MOV_VALUES
    modifies q, q.storage
    ensures q.Valid() && q.Configured() && q.storage == old(q.storage)
    ensures q.Abs() == Step(old(q.Abs()), Consume)
    ensures forall l: nat :: l in values <==> l in mask && l < old(q.warpSize)
    ensures forall l: nat :: l in values ==> |values[l]| == MOV_VALUES
    ensures forall l: nat, w: nat :: l in values && w < MOV_VALUES ==>
              values[l][w] == if w < old(q.words) then old(q.Abs()).records[0].lanes[l][w] else 0
  {
    values := map[];
    for lane := 0 to q.warpSize
      invariant forall l: nat :: l in values <==> l in mask && l < lane
      invariant forall l: nat :: l in values ==> |values[l]| == MOV_VALUES
      invariant forall l: nat, w: nat :: l in values && w < MOV_VALUES ==>
                  values[l][w] == if w < q.words then q.Abs().records[0].lanes[l][w] else 0
      modifies {}
    {
      if lane in mask {
        var v := MovExec(q, lane);
        values := values[lane := v];
      }
    }
    q.ConsumeHead();
  }

  // ----- runs of loads, responses and moves -----

  datatype WarpOp =
    | Load(mask: set<nat>, data: seq<seq<Word>>, accesses: nat)
    | Response(sequence: nat)
    | Move(active: set<nat>)

  predicate WLegal(f: Fifo, op: WarpOp) {
    match op
    case Load(_, data, _) => |f.records| < f.capacity && DataFits(f, data)
    case Response(s) => Legal(f, Respond(s))
    case Move(_) => HeadReady(f)
  }

  ghost function WStep(f: Fifo, op: WarpOp): (g: Fifo)
    requires WellFormed(f) && WLegal(f, op)
    ensures WellFormed(g) && g.words == f.words && g.warpSize == f.warpSize && g.capacity == f.capacity
  {
    match op
    case Load(mask, data, accesses) => Loaded(f, mask, data, accesses)
    case Response(s) => Step(f, Respond(s))
    case Move(_) => Step(f, Consume)
  }

  ghost predicate WLegalRun(f: Fifo, ops: seq<WarpOp>)
    requires WellFormed(f)
    decreases |ops|, 0
  {
    ops == [] || (WLegalRun(f, ops[..|ops| - 1]) && WLegal(WRun(f, ops[..|ops| - 1]), ops[|ops| - 1]))
  }

  ghost function WRun(f: Fifo, ops: seq<WarpOp>): (g: Fifo)
    requires WellFormed(f) && WLegalRun(f, ops)
    ensures WellFormed(g) && g.words == f.words && g.warpSize == f.warpSize && g.capacity == f.capacity
    decreases |ops|, 1
  {
    if ops == [] then f else WStep(WRun(f, ops[..|ops| - 1]), ops[|ops| - 1])
  }

  // the loads of a run, in order
  function Loads(ops: seq<WarpOp>): (s: seq<WarpOp>)
    ensures forall i :: 0 <= i < |s| ==> s[i].Load?
  {
    if ops == [] then []
    else if ops[|ops| - 1].Load? then Loads(ops[..|ops| - 1]) + [ops[|ops| - 1]]
    else Loads(ops[..|ops| - 1])
  }

  // the active lanes of its moves, in order
  function Actives(ops: seq<WarpOp>): (s: seq<set<nat>>) {
    if ops == [] then []
    else if ops[|ops| - 1].Move? then Actives(ops[..|ops| - 1]) + [ops[|ops| - 1].active]
    else Actives(ops[..|ops| - 1])
  }

  // the records the moves of a run received, in order
  ghost function Received(f: Fifo, ops: seq<WarpOp>): seq<Record>
    requires WellFormed(f) && WLegalRun(f, ops)
  {
    if ops == [] then []
    else
      var front := ops[..|ops| - 1];
      if ops[|ops| - 1].Move? then Received(f, front) + [WRun(f, front).records[0]] else Received(f, front)
  }

  // the record holds the data of this load
  ghost predicate Carries(r: Record, load: WarpOp, words: nat)
    requires load.Load?
  {
    r.mask == load.mask && r.lanes == Masked(load.mask, load.data, words)
  }

  // every load is either received or still held, in order
  ghost predicate InStep(f: Fifo, got: seq<Record>, loads: seq<WarpOp>) {
    && |got| + |f.records| == |loads|
    && (forall k :: 0 <= k < |loads| ==> loads[k].Load?)
    && (forall k :: 0 <= k < |got| ==> Carries(got[k], loads[k], f.words))
    && (forall i :: 0 <= i < |f.records| ==> Carries(f.records[i], loads[|got| + i], f.words))
  }

  lemma {:induction false} LoadStays(f: Fifo, got: seq<Record>, loads: seq<WarpOp>, op: WarpOp)
    requires WellFormed(f) && op.Load? && WLegal(f, op) && InStep(f, got, loads)
    ensures InStep(WStep(f, op), got, loads + [op])
  {
    var g := WStep(f, op);
    forall i | 0 <= i < |f.records|
      ensures Carries(g.records[i], (loads + [op])[|got| + i], f.words)
    {
      assert g.records[i] == f.records[i];
    }
    assert Carries(g.records[|f.records|], op, f.words);
  }

  lemma {:induction false} ResponseStays(f: Fifo, got: seq<Record>, loads: seq<WarpOp>, s: nat)
    requires WellFormed(f) && WLegal(f, Response(s)) && InStep(f, got, loads)
    ensures InStep(WStep(f, Response(s)), got, loads)
  {
    var g := WStep(f, Response(s));
    forall i | 0 <= i < |g.records|
      ensures Carries(g.records[i], loads[|got| + i], f.words)
    {
      assert Carries(f.records[i], loads[|got| + i], f.words);
    }
  }

  lemma {:induction false} MoveStays(f: Fifo, got: seq<Record>, loads: seq<WarpOp>, op: WarpOp)
    requires WellFormed(f) && op.Move? && WLegal(f, op) && InStep(f, got, loads)
    ensures InStep(WStep(f, op), got + [f.records[0]], loads)
  {
    var g := WStep(f, op);
    assert Carries(f.records[0], loads[|got|], f.words);
    forall i | 0 <= i < |g.records|
      ensures Carries(g.records[i], loads[|got| + 1 + i], f.words)
    {
      assert Carries(f.records[i + 1], loads[|got| + (i + 1)], f.words);
    }
  }

  lemma {:induction false} StepStaysInStep(f: Fifo, got: seq<Record>, loads: seq<WarpOp>, op: WarpOp)
    requires WellFormed(f) && WLegal(f, op) && InStep(f, got, loads)
    ensures InStep(WStep(f, op), if op.Move? then got + [f.records[0]] else got,
                   if op.Load? then loads + [op] else loads)
  {
    match op
    case Load(_, _, _) => LoadStays(f, got, loads, op);
    case Response(s) => ResponseStays(f, got, loads, s);
    case Move(_) => MoveStays(f, got, loads, op);
  }

  lemma {:induction false} RunStaysInStep(c: nat, words: nat, ws: nat, ops: seq<WarpOp>)
    requires WLegalRun(Empty(c, words, ws), ops)
    ensures InStep(WRun(Empty(c, words, ws), ops), Received(Empty(c, words, ws), ops), Loads(ops))
  {
    if ops != [] {
      var front := ops[..|ops| - 1];
      RunStaysInStep(c, words, ws, front);
      StepStaysInStep(WRun(Empty(c, words, ws), front), Received(Empty(c, words, ws), front), Loads(front), ops[|ops| - 1]);
    }
  }

  /** Data delivery: in every run of loads, responses and moves, the k-th move
      receives the k-th load's value in every word of every active lane, and
      zero in the lanes that were not active. */
  lemma {:induction false} KthMoveGetsKthLoad(c: nat, words: nat, ws: nat, ops: seq<WarpOp>, k: nat, l: nat, w: nat)
    requires WLegalRun(Empty(c, words, ws), ops)
    requires k < |Received(Empty(c, words, ws), ops)| && l < ws && w < words
    ensures k < |Loads(ops)|
    ensures var r := Received(Empty(c, words, ws), ops)[k];
            var load := Loads(ops)[k];
            && l < |r.lanes| == |load.data|
            && (l in load.mask ==> r.lanes[l] == load.data[l])
            && (l !in load.mask ==> w < |r.lanes[l]| && r.lanes[l][w] == 0)
  {
    RunStaysInStep(c, words, ws, ops);
    LoadsFit(c, words, ws, ops, k);
  }

  lemma {:induction false} LoadsFit(c: nat, words: nat, ws: nat, ops: seq<WarpOp>, k: nat)
    requires WLegalRun(Empty(c, words, ws), ops) && k < |Loads(ops)|
    ensures |Loads(ops)[k].data| == ws
  {
    var front := ops[..|ops| - 1];
    if k < |Loads(front)| {
      LoadsFit(c, words, ws, front, k);
    }
  }
}
