/**
 Whole runs carried out on a ring, with the tokens it hands out: what comes out
 of a real queue is what the runs of the abstract one promise.
 */
module QueueRuns {
  import opened AsyncFifo
  import opened RingQueue
  import opened WarpQueue

  // the token of the reservation with this number
  function TokenOf(key: Key, entries: nat, words: nat, s: nat): Token
    requires s > 0 && entries > 0
  {
    Token(key, SlotOf(s, entries), s, words, true)
  }

  // the tokens handed out so far, in order
  predicate HandedOut(q: AsyncQueue, key: Key, tokens: seq<Token>)
    requires q.Configured()
    reads q
  {
    && |tokens| + 1 == q.nextSequence
    && forall i: nat {:trigger tokens[i]} :: i < |tokens| ==> tokens[i] == TokenOf(key, q.entries, q.words, i + 1)
  }

  // the token of an entry that is held is accepted, and names that entry
  lemma {:induction false} HeldToken(q: AsyncQueue, key: Key, tokens: seq<Token>, s: nat)
    requires q.Valid() && q.Configured() && HandedOut(q, key, tokens) && Holds(q.Abs(), s)
    ensures 0 < s <= |tokens| && tokens[s - 1].sequence == s
    ensures q.Accepts(tokens[s - 1]) && q.Live(tokens[s - 1])
    ensures q.storage[tokens[s - 1].slot].pending == q.Abs().records[Index(q.Abs(), s)].pending
    ensures q.storage[tokens[s - 1].slot].words == q.words
  {
    var r, i := q.State(), SlotOf(s, q.entries);
    AcceptedUntilReused(r, s);
    SlotUse(r, i);
    InUse(r, i);
  }

  /** One operation, as the ring carries it out. */
  method PlayOp(q: AsyncQueue, key: Key, tokens: seq<Token>, op: Op) returns (tokens': seq<Token>)
    requires q.Valid() && q.Configured() && HandedOut(q, key, tokens) && Legal(q.Abs(), op)
    modifies q, q.storage
    ensures q.Valid() && q.Configured() && q.storage == old(q.storage)
    ensures q.Abs() == Step(old(q.Abs()), op) && HandedOut(q, key, tokens')
  {
    tokens' := tokens;
    match op
    case Reserve(mask, pending) =>
      var t := q.ReserveTail(key, mask, pending);
      tokens' := tokens + [t];
    case Consume =>
      q.ConsumeHead();
    case _ =>
      PlayHeld(q, key, tokens, op);
  }

  // the operations on an entry that is held, through its token
  method PlayHeld(q: AsyncQueue, key: Key, tokens: seq<Token>, op: Op)
    requires q.Valid() && q.Configured() && HandedOut(q, key, tokens) && Legal(q.Abs(), op)
    requires !op.Reserve? && !op.Consume?
    modifies q.storage
    ensures q.Valid() && q.Abs() == Step(old(q.Abs()), op)
  {
    HeldToken(q, key, tokens, op.sequence);
    var t := tokens[op.sequence - 1];
    match op
    case SetPending(_, pending) =>
      q.SetPendingResponses(t, pending);
    case Respond(_) =>
      var last := q.MarkResponse(t);
    case Store(_, l, w, v) =>
      q.SetLaneValue(t, l, w, v);
  }

  // all the words of one lane of the head
  method ReadLane(q: AsyncQueue, lane: nat) returns (values: seq<Word>)
    requires q.Valid() && q.Configured() && HeadReady(q.Abs()) && lane < q.warpSize
    ensures values == q.Abs().records[0].lanes[lane]
  {
    values := [];
    for word := 0 to q.words
      invariant values == q.Abs().records[0].lanes[lane][..word]
    {
      var v := q.HeadLaneValue(lane, word);
      values := values + [v];
    }
  }

  // all the lanes of the head
  method ReadHead(q: AsyncQueue) returns (lanes: seq<seq<Word>>)
    requires q.Valid() && q.Configured() && HeadReady(q.Abs())
    ensures lanes == q.Abs().records[0].lanes
  {
    lanes := [];
    for lane := 0 to q.warpSize
      invariant lanes == q.Abs().records[0].lanes[..lane]
    {
      var values := ReadLane(q, lane);
      lanes := lanes + [values];
    }
  }

  // every beginning of a legal run is one, and its next operation is legal
  lemma {:induction false} Beginning(f: Fifo, ops: seq<Op>, i: nat)
    requires WellFormed(f) && LegalRun(f, ops) && i <= |ops|
    ensures LegalRun(f, ops[..i])
    ensures i < |ops| ==>
              && Legal(Run(f, ops[..i]), ops[i])
              && LegalRun(f, ops[..i + 1]) && Run(f, ops[..i + 1]) == Step(Run(f, ops[..i]), ops[i])
    decreases |ops|
  {
    if i == |ops| {
      assert ops[..i] == ops;
    } else if i + 1 == |ops| {
      assert ops[..i + 1] == ops;
    } else {
      var front := ops[..|ops| - 1];
      assert front[..i] == ops[..i] && front[..i + 1] == ops[..i + 1] && front[i] == ops[i];
      Beginning(f, front, i);
    }
  }

  // what has been read from the head before each removal
  ghost predicate ReadOut(f: Fifo, ops: seq<Op>, lanes: seq<seq<seq<Word>>>)
    requires WellFormed(f) && LegalRun(f, ops)
  {
    && |lanes| == |Delivered(f, ops)|
    && forall k :: 0 <= k < |lanes| ==> lanes[k] == Delivered(f, ops)[k].lanes
  }

  // one more operation
  lemma {:induction false} ReadOutNext(f: Fifo, ops: seq<Op>, lanes: seq<seq<seq<Word>>>, i: nat)
    requires WellFormed(f) && LegalRun(f, ops) && i < |ops| && LegalRun(f, ops[..i]) && ReadOut(f, ops[..i], lanes)
    ensures LegalRun(f, ops[..i + 1])
    ensures ops[i] != Consume ==> ReadOut(f, ops[..i + 1], lanes)
    ensures ops[i] == Consume ==>
              Run(f, ops[..i]).records != [] && ReadOut(f, ops[..i + 1], lanes + [Run(f, ops[..i]).records[0].lanes])
  {
    Beginning(f, ops, i);
    var now := ops[..i + 1];
    assert now[..|now| - 1] == ops[..i] && now[|now| - 1] == ops[i];
  }

  // what was read out is what was stored
  lemma {:induction false} ReadOutIsStored(c: nat, words: nat, ws: nat, ops: seq<Op>,
                                           lanes: seq<seq<seq<Word>>>, k: nat)
    requires LegalRun(Empty(c, words, ws), ops) && ReadOut(Empty(c, words, ws), ops, lanes) && k < |lanes|
    ensures |lanes[k]| == ws && forall l :: 0 <= l < ws ==> |lanes[k][l]| == words
    ensures forall l, w :: 0 <= l < ws && 0 <= w < words ==> lanes[k][l][w] == LastStored(ops, k + 1, l, w)
  {
    DeliveredInOrder(c, words, ws, ops, k);
  }

  // the ring after these operations
  ghost predicate Played(q: AsyncQueue, key: Key, tokens: seq<Token>, f: Fifo, ops: seq<Op>,
                         lanes: seq<seq<seq<Word>>>)
    reads q, q.storage
  {
    && q.Valid() && q.Configured() && HandedOut(q, key, tokens)
    && WellFormed(f) && LegalRun(f, ops) && q.Abs() == Run(f, ops) && ReadOut(f, ops, lanes)
  }

  // one more operation; before a removal the head is read
  method PlayNext(q: AsyncQueue, key: Key, tokens: seq<Token>, ghost f: Fifo, ops: seq<Op>, i: nat,
                  lanes: seq<seq<seq<Word>>>)
    returns (tokens': seq<Token>, lanes': seq<seq<seq<Word>>>)
    requires WellFormed(f) && LegalRun(f, ops) && i < |ops| && Played(q, key, tokens, f, ops[..i], lanes)
    modifies q, q.storage
    ensures q.storage == old(q.storage) && Played(q, key, tokens', f, ops[..i + 1], lanes')
  {
    Beginning(f, ops, i);
    ReadOutNext(f, ops, lanes, i);
    lanes' := lanes;
    if ops[i] == Consume {
      var head := ReadHead(q);
      lanes' := lanes + [head];
    }
    tokens' := PlayOp(q, key, tokens, ops[i]);
  }

  /** Every legal run can be carried out on a new ring.  It ends as the abstract
      one does; what is read before the k-th removal is, word by word, what the
      run last stored for the k-th reservation; and the removals and what is left
      add up to the reservations. */
  method PlayRun(c: nat, words: nat, ws: nat, key: Key, ops: seq<Op>)
    returns (q: AsyncQueue, lanes: seq<seq<seq<Word>>>)
    requires c > 0 && words > 0 && ws > 0 && LegalRun(Empty(c, words, ws), ops)
    ensures q.Valid() && q.Configured() && q.Abs() == Run(Empty(c, words, ws), ops)
    ensures |lanes| + q.occupancy == |Masks(ops)|
    ensures forall k :: 0 <= k < |lanes| ==> |lanes[k]| == ws && forall l :: 0 <= l < ws ==> |lanes[k][l]| == words
    ensures forall k, l, w :: 0 <= k < |lanes| && 0 <= l < ws && 0 <= w < words ==>
              lanes[k][l][w] == LastStored(ops, k + 1, l, w)
  {
    ghost var f := Empty(c, words, ws);
    q := new AsyncQueue();
    q.Configure(c, words, ws);
    lanes := [];
    var tokens := [];
    for i := 0 to |ops|
      invariant fresh(q) && fresh(q.storage) && Played(q, key, tokens, f, ops[..i], lanes)
    {
      tokens, lanes := PlayNext(q, key, tokens, f, ops, i, lanes);
    }
    assert ops[..|ops|] == ops;
    Conservation(c, words, ws, ops);
    forall k: nat | k < |lanes| {
      ReadOutIsStored(c, words, ws, ops, lanes, k);
    }
  }

  // ----- the same for loads, responses and moves -----

  // what a move read from this record
  ghost predicate ReadFrom(values: map<nat, seq<Word>>, active: set<nat>, r: Record, words: nat, ws: nat) {
    && |r.lanes| == ws && (forall l :: 0 <= l < ws ==> |r.lanes[l]| == words)
    && (forall l: nat :: l in values <==> l in active && l < ws)
    && (forall l: nat :: l in values ==> |values[l]| == MOV_VALUES)
    && (forall l: nat, w: nat :: l in values && w < MOV_VALUES ==>
          values[l][w] == if w < words then r.lanes[l][w] else 0)
  }

  /** One load, response or move, as the ring carries it out. */
  method PlayWarpOp(q: AsyncQueue, key: Key, tokens: seq<Token>, op: WarpOp)
    returns (tokens': seq<Token>, values: map<nat, seq<Word>>)
    requires q.Valid() && q.Configured() && q.words <= MOV_VALUES
    requires HandedOut(q, key, tokens) && WLegal(q.Abs(), op)
    modifies q, q.storage
    ensures q.Valid() && q.Configured() && q.storage == old(q.storage)
    ensures q.Abs() == WStep(old(q.Abs()), op) && HandedOut(q, key, tokens')
    ensures op.Move? ==> ReadFrom(values, op.active, old(q.Abs()).records[0], q.words, q.warpSize)
  {
    tokens', values := tokens, map[];
    match op
    case Load(mask, data, accesses) =>
      var t := IssueLoad(q, key, mask, data, accesses);
      tokens' := tokens + [t];
    case Response(s) =>
      HeldToken(q, key, tokens, s);
      var last := q.MarkResponse(tokens[s - 1]);
    case Move(active) =>
      values := IssueMove(q, active);
  }

  lemma {:induction false} WBeginning(f: Fifo, ops: seq<WarpOp>, i: nat)
    requires WellFormed(f) && WLegalRun(f, ops) && i <= |ops|
    ensures WLegalRun(f, ops[..i])
    ensures i < |ops| ==>
              && WLegal(WRun(f, ops[..i]), ops[i])
              && WLegalRun(f, ops[..i + 1]) && WRun(f, ops[..i + 1]) == WStep(WRun(f, ops[..i]), ops[i])
    decreases |ops|
  {
    if i == |ops| {
      assert ops[..i] == ops;
    } else if i + 1 == |ops| {
      assert ops[..i + 1] == ops;
    } else {
      var front := ops[..|ops| - 1];
      assert front[..i] == ops[..i] && front[..i + 1] == ops[..i + 1] && front[i] == ops[i];
      WBeginning(f, front, i);
    }
  }

  // what the moves have read
  ghost predicate Moved(f: Fifo, ops: seq<WarpOp>, values: seq<map<nat, seq<Word>>>)
    requires WellFormed(f) && WLegalRun(f, ops)
  {
    && |values| == |Received(f, ops)| == |Actives(ops)|
    && forall k :: 0 <= k < |values| ==> ReadFrom(values[k], Actives(ops)[k], Received(f, ops)[k], f.words, f.warpSize)
  }

  lemma {:induction false} MovedNext(f: Fifo, ops: seq<WarpOp>, values: seq<map<nat, seq<Word>>>, i: nat,
                                     v: map<nat, seq<Word>>)
    requires WellFormed(f) && WLegalRun(f, ops) && i < |ops| && WLegalRun(f, ops[..i]) && Moved(f, ops[..i], values)
    requires ops[i].Move? && WLegal(WRun(f, ops[..i]), ops[i]) ==>
               ReadFrom(v, ops[i].active, WRun(f, ops[..i]).records[0], f.words, f.warpSize)
    ensures WLegalRun(f, ops[..i + 1])
    ensures Moved(f, ops[..i + 1], if ops[i].Move? then values + [v] else values)
  {
    WBeginning(f, ops, i);
    var now := ops[..i + 1];
    assert now[..|now| - 1] == ops[..i] && now[|now| - 1] == ops[i];
  }

  ghost predicate WPlayed(q: AsyncQueue, key: Key, tokens: seq<Token>, f: Fifo, ops: seq<WarpOp>,
                          values: seq<map<nat, seq<Word>>>)
    reads q, q.storage
  {
    && q.Valid() && q.Configured() && HandedOut(q, key, tokens)
    && WellFormed(f) && WLegalRun(f, ops) && q.Abs() == WRun(f, ops) && Moved(f, ops, values)
  }

  method PlayWarpNext(q: AsyncQueue, key: Key, tokens: seq<Token>, ghost f: Fifo, ops: seq<WarpOp>, i: nat,
                      values: seq<map<nat, seq<Word>>>)
    returns (tokens': seq<Token>, values': seq<map<nat, seq<Word>>>)
    requires WellFormed(f) && WLegalRun(f, ops) && i < |ops| && f.words <= MOV_VALUES
    requires WPlayed(q, key, tokens, f, ops[..i], values)
    modifies q, q.storage
    ensures q.storage == old(q.storage) && WPlayed(q, key, tokens', f, ops[..i + 1], values')
  {
    WBeginning(f, ops, i);
    var v;
    tokens', v := PlayWarpOp(q, key, tokens, ops[i]);
    MovedNext(f, ops, values, i, v);
    values' := if ops[i].Move? then values + [v] else values;
  }

  // the word a load has for a lane: none if the lane was not active
  function LoadedWord(load: WarpOp, l: nat, w: nat): Word {
    if load.Load? && l in load.mask && l < |load.data| && w < |load.data[l]| then load.data[l][w] else 0
  }

  lemma {:induction false} MovedIsLoaded(c: nat, words: nat, ws: nat, ops: seq<WarpOp>,
                                         values: seq<map<nat, seq<Word>>>, k: nat, l: nat, w: nat)
    requires words > 0 && WLegalRun(Empty(c, words, ws), ops) && Moved(Empty(c, words, ws), ops, values)
    requires k < |values| && l in values[k] && w < MOV_VALUES
    ensures k < |Loads(ops)| && |values[k][l]| == MOV_VALUES
    ensures values[k][l][w] == LoadedWord(Loads(ops)[k], l, w)
  {
    var e := Empty(c, words, ws);
    assert ReadFrom(values[k], Actives(ops)[k], Received(e, ops)[k], words, ws);
    RunStaysInStep(c, words, ws, ops);
    if w < words {
      KthMoveGetsKthLoad(c, words, ws, ops, k, l, w);
    } else if l in Loads(ops)[k].mask {
      KthMoveGetsKthLoad(c, words, ws, ops, k, l, 0);
    }
  }

  /** Data delivery on a new ring: every run of loads, responses in any order,
      and moves can be carried out; each active lane of the k-th move gets, word
      by word, what the k-th load had for that lane, and 0 where it had nothing. */
  method PlayWarpRun(c: nat, words: nat, ws: nat, key: Key, ops: seq<WarpOp>)
    returns (q: AsyncQueue, values: seq<map<nat, seq<Word>>>)
    requires c > 0 && 0 < words <= MOV_VALUES && ws > 0 && WLegalRun(Empty(c, words, ws), ops)
    ensures q.Valid() && q.Configured() && q.Abs() == WRun(Empty(c, words, ws), ops)
    ensures |values| == |Actives(ops)| && |values| + q.occupancy == |Loads(ops)|
    ensures forall k: nat, l: nat :: k < |values| ==> (l in values[k] <==> l in Actives(ops)[k] && l < ws)
    ensures forall k: nat, l: nat, w: nat :: k < |values| && l in values[k] && w < MOV_VALUES ==>
              |values[k][l]| == MOV_VALUES && values[k][l][w] == LoadedWord(Loads(ops)[k], l, w)
  {
    ghost var f := Empty(c, words, ws);
    q := new AsyncQueue();
    q.Configure(c, words, ws);
    values := [];
    var tokens := [];
    for i := 0 to |ops|
      invariant fresh(q) && fresh(q.storage) && WPlayed(q, key, tokens, f, ops[..i], values)
    {
      tokens, values := PlayWarpNext(q, key, tokens, f, ops, i, values);
    }
    assert ops[..|ops|] == ops;
    RunStaysInStep(c, words, ws, ops);
    forall k: nat, l: nat, w: nat | k < |values| && l in values[k] && w < MOV_VALUES {
      MovedIsLoaded(c, words, ws, ops, values, k, l, w);
    }
  }
}
