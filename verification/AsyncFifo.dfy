/**
 A FIFO whose entries are reserved in order, filled out of order and taken out
 in order: what the register-file queue and the shared-memory queue promise.
 Entries are named by their sequence number, starting from 1.
 */
module AsyncFifo {

  const WORD_LIMIT := 0x1_0000_0000_0000_0000

  // the 64-bit payload words
  newtype Word = x: int | 0 <= x < WORD_LIMIT

  // lanes[l][w] is word w of lane l
  datatype Record = Record(sequence: nat, pending: nat, mask: set<nat>, lanes: seq<seq<Word>>)

  datatype Fifo = Fifo(capacity: nat, words: nat, warpSize: nat, next: nat, records: seq<Record>)

  datatype Op =
    | Reserve(mask: set<nat>, pending: nat)
    | SetPending(sequence: nat, pending: nat)
    | Respond(sequence: nat)
    | Store(sequence: nat, lane: nat, word: nat, value: Word)
    | Consume

  function Zeros(words: nat, warpSize: nat): (z: seq<seq<Word>>)
    ensures |z| == warpSize && forall l :: 0 <= l < warpSize ==> |z[l]| == words
    ensures forall l, w :: 0 <= l < warpSize && 0 <= w < words ==> z[l][w] == 0
  {
    seq(warpSize, l requires l >= 0 => seq(words, w requires w >= 0 => 0))
  }

  predicate WellFormed(f: Fifo) {
    && |f.records| <= f.capacity
    && |f.records| < f.next
    && (forall i :: 0 <= i < |f.records| ==> f.records[i].sequence == f.next - |f.records| + i)
    && (forall i :: 0 <= i < |f.records| ==> |f.records[i].lanes| == f.warpSize)
    && (forall i, l :: 0 <= i < |f.records| && 0 <= l < f.warpSize ==> |f.records[i].lanes[l]| == f.words)
  }

  function Empty(capacity: nat, words: nat, warpSize: nat): (f: Fifo)
    ensures WellFormed(f)
  {
    Fifo(capacity, words, warpSize, 1, [])
  }

  // is the entry with this sequence number still in the queue
  predicate Holds(f: Fifo, sequence: nat) {
    f.next - |f.records| <= sequence < f.next
  }

  function Index(f: Fifo, sequence: nat): (i: nat)
    requires Holds(f, sequence)
    ensures i < |f.records|
  {
    sequence - (f.next - |f.records|)
  }

  predicate HeadReady(f: Fifo) {
    f.records != [] && f.records[0].pending == 0
  }

  predicate Legal(f: Fifo, op: Op) {
    match op
    case Reserve(_, _) => |f.records| < f.capacity
    case SetPending(s, _) => Holds(f, s)
    case Respond(s) => Holds(f, s) && f.records[Index(f, s)].pending > 0
    case Store(s, l, w, _) => Holds(f, s) && l < f.warpSize && w < f.words
    case Consume => HeadReady(f)
  }

  function WithLane(r: Record, l: nat, w: nat, v: Word): Record
    requires l < |r.lanes| && w < |r.lanes[l]|
  {
    r.(lanes := r.lanes[l := r.lanes[l][w := v]])
  }

  function Step(f: Fifo, op: Op): (g: Fifo)
    requires WellFormed(f) && Legal(f, op)
    ensures WellFormed(g)
    ensures g.capacity == f.capacity && g.words == f.words && g.warpSize == f.warpSize
  {
    match op
    case Reserve(mask, pending) =>
      f.(next := f.next + 1,
         records := f.records + [Record(f.next, pending, mask, Zeros(f.words, f.warpSize))])
    case SetPending(s, p) =>
      var i := Index(f, s);
      f.(records := f.records[i := f.records[i].(pending := p)])
    case Respond(s) =>
      var i := Index(f, s);
      f.(records := f.records[i := f.records[i].(pending := f.records[i].pending - 1)])
    case Store(s, l, w, v) =>
      var i := Index(f, s);
      f.(records := f.records[i := WithLane(f.records[i], l, w, v)])
    case Consume =>
      f.(records := f.records[1..])
  }

  // ----- runs -----

  ghost predicate LegalRun(f: Fifo, ops: seq<Op>)
    requires WellFormed(f)
    decreases |ops|, 0
  {
    ops == [] || (LegalRun(f, ops[..|ops| - 1]) && Legal(Run(f, ops[..|ops| - 1]), ops[|ops| - 1]))
  }

  ghost function Run(f: Fifo, ops: seq<Op>): (g: Fifo)
    requires WellFormed(f) && LegalRun(f, ops)
    ensures WellFormed(g)
    ensures g.capacity == f.capacity && g.words == f.words && g.warpSize == f.warpSize
    decreases |ops|, 1
  {
    if ops == [] then f else Step(Run(f, ops[..|ops| - 1]), ops[|ops| - 1])
  }

  // the records taken out, in order
  ghost function Delivered(f: Fifo, ops: seq<Op>): (d: seq<Record>)
    requires WellFormed(f) && LegalRun(f, ops)
  {
    if ops == [] then []
    else
      var front := ops[..|ops| - 1];
      if ops[|ops| - 1] == Consume then Delivered(f, front) + [Run(f, front).records[0]]
      else Delivered(f, front)
  }

  // what the run last stored into one word of one entry; 0 if nothing
  function LastStored(ops: seq<Op>, sequence: nat, l: nat, w: nat): Word {
    if ops == [] then 0
    else
      var op := ops[|ops| - 1];
      if op.Store? && op.sequence == sequence && op.lane == l && op.word == w then op.value
      else LastStored(ops[..|ops| - 1], sequence, l, w)
  }

  // the active masks of the reservations, in order
  function Masks(ops: seq<Op>): seq<set<nat>> {
    if ops == [] then []
    else
      var op := ops[|ops| - 1];
      if op.Reserve? then Masks(ops[..|ops| - 1]) + [op.mask] else Masks(ops[..|ops| - 1])
  }

  // how many responses an entry is still owed: its pending count when last set,
  // less the responses since
  function Outstanding(ops: seq<Op>, sequence: nat): int {
    if ops == [] then 0
    else
      var op := ops[|ops| - 1];
      var front := ops[..|ops| - 1];
      match op
      case Reserve(_, p) => if |Masks(front)| + 1 == sequence then p else Outstanding(front, sequence)
      case SetPending(s, p) => if s == sequence then p else Outstanding(front, sequence)
      case Respond(s) => if s == sequence then Outstanding(front, sequence) - 1 else Outstanding(front, sequence)
      case Store(_, _, _, _) => Outstanding(front, sequence)
      case Consume => Outstanding(front, sequence)
  }

  /** No record is lost or invented: everything reserved is either delivered or
      still in the queue, and sequence numbers count reservations. */
  lemma {:induction false} Conservation(c: nat, words: nat, ws: nat, ops: seq<Op>)
    requires LegalRun(Empty(c, words, ws), ops)
    ensures var f := Run(Empty(c, words, ws), ops);
            && f.next == |Masks(ops)| + 1
            && |Delivered(Empty(c, words, ws), ops)| + |f.records| == |Masks(ops)|
  {
    if ops != [] {
      Conservation(c, words, ws, ops[..|ops| - 1]);
    }
  }

  // a record that is what the run made of the entry with this number
  ghost predicate IsMadeBy(r: Record, ops: seq<Op>, sequence: nat, words: nat, ws: nat) {
    && r.sequence == sequence
    && 1 <= sequence <= |Masks(ops)| && r.mask == Masks(ops)[sequence - 1]
    && r.pending == Outstanding(ops, sequence)
    && |r.lanes| == ws
    && (forall l :: 0 <= l < ws ==> |r.lanes[l]| == words)
    && (forall l, w :: 0 <= l < ws && 0 <= w < words ==> r.lanes[l][w] == LastStored(ops, sequence, l, w))
  }

  // Entries not reserved yet have never been stored to.
  lemma {:induction false} NothingStoredAhead(c: nat, words: nat, ws: nat, ops: seq<Op>, s: nat, l: nat, w: nat)
    requires LegalRun(Empty(c, words, ws), ops)
    requires s >= Run(Empty(c, words, ws), ops).next
    ensures LastStored(ops, s, l, w) == 0
  {
    if ops != [] {
      NothingStoredAhead(c, words, ws, ops[..|ops| - 1], s, l, w);
    }
  }

  // A record stays what the run made of it through one more step.
  lemma {:induction false} StillMade(e: Fifo, ops: seq<Op>, j: nat)
    requires WellFormed(e) && ops != [] && Legal(e, ops[|ops| - 1]) && j < |e.records|
    requires e.next == |Masks(ops[..|ops| - 1])| + 1
    requires IsMadeBy(e.records[j], ops[..|ops| - 1], e.next - |e.records| + j, e.words, e.warpSize)
    requires ops[|ops| - 1] == Consume ==> j > 0
    ensures var f := Step(e, ops[|ops| - 1]);
            var i := if ops[|ops| - 1] == Consume then j - 1 else j;
            i < |f.records| && IsMadeBy(f.records[i], ops, e.next - |e.records| + j, e.words, e.warpSize)
  {
  }

  ghost predicate NeverStored(ops: seq<Op>, s: nat) {
    forall l: nat, w: nat :: LastStored(ops, s, l, w) == 0
  }

  // So is the record a reservation adds.
  lemma {:induction false} NewlyMade(e: Fifo, ops: seq<Op>)
    requires WellFormed(e) && ops != [] && ops[|ops| - 1].Reserve? && Legal(e, ops[|ops| - 1])
    requires e.next == |Masks(ops[..|ops| - 1])| + 1
    requires NeverStored(ops[..|ops| - 1], e.next)
    ensures IsMadeBy(Step(e, ops[|ops| - 1]).records[|e.records|], ops, e.next, e.words, e.warpSize)
  {
    forall l: nat, w: nat
      ensures LastStored(ops, e.next, l, w) == 0
    {
      assert LastStored(ops[..|ops| - 1], e.next, l, w) == 0;
    }
  }

  ghost predicate Made(f: Fifo, ops: seq<Op>, i: nat) {
    i < |f.records| < f.next ==> IsMadeBy(f.records[i], ops, f.next - |f.records| + i, f.words, f.warpSize)
  }

  ghost predicate AllMade(f: Fifo, ops: seq<Op>) {
    forall i: nat {:trigger Made(f, ops, i)} :: Made(f, ops, i)
  }

  lemma {:induction false} StepMakes(e: Fifo, ops: seq<Op>)
    requires WellFormed(e) && ops != [] && Legal(e, ops[|ops| - 1])
    requires e.next == |Masks(ops[..|ops| - 1])| + 1 && AllMade(e, ops[..|ops| - 1])
    requires ops[|ops| - 1].Reserve? ==> NeverStored(ops[..|ops| - 1], e.next)
    ensures AllMade(Step(e, ops[|ops| - 1]), ops)
  {
    var op := ops[|ops| - 1];
    forall i: nat
      ensures Made(Step(e, op), ops, i)
    {
      var j := if op == Consume then i + 1 else i;
      if j < |e.records| {
        assert Made(e, ops[..|ops| - 1], j);
        StillMade(e, ops, j);
      } else if op.Reserve? {
        NewlyMade(e, ops);
      }
    }
  }

  // What is in the queue is what the run made of it.
  lemma {:induction false} HeldRecords(c: nat, words: nat, ws: nat, ops: seq<Op>)
    requires LegalRun(Empty(c, words, ws), ops)
    ensures AllMade(Run(Empty(c, words, ws), ops), ops)
  {
    if ops != [] {
      var front := ops[..|ops| - 1];
      var e := Run(Empty(c, words, ws), front);
      Conservation(c, words, ws, front);
      HeldRecords(c, words, ws, front);
      forall l: nat, w: nat
        ensures LastStored(front, e.next, l, w) == 0
      {
        NothingStoredAhead(c, words, ws, front, e.next, l, w);
      }
      StepMakes(e, ops);
    }
  }

  // Once an entry has left, the run cannot change what it was.
  lemma {:induction false} GoneIsFixed(c: nat, words: nat, ws: nat, ops: seq<Op>, s: nat, l: nat, w: nat)
    requires ops != [] && LegalRun(Empty(c, words, ws), ops)
    requires var e := Run(Empty(c, words, ws), ops[..|ops| - 1]); 1 <= s < e.next - |e.records|
    ensures LastStored(ops, s, l, w) == LastStored(ops[..|ops| - 1], s, l, w)
    ensures Outstanding(ops, s) == Outstanding(ops[..|ops| - 1], s)
    ensures s <= |Masks(ops[..|ops| - 1])| && Masks(ops)[s - 1] == Masks(ops[..|ops| - 1])[s - 1]
  {
    Conservation(c, words, ws, ops[..|ops| - 1]);
  }

  /** In every run, whatever order the responses come in: the k-th record taken
      out is the k-th one reserved, with its mask; it has no response
      outstanding; and each of its words is what was last stored there, or 0. */
  lemma {:induction false} DeliveredInOrder(c: nat, words: nat, ws: nat, ops: seq<Op>, k: nat)
    requires LegalRun(Empty(c, words, ws), ops)
    requires k < |Delivered(Empty(c, words, ws), ops)|
    ensures var r := Delivered(Empty(c, words, ws), ops)[k];
            IsMadeBy(r, ops, k + 1, words, ws) && r.pending == 0
  {
    var front := ops[..|ops| - 1];
    var e := Run(Empty(c, words, ws), front);
    Conservation(c, words, ws, front);
    if k < |Delivered(Empty(c, words, ws), front)| {
      var s := k + 1;
      DeliveredInOrder(c, words, ws, front, k);
      forall l: nat, w: nat | l < ws && w < words
        ensures LastStored(ops, s, l, w) == LastStored(front, s, l, w)
      {
        GoneIsFixed(c, words, ws, ops, s, l, w);
      }
      GoneIsFixed(c, words, ws, ops, s, 0, 0);
    } else {
      assert ops[|ops| - 1] == Consume;
      HeldRecords(c, words, ws, front);
      assert Made(e, front, 0);
    }
  }

  /** The head can be taken out exactly when the responses still owed to the
      oldest entry have all come in. */
  lemma {:induction false} HeadReadyMeansAnswered(c: nat, words: nat, ws: nat, ops: seq<Op>)
    requires LegalRun(Empty(c, words, ws), ops)
    ensures var f := Run(Empty(c, words, ws), ops);
            HeadReady(f) <==> f.records != [] && Outstanding(ops, f.next - |f.records|) == 0
  {
    var f := Run(Empty(c, words, ws), ops);
    if f.records != [] {
      HeldRecords(c, words, ws, ops);
      assert Made(f, ops, 0);
    }
  }
}
