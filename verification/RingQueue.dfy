/**
 The ring buffer behind both warp-specialisation queues.  The register-file
 queue and the shared-memory queue are the same code under two names; the class
 here is that code, and it is shown to carry out the operations of AsyncFifo.
 */
module RingQueue {
  import opened Arith
  import opened AsyncFifo

  datatype Key = Key(ctaHwId: nat, originalWarpId: nat, srcStageId: nat, dstStageId: nat, queueId: nat)

  datatype Token = Token(key: Key, slot: nat, sequence: nat, words: nat, valid: bool)

  datatype State = Free | Reserved | Ready

  datatype Entry = Entry(state: State, sequence: nat, pending: nat, words: nat, mask: set<nat>, payload: seq<Word>)

  // ----- slots -----

  function NextSlot(i: nat, entries: nat): (j: nat)
    requires i < entries
    ensures j < entries
    ensures j == if i + 1 == entries then 0 else i + 1
  {
    (i + 1) % entries
  }

  // the slot that sequence s goes to: slots are handed out in turn, from slot 0
  function SlotOf(s: nat, entries: nat): (i: nat)
    requires s > 0 && entries > 0
    ensures i < entries
  {
    if s == 1 then 0 else NextSlot(SlotOf(s - 1, entries), entries)
  }

  // The slot k places further on, less than one ring away.
  lemma {:induction false} SlotAhead(s: nat, k: nat, entries: nat)
    requires s > 0 && k <= entries && entries > 0
    ensures var i := SlotOf(s, entries);
            SlotOf(s + k, entries) == if i + k < entries then i + k else i + k - entries
  {
    if k > 0 {
      SlotAhead(s, k - 1, entries);
    }
  }

  /** Sequences less than a ring apart are in different slots. */
  lemma {:induction false} SlotsDiffer(s: nat, t: nat, entries: nat)
    requires 0 < s < t < s + entries
    ensures SlotOf(s, entries) != SlotOf(t, entries)
  {
    SlotAhead(s, t - s, entries);
  }

  // The last `entries` sequence numbers before `next` cover every slot; numbers
  // below 1 stand for slots that were never used.
  lemma {:induction false} LastUser(i: nat, next: nat, entries: nat) returns (s: int)
    requires i < entries && next > 0
    ensures next - entries <= s < next
    ensures s > 0 ==> SlotOf(s, entries) == i
    ensures s <= 0 ==> next - 1 <= i
  {
    var c := SlotOf(next, entries);
    s := next - entries + if i >= c then i - c else i - c + entries;
    if s > 0 {
      SlotAhead(s, next - s, entries);
    } else {
      SlotAhead(1, next - 1, entries);
    }
  }

  // ----- lanes in the flat payload -----

  lemma {:induction false} LaneInside(l: nat, w: nat, words: nat, ws: nat)
    requires l < ws && w < words
    ensures 0 <= l * words + w < ws * words
  {
    ProductMonotone(l, ws, words);
  }

  /** Different (lane, word) pairs never share a payload position. */
  lemma {:induction false} LanesApart(l: nat, w: nat, l': nat, w': nat, words: nat)
    requires w < words && w' < words && (l, w) != (l', w')
    ensures l * words + w != l' * words + w'
  {
    if l < l' {
      ProductMonotone(l, l', words);
    } else if l' < l {
      ProductMonotone(l', l, words);
    }
  }

  function WordAt(payload: seq<Word>, words: nat, ws: nat, l: nat, w: nat): Word
    requires |payload| == ws * words && l < ws && w < words
  {
    LaneInside(l, w, words, ws);
    payload[l * words + w]
  }

  ghost function LanesOf(payload: seq<Word>, words: nat, ws: nat): (z: seq<seq<Word>>)
    requires |payload| == ws * words
    ensures |z| == ws && forall l :: 0 <= l < ws ==> |z[l]| == words
    ensures forall l: nat, w: nat :: l < ws && w < words ==> z[l][w] == WordAt(payload, words, ws, l, w)
  {
    seq(ws, l requires 0 <= l < ws => seq(words, w requires 0 <= w < words => WordAt(payload, words, ws, l, w)))
  }

  // Writing one payload position changes one word of one lane.
  lemma {:induction false} LaneWrite(payload: seq<Word>, words: nat, ws: nat, l: nat, w: nat, v: Word)
    requires |payload| == ws * words && l < ws && w < words
    ensures 0 <= l * words + w < |payload|
    ensures var z := LanesOf(payload, words, ws);
            LanesOf(payload[l * words + w := v], words, ws) == z[l := z[l][w := v]]
  {
    LaneInside(l, w, words, ws);
    var z := LanesOf(payload, words, ws);
    var y := LanesOf(payload[l * words + w := v], words, ws);
    forall k: nat, x: nat | k < ws && x < words
      ensures y[k][x] == z[l := z[l][w := v]][k][x]
    {
      LaneInside(k, x, words, ws);
      if (k, x) != (l, w) {
        LanesApart(k, x, l, w, words);
      }
    }
    forall k: nat | k < ws
      ensures y[k] == z[l := z[l][w := v]][k]
    {
    }
  }

  lemma {:induction false} ZeroLanes(payload: seq<Word>, words: nat, ws: nat)
    requires |payload| == ws * words && forall i :: 0 <= i < |payload| ==> payload[i] == 0
    ensures LanesOf(payload, words, ws) == Zeros(words, ws)
  {
    var z := LanesOf(payload, words, ws);
    forall k: nat, x: nat | k < ws && x < words
      ensures z[k][x] == 0
    {
      LaneInside(k, x, words, ws);
    }
    forall k: nat | k < ws
      ensures z[k] == Zeros(words, ws)[k]
    {
    }
  }

  // ----- the ring as a value, and the queue it stands for -----

  datatype Ring = Ring(entries: nat, words: nat, warpSize: nat, occupancy: nat, next: nat, slots: seq<Entry>)

  ghost predicate Shaped(r: Ring) {
    && |r.slots| == r.entries && r.entries > 0 && r.words > 0 && r.warpSize > 0
    && r.occupancy <= r.entries && r.occupancy < r.next
    && forall i: nat :: i < r.entries ==> |r.slots[i].payload| == r.warpSize * r.words
  }

  // slot of sequence s while it has not been reused: in use if s is among the
  // newest `occupancy`, free afterwards
  ghost predicate Keeps(r: Ring, s: nat)
    requires Shaped(r) && 0 < s
  {
    var e := r.slots[SlotOf(s, r.entries)];
    && e.sequence == s && e.words == r.words
    && (s >= r.next - r.occupancy ==> e.state == if e.pending == 0 then Ready else Reserved)
    && (s < r.next - r.occupancy ==> e.state == Free && e.pending == 0)
  }

  ghost predicate Untouched(e: Entry) {
    e.state == Free && e.sequence == 0 && e.pending == 0 && e.words == 0
  }

  /** The ring invariant. */
  ghost predicate RingOk(r: Ring) {
    && Shaped(r)
    && (forall s: nat {:trigger Keeps(r, s)} :: 0 < s && r.next - r.entries <= s < r.next ==> Keeps(r, s))
    && (forall i: nat {:trigger Untouched(r.slots[i])} :: r.next - 1 <= i < r.entries ==> Untouched(r.slots[i]))
  }

  ghost function Abstract(e: Entry, words: nat, ws: nat): Record
    requires |e.payload| == ws * words
  {
    Record(e.sequence, e.pending, e.mask, LanesOf(e.payload, words, ws))
  }

  // the i-th oldest entry in use
  ghost function RecordAt(r: Ring, i: nat): Record
    requires Shaped(r) && i < r.occupancy
  {
    Abstract(r.slots[SlotOf(r.next - r.occupancy + i, r.entries)], r.words, r.warpSize)
  }

  ghost function AbsOf(r: Ring): (f: Fifo)
    requires Shaped(r)
    ensures |f.records| == r.occupancy
    ensures forall i: nat :: i < r.occupancy ==> f.records[i] == RecordAt(r, i)
  {
    Fifo(r.entries, r.words, r.warpSize, r.next,
         seq(r.occupancy, i requires 0 <= i < r.occupancy => RecordAt(r, i)))
  }

  lemma {:induction false} AbsWellFormed(r: Ring)
    requires RingOk(r)
    ensures WellFormed(AbsOf(r))
  {
    forall i: nat | i < r.occupancy
      ensures AbsOf(r).records[i].sequence == r.next - r.occupancy + i
    {
      assert Keeps(r, r.next - r.occupancy + i);
    }
  }

  /** Slots in use are exactly the window; READY means nothing pending. */
  lemma {:induction false} SlotUse(r: Ring, i: nat)
    requires RingOk(r) && i < r.entries
    ensures r.slots[i].state != Free <==>
            r.next - r.occupancy <= r.slots[i].sequence < r.next && r.slots[i].sequence > 0
    ensures r.slots[i].state == Ready ==> r.slots[i].pending == 0
    ensures r.slots[i].state == Reserved ==> r.slots[i].pending > 0
    ensures r.slots[i].state == Free ==> r.slots[i].pending == 0
    ensures r.slots[i].sequence > 0 ==> SlotOf(r.slots[i].sequence, r.entries) == i
    ensures r.slots[i].sequence < r.next
    ensures r.next - r.entries <= r.slots[i].sequence
  {
    var s := LastUser(i, r.next, r.entries);
    if s > 0 {
      assert Keeps(r, s);
    } else {
      assert Untouched(r.slots[i]);
    }
  }

  /** A token is accepted by its slot exactly as long as the slot has not been
      reused for a later reservation. */
  lemma {:induction false} AcceptedUntilReused(r: Ring, s: nat)
    requires RingOk(r) && 0 < s < r.next
    ensures r.slots[SlotOf(s, r.entries)].sequence == s <==> s >= r.next - r.entries
  {
    SlotUse(r, SlotOf(s, r.entries));
    if s >= r.next - r.entries {
      assert Keeps(r, s);
    }
  }

  // Changing an entry in use, but neither its number nor its size.
  lemma {:induction false} UpdateEntry(r: Ring, s: nat, e: Entry)
    requires RingOk(r) && 0 < s && r.next - r.occupancy <= s < r.next
    requires e.sequence == s && e.words == r.words && |e.payload| == r.warpSize * r.words
    requires e.state == if e.pending == 0 then Ready else Reserved
    ensures var q := r.(slots := r.slots[SlotOf(s, r.entries) := e]);
            && RingOk(q)
            && AbsOf(q) == AbsOf(r).(records :=
                 AbsOf(r).records[s - (r.next - r.occupancy) := Abstract(e, r.words, r.warpSize)])
  {
    var q := r.(slots := r.slots[SlotOf(s, r.entries) := e]);
    forall t: nat | 0 < t && r.next - r.entries <= t < r.next
      ensures Keeps(q, t)
      ensures t != s ==> q.slots[SlotOf(t, r.entries)] == r.slots[SlotOf(t, r.entries)]
    {
      assert Keeps(r, t);
      if t != s {
        OtherSlot(r, s, t);
      }
    }
    forall i: nat | r.next - 1 <= i < r.entries
      ensures Untouched(q.slots[i])
    {
      assert Untouched(r.slots[i]);
      assert Keeps(r, s);
    }
    assert AbsOf(q).records == AbsOf(r).records[s - (r.next - r.occupancy) := Abstract(e, r.words, r.warpSize)];
  }

  lemma {:induction false} OtherSlot(r: Ring, s: nat, t: nat)
    requires Shaped(r) && 0 < s < r.next && 0 < t < r.next && s != t
    requires r.next - r.entries <= s && r.next - r.entries <= t
    ensures SlotOf(s, r.entries) != SlotOf(t, r.entries)
  {
    if s < t {
      SlotsDiffer(s, t, r.entries);
    } else {
      SlotsDiffer(t, s, r.entries);
    }
  }

  // An occupied slot and the record it stands for.
  lemma {:induction false} InUse(r: Ring, i: nat)
    requires RingOk(r) && i < r.entries && r.slots[i].state != Free
    ensures var e := r.slots[i];
            && 0 < e.sequence && r.next - r.occupancy <= e.sequence < r.next
            && SlotOf(e.sequence, r.entries) == i && e.words == r.words
            && e.state == (if e.pending == 0 then Ready else Reserved)
            && WellFormed(AbsOf(r)) && Holds(AbsOf(r), e.sequence)
            && AbsOf(r).records[Index(AbsOf(r), e.sequence)] == Abstract(e, r.words, r.warpSize)
  {
    SlotUse(r, i);
    AbsWellFormed(r);
    var s := r.slots[i].sequence;
    assert Keeps(r, s);
    assert AbsOf(r).records[Index(AbsOf(r), s)] == RecordAt(r, Index(AbsOf(r), s));
  }

  function WithPending(e: Entry, pending: nat): Entry {
    e.(pending := pending, state := if pending == 0 then Ready else Reserved)
  }

  /** set_pending_responses and mark_response change one pending count. */
  lemma {:induction false} PendingRefines(r: Ring, i: nat, pending: nat)
    requires RingOk(r) && i < r.entries && r.slots[i].state != Free
    ensures var q := r.(slots := r.slots[i := WithPending(r.slots[i], pending)]);
            var s := r.slots[i].sequence;
            && RingOk(q) && WellFormed(AbsOf(r)) && Holds(AbsOf(r), s)
            && AbsOf(q) == Step(AbsOf(r), SetPending(s, pending))
            && (r.slots[i].pending == pending + 1 ==>
                  Legal(AbsOf(r), Respond(s)) && AbsOf(q) == Step(AbsOf(r), Respond(s)))
  {
    InUse(r, i);
    UpdateEntry(r, r.slots[i].sequence, WithPending(r.slots[i], pending));
  }

  /** set_lane_value changes one word of one lane of one record. */
  lemma {:induction false} StoreRefines(r: Ring, i: nat, l: nat, w: nat, v: Word)
    requires RingOk(r) && i < r.entries && r.slots[i].state != Free && l < r.warpSize && w < r.words
    ensures 0 <= l * r.words + w < |r.slots[i].payload|
    ensures var e := r.slots[i];
            var q := r.(slots := r.slots[i := e.(payload := e.payload[l * r.words + w := v])]);
            && RingOk(q) && WellFormed(AbsOf(r)) && Legal(AbsOf(r), Store(e.sequence, l, w, v))
            && AbsOf(q) == Step(AbsOf(r), Store(e.sequence, l, w, v))
  {
    InUse(r, i);
    var e := r.slots[i];
    LaneWrite(e.payload, r.words, r.warpSize, l, w, v);
    UpdateEntry(r, e.sequence, e.(payload := e.payload[l * r.words + w := v]));
  }

  // A word stored into an entry already taken out is in no record.
  lemma {:induction false} StoreBehindIsLost(r: Ring, i: nat, l: nat, w: nat, v: Word)
    requires RingOk(r) && i < r.entries && r.slots[i].state == Free && l < r.warpSize && w < r.slots[i].words
    ensures r.slots[i].words == r.words && 0 <= l * r.words + w < |r.slots[i].payload|
    ensures var e := r.slots[i];
            var q := r.(slots := r.slots[i := e.(payload := e.payload[l * r.words + w := v])]);
            RingOk(q) && AbsOf(q) == AbsOf(r)
  {
    SlotUse(r, i);
    var e := r.slots[i];
    if e.sequence > 0 {
      assert Keeps(r, e.sequence);
    } else {
      SlotUnused(r, i);
    }
    LaneInside(l, w, r.words, r.warpSize);
    var q := r.(slots := r.slots[i := e.(payload := e.payload[l * r.words + w := v])]);
    forall t: nat | 0 < t && r.next - r.entries <= t < r.next
      ensures Keeps(q, t)
    {
      assert Keeps(r, t);
    }
    forall j: nat | r.next - 1 <= j < r.entries
      ensures Untouched(q.slots[j])
    {
      assert Untouched(r.slots[j]);
    }
    forall j: nat | j < r.occupancy
      ensures RecordAt(q, j) == RecordAt(r, j)
    {
      assert Keeps(r, r.next - r.occupancy + j);
    }
    assert AbsOf(q).records == AbsOf(r).records;
  }

  // a slot without a sequence number was never reserved
  lemma {:induction false} SlotUnused(r: Ring, i: nat)
    requires RingOk(r) && i < r.entries && r.slots[i].sequence == 0
    ensures Untouched(r.slots[i])
  {
    var s := LastUser(i, r.next, r.entries);
    assert s > 0 ==> Keeps(r, s);
  }

  // The slot a reservation will take is free.
  lemma {:induction false} TailIsFree(r: Ring)
    requires RingOk(r) && r.occupancy < r.entries
    ensures r.slots[SlotOf(r.next, r.entries)].state == Free
  {
    var i := SlotOf(r.next, r.entries);
    SlotUse(r, i);
    var t := r.slots[i].sequence;
    if r.slots[i].state != Free {
      SlotsDiffer(t, r.next, r.entries);
    }
  }

  ghost function Reserving(r: Ring, mask: set<nat>, pending: nat, zeros: seq<Word>): Ring
    requires Shaped(r)
  {
    var e := Entry(if pending == 0 then Ready else Reserved, r.next, pending, r.words, mask, zeros);
    r.(slots := r.slots[SlotOf(r.next, r.entries) := e], next := r.next + 1, occupancy := r.occupancy + 1)
  }

  lemma {:induction false} ReserveKeepsRing(r: Ring, mask: set<nat>, pending: nat, zeros: seq<Word>)
    requires RingOk(r) && r.occupancy < r.entries
    requires |zeros| == r.warpSize * r.words && forall i :: 0 <= i < |zeros| ==> zeros[i] == 0
    ensures RingOk(Reserving(r, mask, pending, zeros))
    ensures forall t: nat :: 0 < t && r.next - r.entries < t < r.next ==>
              SlotOf(t, r.entries) != SlotOf(r.next, r.entries)
  {
    var q := Reserving(r, mask, pending, zeros);
    forall t: nat | 0 < t && r.next - r.entries < t < r.next
      ensures SlotOf(t, r.entries) != SlotOf(r.next, r.entries)
      ensures Keeps(q, t)
    {
      assert Keeps(r, t);
      SlotsDiffer(t, r.next, r.entries);
    }
    assert Keeps(q, r.next);
    forall i: nat | q.next - 1 <= i < r.entries
      ensures Untouched(q.slots[i])
    {
      assert Untouched(r.slots[i]);
      SlotAhead(1, r.next - 1, r.entries);
    }
  }

  /** reserve_tail appends a record of zeros under the next number. */
  lemma {:induction false} ReserveRefines(r: Ring, mask: set<nat>, pending: nat, zeros: seq<Word>)
    requires RingOk(r) && r.occupancy < r.entries
    requires |zeros| == r.warpSize * r.words && forall i :: 0 <= i < |zeros| ==> zeros[i] == 0
    ensures var q := Reserving(r, mask, pending, zeros);
            && RingOk(q) && WellFormed(AbsOf(r)) && Legal(AbsOf(r), Reserve(mask, pending))
            && AbsOf(q) == Step(AbsOf(r), Reserve(mask, pending))
  {
    var q := Reserving(r, mask, pending, zeros);
    AbsWellFormed(r);
    ReserveKeepsRing(r, mask, pending, zeros);
    ZeroLanes(zeros, r.words, r.warpSize);
    var f := Step(AbsOf(r), Reserve(mask, pending));
    forall i: nat | i < q.occupancy
      ensures AbsOf(q).records[i] == f.records[i]
    {
    }
    assert AbsOf(q).records == f.records;
  }

  ghost function Consuming(r: Ring, zeros: seq<Word>): Ring
    requires Shaped(r) && r.occupancy > 0
  {
    var i := SlotOf(r.next - r.occupancy, r.entries);
    var e := r.slots[i];
    r.(slots := r.slots[i := Entry(Free, e.sequence, 0, e.words, {}, zeros)], occupancy := r.occupancy - 1)
  }

  lemma {:induction false} ReadyAtHead(r: Ring)
    requires RingOk(r) && WellFormed(AbsOf(r)) && HeadReady(AbsOf(r))
    ensures r.occupancy > 0 && r.slots[SlotOf(r.next - r.occupancy, r.entries)].state == Ready
    ensures var i := SlotOf(r.next - r.occupancy, r.entries);
            SlotOf(r.next - r.occupancy + 1, r.entries) == (i + 1) % r.entries
  {
    assert Keeps(r, r.next - r.occupancy);
    assert AbsOf(r).records[0] == RecordAt(r, 0);
    SlotAhead(r.next - r.occupancy, 1, r.entries);
  }

  // every slot keeps its user, and all but the head slot their entry
  lemma {:induction false} ConsumeKeeps(r: Ring, zeros: seq<Word>, t: nat)
    requires RingOk(r) && r.occupancy > 0 && |zeros| == r.warpSize * r.words
    requires 0 < t && r.next - r.entries <= t < r.next
    ensures Keeps(Consuming(r, zeros), t)
    ensures t != r.next - r.occupancy ==>
              Consuming(r, zeros).slots[SlotOf(t, r.entries)] == r.slots[SlotOf(t, r.entries)]
  {
    assert Keeps(r, t);
    if t != r.next - r.occupancy {
      OtherSlot(r, r.next - r.occupancy, t);
    }
  }

  lemma {:induction false} ConsumeKeepsRing(r: Ring, zeros: seq<Word>)
    requires RingOk(r) && r.occupancy > 0 && |zeros| == r.warpSize * r.words
    ensures RingOk(Consuming(r, zeros))
  {
    var q := Consuming(r, zeros);
    assert Keeps(r, r.next - r.occupancy);
    forall t: nat | 0 < t && r.next - r.entries <= t < r.next
      ensures Keeps(q, t)
    {
      ConsumeKeeps(r, zeros, t);
    }
    forall i: nat | r.next - 1 <= i < r.entries
      ensures Untouched(q.slots[i])
    {
      assert Untouched(r.slots[i]);
    }
  }

  lemma {:induction false} ConsumeShifts(r: Ring, zeros: seq<Word>, i: nat)
    requires RingOk(r) && r.occupancy > 0 && |zeros| == r.warpSize * r.words && i < r.occupancy - 1
    ensures RecordAt(Consuming(r, zeros), i) == RecordAt(r, i + 1)
  {
    ConsumeKeeps(r, zeros, r.next - r.occupancy + 1 + i);
  }

  /** consume_head takes the oldest record out. */
  lemma {:induction false} ConsumeRefines(r: Ring, zeros: seq<Word>)
    requires RingOk(r) && r.occupancy > 0 && |zeros| == r.warpSize * r.words
    requires r.slots[SlotOf(r.next - r.occupancy, r.entries)].state == Ready
    ensures var q := Consuming(r, zeros);
            && RingOk(q) && WellFormed(AbsOf(r)) && Legal(AbsOf(r), Consume)
            && AbsOf(q) == Step(AbsOf(r), Consume)
  {
    var q := Consuming(r, zeros);
    AbsWellFormed(r);
    ConsumeKeepsRing(r, zeros);
    assert Keeps(r, r.next - r.occupancy);
    assert AbsOf(r).records[0] == RecordAt(r, 0);
    forall i: nat | i < q.occupancy
      ensures AbsOf(q).records[i] == AbsOf(r).records[i + 1]
    {
      ConsumeShifts(r, zeros, i);
    }
    assert AbsOf(q).records == AbsOf(r).records[1..];
  }

  /** Setting the pending count through a token whose entry has been taken out,
      but whose slot was not reused yet, wrecks the ring. */
  lemma {:induction false} StaleUpdateBreaksRing(r: Ring, i: nat, pending: nat)
    requires RingOk(r) && i < r.entries && r.slots[i].state == Free
    ensures !RingOk(r.(slots := r.slots[i := WithPending(r.slots[i], pending)]))
  {
    var q := r.(slots := r.slots[i := WithPending(r.slots[i], pending)]);
    SlotUse(r, i);
    if RingOk(q) {
      SlotUse(q, i);
    }
  }

  // ----- counting slots by state -----

  function CountState(slots: seq<Entry>, st: State): nat {
    if slots == [] then 0 else CountState(slots[..|slots| - 1], st) + if slots[|slots| - 1].state == st then 1 else 0
  }

  lemma {:induction false} CountsAddUp(slots: seq<Entry>)
    ensures CountState(slots, Free) + CountState(slots, Reserved) + CountState(slots, Ready) == |slots|
  {
    if slots != [] {
      CountsAddUp(slots[..|slots| - 1]);
    }
  }

  lemma {:induction false} CountUpdate(slots: seq<Entry>, i: nat, e: Entry, st: State)
    requires i < |slots|
    ensures CountState(slots[i := e], st) ==
            CountState(slots, st) - (if slots[i].state == st then 1 else 0) + (if e.state == st then 1 else 0)
  {
    var n := |slots| - 1;
    if i == n {
      assert slots[i := e][..n] == slots[..n];
    } else {
      assert slots[i := e][..n] == slots[..n][i := e];
      CountUpdate(slots[..n], i, e, st);
    }
  }

  // pending records among the first m of the queue
  ghost function PendingRecords(f: Fifo, m: nat): nat
    requires m <= |f.records|
  {
    if m == 0 then 0 else PendingRecords(f, m - 1) + if f.records[m - 1].pending > 0 then 1 else 0
  }

  // the ring as it was before the newest entry in use was reserved, up to the
  // contents of a free slot
  ghost function Unreserving(r: Ring): Ring
    requires Shaped(r) && r.occupancy > 0
  {
    var s := r.next - 1;
    var i := SlotOf(s, r.entries);
    var e := r.slots[i];
    var before := if s > r.entries then e.(state := Free, pending := 0, sequence := s - r.entries)
                  else e.(state := Free, pending := 0, sequence := 0, words := 0);
    r.(slots := r.slots[i := before], next := s, occupancy := r.occupancy - 1)
  }

  lemma {:induction false} UnreserveKeepsSlot(r: Ring, t: nat)
    requires RingOk(r) && r.occupancy > 0 && 0 < t && r.next - r.entries <= t < r.next - 1
    ensures Keeps(Unreserving(r), t)
    ensures Unreserving(r).slots[SlotOf(t, r.entries)] == r.slots[SlotOf(t, r.entries)]
  {
    assert Keeps(r, t);
    OtherSlot(r, r.next - 1, t);
  }

  // the slot given back: its previous user, or nobody
  lemma {:induction false} UnreserveFrees(r: Ring)
    requires RingOk(r) && r.occupancy > 0
    ensures var q := Unreserving(r);
            var s := r.next - 1;
            if s > r.entries then Keeps(q, s - r.entries) else s - 1 < |q.slots| && Untouched(q.slots[s - 1])
  {
    var s := r.next - 1;
    assert Keeps(r, s);
    if s > r.entries {
      SlotAhead(s - r.entries, r.entries, r.entries);
    } else {
      SlotAhead(1, s - 1, r.entries);
    }
  }

  lemma {:induction false} UnreserveKeepsRing(r: Ring)
    requires RingOk(r) && r.occupancy > 0
    ensures RingOk(Unreserving(r))
    ensures forall t: nat :: 0 < t && r.next - r.entries <= t < r.next - 1 ==>
              Unreserving(r).slots[SlotOf(t, r.entries)] == r.slots[SlotOf(t, r.entries)]
  {
    var q := Unreserving(r);
    var s := r.next - 1;
    UnreserveFrees(r);
    forall t: nat | 0 < t && r.next - r.entries <= t < s {
      UnreserveKeepsSlot(r, t);
    }
    forall t: nat | 0 < t && q.next - q.entries <= t < q.next
      ensures Keeps(q, t)
    {
      if t >= r.next - r.entries {
        UnreserveKeepsSlot(r, t);
      }
    }
    forall i: nat | q.next - 1 <= i < r.entries
      ensures Untouched(q.slots[i])
    {
      if i > s - 1 {
        assert Untouched(r.slots[i]);
      }
    }
  }

  // The first records do not depend on the newest one.
  lemma {:induction false} SamePending(r: Ring, q: Ring, m: nat)
    requires Shaped(r) && Shaped(q) && m <= r.occupancy && m <= q.occupancy
    requires forall i: nat :: i < m ==> RecordAt(r, i) == RecordAt(q, i)
    ensures PendingRecords(AbsOf(r), m) == PendingRecords(AbsOf(q), m)
  {
    if m > 0 {
      SamePending(r, q, m - 1);
    }
  }

  // Taking the newest entry back takes one off the count of its state.
  lemma {:induction false} UnreserveCounts(r: Ring)
    requires RingOk(r) && r.occupancy > 0
    ensures var e := r.slots[SlotOf(r.next - 1, r.entries)];
            var q := Unreserving(r);
            && (e.state == Ready || e.state == Reserved)
            && (e.state == Reserved <==> AbsOf(r).records[r.occupancy - 1].pending > 0)
            && CountState(r.slots, Reserved) == CountState(q.slots, Reserved) + (if e.state == Reserved then 1 else 0)
            && CountState(r.slots, Ready) == CountState(q.slots, Ready) + (if e.state == Ready then 1 else 0)
  {
    var i := SlotOf(r.next - 1, r.entries);
    var q := Unreserving(r);
    assert Keeps(r, r.next - 1);
    CountUpdate(r.slots, i, q.slots[i], Reserved);
    CountUpdate(r.slots, i, q.slots[i], Ready);
    assert AbsOf(r).records[r.occupancy - 1] == RecordAt(r, r.occupancy - 1);
  }

  lemma {:induction false} UnreserveKeepsRecord(r: Ring, k: nat)
    requires RingOk(r) && k < r.occupancy - 1
    ensures RecordAt(r, k) == RecordAt(Unreserving(r), k)
  {
    UnreserveKeepsSlot(r, r.next - r.occupancy + k);
  }

  lemma {:induction false} UnreservePending(r: Ring)
    requires RingOk(r) && r.occupancy > 0
    ensures PendingRecords(AbsOf(r), r.occupancy - 1) == PendingRecords(AbsOf(Unreserving(r)), r.occupancy - 1)
  {
    var q := Unreserving(r);
    forall k: nat | k < q.occupancy
      ensures RecordAt(r, k) == RecordAt(q, k)
    {
      UnreserveKeepsRecord(r, k);
    }
    SamePending(r, q, q.occupancy);
  }

  /** ready_count and pending_count: together the occupancy, and the pending
      ones are the records still waiting for a response. */
  lemma {:induction false} CountsAre(r: Ring)
    requires RingOk(r)
    ensures CountState(r.slots, Reserved) == PendingRecords(AbsOf(r), r.occupancy)
    ensures CountState(r.slots, Reserved) + CountState(r.slots, Ready) == r.occupancy
    decreases r.occupancy
  {
    if r.occupancy == 0 {
      AllFree(r, r.entries);
    } else {
      UnreserveKeepsRing(r);
      CountsAre(Unreserving(r));
      UnreserveCounts(r);
      UnreservePending(r);
    }
  }

  lemma {:induction false} AllFree(r: Ring, m: nat)
    requires RingOk(r) && r.occupancy == 0 && m <= r.entries
    ensures CountState(r.slots[..m], Reserved) == 0 && CountState(r.slots[..m], Ready) == 0
    ensures r.slots[..r.entries] == r.slots
  {
    if m > 0 {
      AllFree(r, m - 1);
      SlotUse(r, m - 1);
      assert r.slots[..m][..m - 1] == r.slots[..m - 1];
    }
  }

  class AsyncQueue {
    var entries: nat
    var words: nat
    var warpSize: nat
    var head: nat
    var tail: nat
    var occupancy: nat
    var nextSequence: nat
    var storage: array<Entry>

    ghost function State(): Ring
      reads this, storage
    {
      Ring(entries, words, warpSize, occupancy, nextSequence, storage[..])
    }

    ghost predicate Valid()
      reads this, storage
    {
      if Configured() then
        && occupancy < nextSequence && RingOk(State())
        && tail == SlotOf(nextSequence, entries) && head == SlotOf(nextSequence - occupancy, entries)
      else
        nextSequence == 1 && occupancy == head == tail == 0
    }

    // the FIFO this queue stands for
    ghost function Abs(): (f: Fifo)
      requires Valid() && Configured()
      reads this, storage
      ensures WellFormed(f)
    {
      AbsWellFormed(State());
      AbsOf(State())
    }

    predicate Configured()
      reads `entries
    {
      entries > 0
    }

    predicate Full()
      reads `occupancy, `entries
    {
      occupancy >= entries
    }

    predicate IsEmpty()
      reads `occupancy
    {
      occupancy == 0
    }

    // the check made before a token's entry is used
    predicate Accepts(t: Token)
      requires storage.Length == entries
      reads this, storage
    {
      t.valid && t.slot < entries && storage[t.slot].sequence == t.sequence
    }

    // the token's entry is in use
    ghost predicate Live(t: Token)
      reads `nextSequence, `occupancy
    {
      t.sequence > 0 && nextSequence - occupancy <= t.sequence < nextSequence
    }

    constructor ()
      ensures Valid() && !Configured()
    {
      entries, words, warpSize := 0, 0, 0;
      head, tail, occupancy, nextSequence := 0, 0, 0, 1;
      storage := new Entry[0];
    }

    /** configure: the first call sizes the ring, later calls must agree. */
    method Configure(n: nat, payloadWords: nat, ws: nat)
      requires Valid()
      requires Configured() ==> entries == n && words == payloadWords && warpSize == ws
      requires n > 0 && payloadWords > 0 && ws > 0
      modifies this
      ensures Valid() && Configured() && entries == n && words == payloadWords && warpSize == ws
      ensures old(Configured()) ==> Abs() == old(Abs()) && storage == old(storage)
      ensures !old(Configured()) ==> Abs() == Empty(n, payloadWords, ws) && fresh(storage)
    {
      if Configured() {
        return;
      }
      entries := n;
      words := payloadWords;
      warpSize := ws;
      var zeros: seq<Word> := seq(ws * payloadWords, _ => 0);
      storage := new Entry[n](_ => Entry(Free, 0, 0, 0, {}, zeros));
      assert forall i: nat :: i < n ==> Untouched(State().slots[i]);
    }

    /** head_ready holds exactly if the oldest record awaits no response. */
    method IsHeadReady() returns (ready: bool)
      requires Valid() && Configured()
      ensures ready <==> HeadReady(Abs())
    {
      if IsEmpty() {
        return false;
      }
      assert Keeps(State(), nextSequence - occupancy);
      assert Abs().records[0] == RecordAt(State(), 0);
      return storage[head].state == Ready;
    }

    /** reserve_tail */
    method ReserveTail(key: Key, mask: set<nat>, pending: nat) returns (t: Token)
      requires Valid() && Configured() && !Full()
      modifies this, storage
      ensures Valid() && Configured() && storage == old(storage)
      ensures Legal(old(Abs()), Reserve(mask, pending))
      ensures Abs() == Step(old(Abs()), Reserve(mask, pending))
      ensures t == Token(key, old(tail), old(nextSequence), words, true)
      ensures t.slot < entries && Accepts(t) && Live(t)
    {
      ghost var r := State();
      var zeros: seq<Word> := seq(|storage[tail].payload|, _ => 0);
      TailIsFree(r);
      ReserveRefines(r, mask, pending, zeros);
      assert storage[tail].state == Free;
      storage[tail] := Entry(if pending == 0 then Ready else Reserved, nextSequence, pending, words, mask, zeros);
      t := Token(key, tail, nextSequence, words, true);
      nextSequence := nextSequence + 1;
      tail := (tail + 1) % entries;
      occupancy := occupancy + 1;
      assert State() == Reserving(r, mask, pending, zeros);
    }

    /** set_pending_responses: for an entry in use, it sets the count; through a
        token that outlived its entry it passes the check and wrecks the ring. */
    method SetPendingResponses(t: Token, pending: nat)
      requires Valid() && Configured() && Accepts(t)
      modifies storage
      ensures old(Live(t)) ==>
                && Valid() && Legal(old(Abs()), SetPending(t.sequence, pending))
                && Abs() == Step(old(Abs()), SetPending(t.sequence, pending))
      ensures Valid() <==> old(Live(t))
      ensures Accepts(t)
    {
      ghost var r := State();
      SlotUse(r, t.slot);
      if r.slots[t.slot].state != Free {
        PendingRefines(r, t.slot, pending);
      } else {
        StaleUpdateBreaksRing(r, t.slot, pending);
      }
      var e := storage[t.slot];
      storage[t.slot] := e.(pending := pending, state := if pending == 0 then Ready else Reserved);
      assert State() == r.(slots := r.slots[t.slot := WithPending(e, pending)]);
    }

    /** has_pending_responses */
    method HasPendingResponses(t: Token) returns (p: bool)
      requires Valid() && Configured() && Accepts(t)
      ensures p <==> Live(t) && Holds(Abs(), t.sequence) && Abs().records[Index(Abs(), t.sequence)].pending > 0
    {
      SlotUse(State(), t.slot);
      if State().slots[t.slot].state != Free {
        InUse(State(), t.slot);
      }
      p := storage[t.slot].pending > 0;
    }

    /** mark_response */
    method MarkResponse(t: Token) returns (last: bool)
      requires Valid() && Configured() && Accepts(t) && storage[t.slot].pending > 0
      modifies storage
      ensures Live(t) && Valid() && Legal(old(Abs()), Respond(t.sequence))
      ensures Abs() == Step(old(Abs()), Respond(t.sequence))
      ensures last <==> Abs().records[Index(Abs(), t.sequence)].pending == 0
    {
      ghost var r := State();
      SlotUse(r, t.slot);
      InUse(r, t.slot);
      PendingRefines(r, t.slot, r.slots[t.slot].pending - 1);
      var e := storage[t.slot];
      assert e.state == Reserved || e.state == Ready;
      var now := e.(pending := e.pending - 1);
      if now.pending == 0 {
        now := now.(state := Ready);
      }
      storage[t.slot] := now;
      assert State() == r.(slots := r.slots[t.slot := WithPending(e, e.pending - 1)]);
      last := now.pending == 0;
    }

    /** consume_head */
    method ConsumeHead()
      requires Valid() && Configured() && HeadReady(Abs())
      modifies this, storage
      ensures Valid() && Configured() && storage == old(storage)
      ensures Abs() == Step(old(Abs()), Consume)
      ensures forall i: nat :: i < storage.Length ==> storage[i].sequence == old(storage[i].sequence)
    {
      ghost var r := State();
      ReadyAtHead(r);
      assert storage[head].state == Ready;
      var e := storage[head];
      var zeros: seq<Word> := seq(|e.payload|, _ => 0);
      ConsumeRefines(r, zeros);
      storage[head] := Entry(Free, e.sequence, 0, e.words, {}, zeros);
      head := (head + 1) % entries;
      occupancy := occupancy - 1;
      assert State() == Consuming(r, zeros);
    }

    // a live token's entry has the queue's word count
    lemma {:induction false} LiveWords(t: Token)
      requires Valid() && Configured() && Accepts(t) && Live(t)
      ensures storage[t.slot].words == words
    {
      SlotUse(State(), t.slot);
      InUse(State(), t.slot);
    }

    /** set_lane_value: through the token of an entry already taken out, it
        changes no record. */
    method SetLaneValue(t: Token, lane: nat, word: nat, value: Word)
      requires Valid() && Configured() && Accepts(t)
      requires lane < warpSize && word < storage[t.slot].words
      modifies storage
      ensures Valid() && Accepts(t) && storage[t.slot].words == words
      ensures Live(t) ==> Legal(old(Abs()), Store(t.sequence, lane, word, value))
                          && Abs() == Step(old(Abs()), Store(t.sequence, lane, word, value))
      ensures !Live(t) ==> Abs() == old(Abs())
    {
      ghost var r := State();
      SlotUse(r, t.slot);
      if storage[t.slot].state == Free {
        StoreBehindIsLost(r, t.slot, lane, word, value);
      } else {
        InUse(r, t.slot);
        StoreRefines(r, t.slot, lane, word, value);
      }
      var e := storage[t.slot];
      storage[t.slot] := e.(payload := e.payload[lane * e.words + word := value]);
      assert State() == r.(slots := r.slots[t.slot := e.(payload := e.payload[lane * words + word := value])]);
    }

    /** head_lane_value */
    method HeadLaneValue(lane: nat, word: nat) returns (v: Word)
      requires Valid() && Configured() && HeadReady(Abs())
      requires lane < warpSize && word < words
      ensures v == Abs().records[0].lanes[lane][word]
    {
      ghost var r := State();
      assert Keeps(r, nextSequence - occupancy);
      assert AbsOf(r).records[0] == RecordAt(r, 0);
      var e := storage[head];
      LaneInside(lane, word, words, warpSize);
      v := e.payload[lane * e.words + word];
    }

    method CountStateOf(st: State) returns (count: nat)
      ensures count == CountState(storage[..], st)
    {
      count := 0;
      for i := 0 to storage.Length
        invariant count == CountState(storage[..i], st)
      {
        assert storage[..i + 1][..i] == storage[..i];
        if storage[i].state == st {
          count := count + 1;
        }
      }
      assert storage[..storage.Length] == storage[..];
    }

    /** ready_count and pending_count */
    method Counts() returns (ready: nat, pending: nat)
      requires Valid() && Configured()
      ensures ready + pending == occupancy
      ensures pending == PendingRecords(Abs(), occupancy)
    {
      ready := CountStateOf(Ready);
      pending := CountStateOf(Reserved);
      CountsAre(State());
    }
  }

  /** A token that outlived its entry: after one reservation and its removal the
      token still passes the check. */
  method OutlivedToken(key: Key) returns (q: AsyncQueue, t: Token)
    ensures q.Valid() && q.Configured() && q.Accepts(t) && !q.Live(t)
  {
    q := new AsyncQueue();
    q.Configure(1, 1, 1);
    t := q.ReserveTail(key, {}, 0);
    q.ConsumeHead();
  }
}
