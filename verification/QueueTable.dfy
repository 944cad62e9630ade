/**
 The table of queues of one core: one queue per key, all queues of a thread
 block dropped together; and the keys that producer and consumer warps use.
 */
module QueueTable {
  import opened Arith
  import opened Wrappers
  import opened AsyncFifo
  import opened RingQueue

  // ----- key order -----

  // wasp_rfq_key::operator<
  predicate Less(a: Key, b: Key) {
    if a.ctaHwId != b.ctaHwId then a.ctaHwId < b.ctaHwId
    else if a.originalWarpId != b.originalWarpId then a.originalWarpId < b.originalWarpId
    else if a.srcStageId != b.srcStageId then a.srcStageId < b.srcStageId
    else if a.dstStageId != b.dstStageId then a.dstStageId < b.dstStageId
    else a.queueId < b.queueId
  }

  /** The order is a strict total order, so an ordered map never takes two
      different keys for one. */
  lemma KeyOrderIsTotal(a: Key, b: Key, c: Key)
    ensures a.ctaHwId < b.ctaHwId ==> Less(a, b)
    ensures a.ctaHwId == b.ctaHwId && a.originalWarpId < b.originalWarpId ==> Less(a, b)
    ensures a.(srcStageId := b.srcStageId, dstStageId := b.dstStageId, queueId := b.queueId) == b
            && (a.srcStageId < b.srcStageId
                || (a.srcStageId == b.srcStageId && a.dstStageId < b.dstStageId)
                || (a.srcStageId == b.srcStageId && a.dstStageId == b.dstStageId && a.queueId < b.queueId))
            ==> Less(a, b)
    ensures !(Less(a, b) && Less(b, a))
    ensures Less(a, b) && Less(b, c) ==> Less(a, c)
    ensures !Less(a, b) && !Less(b, a) <==> a == b
  {
  }

  // ----- which queue a warp uses -----

  function WarpsPerCta(paddedWarps: nat): (w: nat)
    ensures w > 0 && (paddedWarps > 0 ==> w == paddedWarps) && (paddedWarps == 0 ==> w == 8)
  {
    if paddedWarps == 0 then 8 else paddedWarps
  }

  // how many of a block's warps produce; half of them if it is not given
  function Producers(warps: nat, given: nat): (p: nat)
    ensures p > 0 && (given != 0 ==> p == given)
    ensures given == 0 && warps > 1 ==> 2 * p == warps || 2 * p + 1 == warps
    ensures given == 0 && warps <= 1 ==> p == 1
  {
    var p := if given != 0 then given else warps / 2;
    if p == 0 then 1 else p
  }

  // wasp_rfq_key_for_warp: None where its assertion fails
  function KeyForWarp(cta: nat, warp: nat, queue: nat, paddedWarps: nat, given: nat): Option<Key> {
    var warps := WarpsPerCta(paddedWarps);
    var local := warp % warps;
    var producers := Producers(warps, given);
    if producers < warps then
      Some(Key(cta, if local < producers then local else local - producers, 0, 1, queue))
    else None
  }

  /** Warp i of block n: no key where as many warps are to produce as there are,
      or more; else a producer's own id, and for a consumer its place among the
      consumers. */
  lemma {:induction false} KeyOf(cta: nat, n: nat, i: nat, queue: nat, paddedWarps: nat, given: nat)
    requires i < WarpsPerCta(paddedWarps)
    ensures var w := WarpsPerCta(paddedWarps);
            var key := KeyForWarp(cta, n * w + i, queue, paddedWarps, given);
            var p := Producers(w, given);
            && (key == None <==> p >= w)
            && (key.Some? ==>
                  && key.value.ctaHwId == cta && key.value.queueId == queue
                  && key.value.srcStageId == 0 && key.value.dstStageId == 1
                  && (i < p ==> key.value.originalWarpId == i)
                  && (i >= p ==> key.value.originalWarpId + p == i))
  {
    DivMod(n, i, WarpsPerCta(paddedWarps));
  }

  // warps i and j of block n use one queue
  predicate Meet(cta: nat, n: nat, i: nat, j: nat, queue: nat, paddedWarps: nat, given: nat) {
    var w := WarpsPerCta(paddedWarps);
    KeyForWarp(cta, n * w + i, queue, paddedWarps, given) == KeyForWarp(cta, n * w + j, queue, paddedWarps, given)
  }

  /** Of two warps of a block, only a producer and the consumer `producers`
      places behind it use one queue: no two producers do, nor two consumers. */
  lemma {:induction false} WarpPairing(cta: nat, n: nat, i: nat, j: nat, queue: nat, paddedWarps: nat, given: nat)
    requires var w := WarpsPerCta(paddedWarps); Producers(w, given) < w && i < j < w
    ensures var p := Producers(WarpsPerCta(paddedWarps), given);
            Meet(cta, n, i, j, queue, paddedWarps, given) <==> i < p && j == i + p
  {
    var w := WarpsPerCta(paddedWarps);
    DivMod(n, i, w);
    DivMod(n, j, w);
  }

  // some producer fills the queue that warp j takes from
  predicate Served(cta: nat, n: nat, j: nat, queue: nat, paddedWarps: nat, given: nat) {
    exists i: nat :: i < Producers(WarpsPerCta(paddedWarps), given) && Meet(cta, n, i, j, queue, paddedWarps, given)
  }

  /** A consumer has a producer exactly if it is among the first `producers`
      consumers. */
  lemma {:induction false} ServedExactly(cta: nat, n: nat, j: nat, queue: nat, paddedWarps: nat, given: nat)
    requires var w := WarpsPerCta(paddedWarps); Producers(w, given) <= j < w
    ensures Served(cta, n, j, queue, paddedWarps, given) <==> j < 2 * Producers(WarpsPerCta(paddedWarps), given)
  {
    var p := Producers(WarpsPerCta(paddedWarps), given);
    if i: nat :| i < p && Meet(cta, n, i, j, queue, paddedWarps, given) {
      WarpPairing(cta, n, i, j, queue, paddedWarps, given);
    }
    if j < 2 * p {
      WarpPairing(cta, n, j - p, j, queue, paddedWarps, given);
    }
  }

  ghost predicate AllServed(cta: nat, n: nat, queue: nat, paddedWarps: nat, given: nat) {
    var w := WarpsPerCta(paddedWarps);
    forall j: nat :: Producers(w, given) <= j < w ==> Served(cta, n, j, queue, paddedWarps, given)
  }

  /** Every consumer has a producer exactly if at least half of the warps produce;
      when the split is left to the default, exactly if their number is even. */
  lemma {:induction false} AllServedExactly(cta: nat, n: nat, queue: nat, paddedWarps: nat, given: nat)
    requires var w := WarpsPerCta(paddedWarps); Producers(w, given) < w
    ensures var w := WarpsPerCta(paddedWarps);
            && (AllServed(cta, n, queue, paddedWarps, given) <==> w <= 2 * Producers(w, given))
            && (given == 0 ==> (AllServed(cta, n, queue, paddedWarps, given) <==> w % 2 == 0))
  {
    var w := WarpsPerCta(paddedWarps);
    forall j: nat | Producers(w, given) <= j < w
      ensures Served(cta, n, j, queue, paddedWarps, given) <==> j < 2 * Producers(w, given)
    {
      ServedExactly(cta, n, j, queue, paddedWarps, given);
    }
    if AllServed(cta, n, queue, paddedWarps, given) {
      assert Served(cta, n, w - 1, queue, paddedWarps, given);
    }
  }

  /** Five warps and the default split: warp 4 waits for a queue nobody fills. */
  lemma {:induction false} FifthWarpStarves(cta: nat, n: nat, queue: nat)
    ensures KeyForWarp(cta, n * 5 + 4, queue, 5, 0) == Some(Key(cta, 2, 0, 1, queue))
    ensures !Served(cta, n, 4, queue, 5, 0)
  {
    DivMod(n, 4, 5);
    ServedExactly(cta, n, 4, queue, 5, 0);
  }

  // ----- the table -----

  // every queue is a proper one, and no two share anything
  ghost predicate InOrder(queues: map<Key, AsyncQueue>)
    reads queues.Values, set q | q in queues.Values :: q.storage
  {
    && (forall k :: k in queues ==> queues[k].Valid() && queues[k].Configured())
    && (forall k, l :: k in queues && l in queues && k != l ==>
          queues[k] != queues[l] && queues[k].storage != queues[l].storage)
  }

  // so it stays when some go
  lemma {:induction false} FewerInOrder(queues: map<Key, AsyncQueue>, rest: map<Key, AsyncQueue>)
    requires InOrder(queues) && forall k :: k in rest ==> k in queues && rest[k] == queues[k]
    ensures InOrder(rest)
  {
  }

  class Table {
    var queues: map<Key, AsyncQueue>

    constructor ()
      ensures queues == map[]
    {
      queues := map[];
    }

    ghost predicate Valid()
      reads this, queues.Values, set q | q in queues.Values :: q.storage
    {
      InOrder(queues)
    }

    static method NewQueue(entries: nat, words: nat, ws: nat) returns (q: AsyncQueue)
      requires entries > 0 && words > 0 && ws > 0
      ensures fresh(q) && fresh(q.storage) && q.Valid() && q.Configured() && q.Abs() == Empty(entries, words, ws)
    {
      q := new AsyncQueue();
      q.Configure(entries, words, ws);
    }

    /** get_or_create: an existing queue is left as it is (its sizes must
        agree), a new one starts out empty; no other key is affected. */
    method GetOrCreate(key: Key, entries: nat, words: nat, ws: nat) returns (q: AsyncQueue)
      requires Valid() && entries > 0 && words > 0 && ws > 0
      requires key in queues ==>
                 queues[key].entries == entries && queues[key].words == words && queues[key].warpSize == ws
      modifies this
      ensures Valid()
      ensures key in queues && q == queues[key] && queues == old(queues)[key := q]
      ensures key in old(queues) ==> q == old(queues)[key] && q.Abs() == old(queues[key].Abs())
      ensures key !in old(queues) ==> fresh(q) && fresh(q.storage) && q.Abs() == Empty(entries, words, ws)
    {
      if key in queues {
        q := queues[key];
      } else {
        q := NewQueue(entries, words, ws);
        queues := queues[key := q];
      }
    }

    /** erase_cta drops exactly the queues of one block. */
    method EraseCta(cta: nat)
      requires Valid()
      modifies this
      ensures Valid()
      ensures queues == map k | k in old(queues) && k.ctaHwId != cta :: old(queues)[k]
    {
      ghost var all := queues;
      EraseEach(cta);
      FewerInOrder(all, queues);
    }

    // its loop over the table
    method EraseEach(cta: nat)
      modifies this
      ensures queues == map k | k in old(queues) && k.ctaHwId != cta :: old(queues)[k]
    {
      var rest := queues.Keys;
      while rest != {}
        invariant rest <= old(queues).Keys
        invariant queues == map k | k in old(queues) && (k in rest || k.ctaHwId != cta) :: old(queues)[k]
        decreases |rest|
      {
        var key :| key in rest;
        rest := rest - {key};
        if key.ctaHwId == cta {
          queues := queues - {key};
        }
      }
    }
  }
}
