/** The hand-off queue between the producer and the socket: frames give way to newer frames,
    everything else is kept. */
module DropOldQueue {

  const QUEUE_DEPTH: nat := 2

  /** Frames are bytes; messages, errors and the end marker are said once. */
  datatype Item = Frame(bytes: seq<int>) | Message(content: string) | Failure(error: string) | End

  function Frames(items: seq<Item>): (n: nat)
    ensures n <= |items|
  {
    if |items| == 0 then 0 else Frames(items[..|items|-1]) + if items[|items|-1].Frame? then 1 else 0
  }

  function FirstFrame(items: seq<Item>): (p: nat)
    ensures p <= |items| && (forall k :: 0 <= k < p ==> !items[k].Frame?) && (p < |items| ==> items[p].Frame?)
  {
    if |items| == 0 || items[0].Frame? then 0 else FirstFrame(items[1..]) + 1
  }

  /** `items` without its `surplus` oldest frames. */
  function Thinned(items: seq<Item>, surplus: nat): seq<Item> {
    if |items| == 0 then []
    else if items[0].Frame? && surplus > 0 then Thinned(items[1..], surplus - 1)
    else [items[0]] + Thinned(items[1..], surplus)
  }

  function RemoveAt<T>(s: seq<T>, p: nat): seq<T>
    requires p < |s|
  {
    s[..p] + s[p + 1..]
  }

  lemma {:induction false} FramesAppend(a: seq<Item>, b: seq<Item>)
    ensures Frames(a + b) == Frames(a) + Frames(b)
  {
    if |b| == 0 {
      assert a + b == a;
    } else {
      FramesAppend(a, b[..|b|-1]);
      assert (a + b)[..|a + b|-1] == a + b[..|b|-1];
    }
  }

  lemma {:induction false} ThinnedZero(items: seq<Item>)
    ensures Thinned(items, 0) == items
  {
    if |items| > 0 { ThinnedZero(items[1..]); }
  }

  /** Thinning by one takes out the first frame and nothing else. */
  lemma {:induction false} ThinnedOne(items: seq<Item>)
    requires Frames(items) > 0
    ensures FirstFrame(items) < |items|
    ensures Thinned(items, 1) == RemoveAt(items, FirstFrame(items))
    ensures Frames(Thinned(items, 1)) == Frames(items) - 1
  {
    var head, tail := items[0], items[1..];
    assert items == [head] + tail;
    FramesAppend([head], tail);
    OneItem(head);
    assert Thinned(items, 1) == if head.Frame? then Thinned(tail, 0) else [head] + Thinned(tail, 1);
    assert FirstFrame(items) == if head.Frame? then 0 else FirstFrame(tail) + 1;
    hide Frames, Thinned, FirstFrame;
    if head.Frame? {
      ThinnedZero(tail);
      assert RemoveAt(items, 0) == tail;
    } else {
      hide RemoveAt;
      ThinnedOne(tail);
      RemoveAtConcat([head], tail, FirstFrame(tail));
      FramesAppend([head], Thinned(tail, 1));
    }
  }

  // ---------------------------------------------------------------- what was delivered and what is left of it

  ghost predicate Increasing(idx: seq<nat>) {
    forall j, k :: 0 <= j < k < |idx| ==> idx[j] < idx[k]
  }

  /** `kept` is the subsequence of `delivered` at the positions `idx`, and no message is missing. */
  ghost predicate Traces(delivered: seq<Item>, kept: seq<Item>, idx: seq<nat>) {
    && |idx| == |kept| && Increasing(idx)
    && (forall k :: 0 <= k < |idx| ==> idx[k] < |delivered| && kept[k] == delivered[idx[k]])
    && (forall i :: 0 <= i < |delivered| && !delivered[i].Frame? ==> i in idx)
  }

  lemma TracesMore(delivered: seq<Item>, kept: seq<Item>, idx: seq<nat>, payload: Item)
    requires Traces(delivered, kept, idx)
    ensures Traces(delivered + [payload], kept + [payload], idx + [|delivered|])
  {
    var d, x := delivered + [payload], idx + [|delivered|];
    forall i | 0 <= i < |d| && !d[i].Frame? ensures i in x {
      if i == |delivered| { assert x[|idx|] == i; }
    }
  }

  /** Losing one frame leaves a trace of the same deliveries. */
  lemma TracesLess(delivered: seq<Item>, kept: seq<Item>, idx: seq<nat>, p: nat)
    requires Traces(delivered, kept, idx) && p < |kept| && kept[p].Frame?
    ensures Traces(delivered, RemoveAt(kept, p), RemoveAt(idx, p))
  {
    hide RemoveAt;
    var x := RemoveAt(idx, p);
    forall q | 0 <= q < |idx| - 1
      ensures |RemoveAt(kept, p)| == |x| == |idx| - 1
      ensures x[q] == idx[if q < p then q else q + 1] && RemoveAt(kept, p)[q] == kept[if q < p then q else q + 1]
    {
      RemoveAtIs(idx, p, q);
      RemoveAtIs(kept, p, q);
    }
    RemoveAtLength(idx, p);
    RemoveAtLength(kept, p);
    forall i: nat | i < |delivered| && !delivered[i].Frame? ensures i in x {
      KeptPosition<nat>(idx, p, i);
    }
  }

  lemma RemoveAtLength<T>(s: seq<T>, p: nat)
    requires p < |s|
    ensures |RemoveAt(s, p)| == |s| - 1
  {
  }

  /** Every other value stays in the list. */
  lemma KeptPosition<T>(s: seq<T>, p: nat, x: T)
    requires p < |s| && x in s && x != s[p]
    ensures x in RemoveAt(s, p)
  {
    var k :| 0 <= k < |s| && s[k] == x;
    assert RemoveAt(s, p)[if k < p then k else k - 1] == x;
  }

  class LiveQueue {
    var queue: seq<Item>

    /** Everything offered, everything taken by the consumer, and where what is left came from. */
    ghost var delivered: seq<Item>
    ghost var consumed: seq<Item>
    ghost var idx: seq<nat>

    /** At most the depth in frames; consumed and queued together are what was delivered, in
        order, with some frames and no message missing. */
    ghost predicate Valid()
      reads this
    {
      Frames(queue) <= QUEUE_DEPTH && Traces(delivered, consumed + queue, idx)
    }

    constructor ()
      ensures Valid() && queue == [] && delivered == [] && consumed == []
    {
      queue, delivered, consumed, idx := [], [], [], [];
    }

    /** Drains and refills the queue without its oldest surplus frames, then appends. At most one
        item is lost, a frame older than every frame that stays. */
    method Deliver(payload: Item)
      requires Valid()
      modifies this
      ensures Valid() && delivered == old(delivered) + [payload] && consumed == old(consumed)
      ensures |queue| > 0 && queue[|queue|-1] == payload && Frames(queue) <= 2
      ensures !(payload.Frame? && |old(queue)| >= QUEUE_DEPTH && Frames(old(queue)) == QUEUE_DEPTH) ==>
        queue == old(queue) + [payload]
      ensures payload.Frame? && |old(queue)| >= QUEUE_DEPTH && Frames(old(queue)) == QUEUE_DEPTH ==>
        var p := FirstFrame(old(queue));
        && p < |old(queue)| && queue == RemoveAt(old(queue), p) + [payload]
        && |consumed| + p < |old(idx)|
        && forall k :: |consumed| <= k < |idx| && (consumed + queue)[k].Frame? ==> old(idx)[|consumed| + p] < idx[k]
    {
      hide Thinned, Traces, FirstFrame, RemoveAt, Frames, Increasing;
      if payload.Frame? && |queue| >= QUEUE_DEPTH { MakeRoom(); }
      FramesAppend(queue, [payload]);
      OneItem(payload);
      TracesMore(delivered, consumed + queue, idx, payload);
      TracesLength(delivered, consumed + queue, idx);
      assert consumed + (queue + [payload]) == (consumed + queue) + [payload];
      idx := idx + [|delivered|];
      queue := queue + [payload];
      delivered := delivered + [payload];
    }

    /** The drain and refill: one frame goes when the queue holds its full depth of them. */
    method MakeRoom()
      requires Valid()
      modifies `queue, `idx
      ensures Valid() && Frames(queue) < QUEUE_DEPTH
      ensures Frames(old(queue)) < QUEUE_DEPTH ==> queue == old(queue) && idx == old(idx)
      ensures Frames(old(queue)) == QUEUE_DEPTH ==>
        var p := FirstFrame(old(queue));
        && p < |old(queue)| && queue == RemoveAt(old(queue), p)
        && |consumed| + p < |old(idx)| && |idx| == |consumed| + |queue|
        && old(idx)[|consumed| + p] < |delivered|
        && forall k :: |consumed| <= k < |idx| && (consumed + queue)[k].Frame? ==> old(idx)[|consumed| + p] < idx[k]
    {
      hide Thinned, Traces, FirstFrame, RemoveAt, Frames, Increasing;
      ghost var kept := consumed + queue;
      TracesLength(delivered, kept, idx);
      var held := Drain();
      var frames := CountFrames(held);
      var surplus := if frames - (QUEUE_DEPTH - 1) > 0 then frames - (QUEUE_DEPTH - 1) else 0;
      if surplus == 0 { ThinnedZero(held); } else { ThinnedOne(held); }
      Refill(held, surplus);
      if surplus > 0 {
        ghost var p := FirstFrame(held);
        FirstFrameIs(held);
        assert kept[|consumed| + p] == held[p];
        TracesLess(delivered, kept, idx, |consumed| + p);
        RemoveAtConcat(consumed, held, p);
        DroppedIsOldest(delivered, consumed, held, idx, p);
        idx := RemoveAt(idx, |consumed| + p);
      }
    }

    /** The consumer's side: the oldest item, whatever it is. */
    method Get() returns (item: Item)
      requires Valid() && |queue| > 0
      modifies this
      ensures Valid() && delivered == old(delivered)
      ensures item == old(queue)[0] && queue == old(queue)[1..] && consumed == old(consumed) + [item]
    {
      item := queue[0];
      assert queue == [queue[0]] + queue[1..];
      FramesAppend([queue[0]], queue[1..]);
      assert consumed + queue == (consumed + [item]) + queue[1..];
      queue := queue[1..];
      consumed := consumed + [item];
    }

    method Drain() returns (held: seq<Item>)
      modifies `queue
      ensures held == old(queue) && queue == []
    {
      held := [];
      while |queue| > 0
        invariant held + queue == old(queue)
        decreases |queue|
      {
        held, queue := held + [queue[0]], queue[1..];
      }
    }

    method Refill(held: seq<Item>, surplus0: nat)
      requires queue == []
      modifies `queue
      ensures queue == Thinned(held, surplus0)
    {
      var surplus := surplus0;
      for k := 0 to |held|
        invariant queue + Thinned(held[k..], surplus) == Thinned(held, surplus0)
      {
        assert held[k..][0] == held[k] && held[k..][1..] == held[k + 1..];
        if surplus > 0 && held[k].Frame? {
          surplus := surplus - 1;
          continue;
        }
        assert queue + ([held[k]] + Thinned(held[k + 1..], surplus))
          == (queue + [held[k]]) + Thinned(held[k + 1..], surplus);
        queue := queue + [held[k]];
      }
    }
  }

  method CountFrames(items: seq<Item>) returns (n: nat)
    ensures n == Frames(items)
  {
    n := 0;
    for k := 0 to |items|
      invariant n == Frames(items[..k])
    {
      assert items[..k + 1][..k] == items[..k];
      if items[k].Frame? { n := n + 1; }
    }
    assert items[..|items|] == items;
  }

  lemma OneItem(payload: Item)
    ensures Frames([payload]) == if payload.Frame? then 1 else 0
  {
    assert [payload][..0] == [];
  }

  lemma FirstFrameIs(items: seq<Item>)
    requires FirstFrame(items) < |items|
    ensures items[FirstFrame(items)].Frame?
  {
  }

  lemma TracesLength(delivered: seq<Item>, kept: seq<Item>, idx: seq<nat>)
    requires Traces(delivered, kept, idx)
    ensures |idx| == |kept| && Increasing(idx) && forall k :: 0 <= k < |idx| ==> idx[k] < |delivered|
  {
  }

  /** The frame that goes was delivered before every frame that stays in the queue. */
  lemma DroppedIsOldest(delivered: seq<Item>, consumed: seq<Item>, held: seq<Item>, idx: seq<nat>, p: nat)
    requires Traces(delivered, consumed + held, idx) && p == FirstFrame(held) && p < |held|
    ensures |idx| == |consumed| + |held| && |RemoveAt(idx, |consumed| + p)| == |idx| - 1
    ensures forall k :: |consumed| <= k < |idx| - 1 && (consumed + RemoveAt(held, p))[k].Frame? ==>
      idx[|consumed| + p] < RemoveAt(idx, |consumed| + p)[k]
  {
    var rest, left := consumed + RemoveAt(held, p), RemoveAt(idx, |consumed| + p);
    TracesLength(delivered, consumed + held, idx);
    hide Traces, FirstFrame, RemoveAt, Frames;
    forall k | |consumed| <= k < |idx| - 1 && rest[k].Frame?
      ensures idx[|consumed| + p] < left[k]
    {
      RemoveAtIs(held, p, k - |consumed|);
      RemoveAtIs(idx, |consumed| + p, k);
    }
  }

  lemma RemoveAtConcat<T>(a: seq<T>, b: seq<T>, p: nat)
    requires p < |b|
    ensures RemoveAt(a + b, |a| + p) == a + RemoveAt(b, p) && |RemoveAt(b, p)| == |b| - 1
  {
  }

  lemma RemoveAtIs<T>(s: seq<T>, p: nat, q: nat)
    requires p < |s| && q < |s| - 1
    ensures |RemoveAt(s, p)| == |s| - 1 && RemoveAt(s, p)[q] == s[if q < p then q else q + 1]
  {
  }
}
