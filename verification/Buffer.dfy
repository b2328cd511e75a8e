/** The receiver's bounded queue (hydra/buffer.go): it drops the oldest record sets to make room
    and keeps the number of queued records in a counter. */
module Buffer {
  import opened Prelude
  import opened PackedForward

  function Size(rs: RecordSet): nat {
    |rs.records|
  }

  function Total(sets: seq<RecordSet>): nat {
    if sets == [] then 0 else Size(sets[0]) + Total(sets[1..])
  }

  lemma {:induction false} TotalConcat(a: seq<RecordSet>, b: seq<RecordSet>)
    ensures Total(a + b) == Total(a) + Total(b)
  {
    if a == [] {
      assert a + b == b;
    } else {
      assert (a + b)[1..] == a[1..] + b;
      TotalConcat(a[1..], b);
    }
  }

  lemma TotalOne(rs: RecordSet)
    ensures Total([rs]) == Size(rs)
  {
  }

  // ---- the queue as a value, with its history -------------------------------------

  /** The list and the counter, and what went in and out: `removed` is everything disposed or
      dequeued, in the order it left. */
  datatype Queue = Queue(list: seq<RecordSet>, messages: int,
                         enqueued: seq<RecordSet>, removed: seq<RecordSet>,
                         disposed: seq<RecordSet>, dequeued: seq<RecordSet>)

  datatype Op = Enqueue(rs: RecordSet) | Dequeue

  const EMPTY: Queue := Queue([], 0, [], [], [], [])

  /** Drop the first set, as one turn of the disposal loop does. */
  function DropFirst(q: Queue): Queue
    requires q.list != []
  {
    q.(list := q.list[1..], messages := q.messages - Size(q.list[0]),
       removed := q.removed + [q.list[0]], disposed := q.disposed + [q.list[0]])
  }

  function MakeRoom(q: Queue, size: nat, maxMessages: int): Queue
    decreases |q.list|
  {
    if q.messages + size > maxMessages && q.list != [] then MakeRoom(DropFirst(q), size, maxMessages) else q
  }

  function Step(q: Queue, op: Op, maxMessages: int): Queue {
    match op
    case Enqueue(rs) =>
      var room := MakeRoom(q, Size(rs), maxMessages);
      room.(list := room.list + [rs], messages := room.messages + Size(rs), enqueued := room.enqueued + [rs])
    case Dequeue =>
      if q.list == [] then q.(messages := 0)
      else q.(list := q.list[1..], messages := q.messages - Size(q.list[0]),
              removed := q.removed + [q.list[0]], dequeued := q.dequeued + [q.list[0]])
  }

  function Run(ops: seq<Op>, maxMessages: int): Queue {
    if ops == [] then EMPTY else Step(Run(Front(ops), maxMessages), Last(ops), maxMessages)
  }

  /** Nothing is lost or reordered, and the counter is exact. */
  predicate Conserved(q: Queue) {
    && q.removed + q.list == q.enqueued
    && q.messages == Total(q.list)
    && Total(q.enqueued) == Total(q.disposed) + Total(q.dequeued) + q.messages
    && multiset(q.removed) == multiset(q.disposed) + multiset(q.dequeued)
  }

  /** More records than allowed are queued only as one single set. */
  predicate Bounded(q: Queue, maxMessages: int) {
    |q.list| >= 2 ==> q.messages <= maxMessages
  }

  lemma LeaveKeeps(q: Queue, q': Queue)
    requires Conserved(q) && q.list != []
    requires q'.list == q.list[1..] && q'.messages == q.messages - Size(q.list[0]) && q'.enqueued == q.enqueued
    requires q'.removed == q.removed + [q.list[0]]
    requires (q'.disposed, q'.dequeued) == (q.disposed + [q.list[0]], q.dequeued)
          || (q'.disposed, q'.dequeued) == (q.disposed, q.dequeued + [q.list[0]])
    ensures Conserved(q')
  {
    assert q.list == [q.list[0]] + q.list[1..];
    assert q'.removed + q'.list == q.removed + q.list;
    TotalOne(q.list[0]);
    TotalConcat(q.disposed, [q.list[0]]);
    TotalConcat(q.dequeued, [q.list[0]]);
  }

  /** Of `q`, the first `k` sets were disposed, and no fewer would have left room for `size`. */
  predicate MadeRoom(q: Queue, room: Queue, k: nat, size: nat, maxMessages: int) {
    && k <= |q.list| && room.list == q.list[k..] && Conserved(room)
    && room.disposed == q.disposed + q.list[..k] && room.dequeued == q.dequeued && room.enqueued == q.enqueued
    && (k == |q.list| || Total(room.list) + size <= maxMessages)
    && forall j :: 0 <= j < k ==> Total(q.list[j..]) + size > maxMessages
  }

  lemma MadeRoomOneMore(q: Queue, room: Queue, k: nat, size: nat, maxMessages: int)
    requires q.list != [] && Total(q.list) + size > maxMessages
    requires MadeRoom(DropFirst(q), room, k, size, maxMessages)
    ensures MadeRoom(q, room, k + 1, size, maxMessages)
  {
    hide Total, Conserved;
    var tail := q.list[1..];
    assert tail[k..] == q.list[k + 1..];
    assert q.disposed + [q.list[0]] + tail[..k] == q.disposed + q.list[..k + 1];
    forall j | 0 <= j < k + 1
      ensures Total(q.list[j..]) + size > maxMessages
    {
      if j == 0 {
        assert q.list[0..] == q.list;
      } else {
        assert q.list[j..] == tail[j - 1..];
      }
    }
  }

  /** Making room drops the shortest prefix that helps. */
  lemma {:induction false} MakeRoomLeast(q: Queue, size: nat, maxMessages: int) returns (k: nat)
    requires Conserved(q)
    ensures MadeRoom(q, MakeRoom(q, size, maxMessages), k, size, maxMessages)
    decreases |q.list|
  {
    if q.messages + size > maxMessages && q.list != [] {
      LeaveKeeps(q, DropFirst(q));
      k := MakeRoomLeast(DropFirst(q), size, maxMessages);
      MadeRoomOneMore(q, MakeRoom(q, size, maxMessages), k, size, maxMessages);
      k := k + 1;
    } else {
      k := 0;
      assert q.list[..0] == [] && q.list[0..] == q.list && q.disposed + [] == q.disposed;
    }
  }

  /** What one Enqueue does, in full: it disposes the least prefix (everything, if even that does not
      make the set fit), and the set goes in at the back in any case. */
  lemma EnqueueMinimal(q: Queue, rs: RecordSet, maxMessages: int) returns (k: nat)
    requires Conserved(q)
    ensures var q' := Step(q, Enqueue(rs), maxMessages);
            && k <= |q.list| && q'.list == q.list[k..] + [rs]
            && q'.disposed == q.disposed + q.list[..k]
            && (k == |q.list| || Total(q'.list) <= maxMessages)
            && (forall j :: 0 <= j < k ==> Total(q.list[j..] + [rs]) > maxMessages)
            && Conserved(q') && Bounded(q', maxMessages)
  {
    hide MakeRoom;
    k := MakeRoomLeast(q, Size(rs), maxMessages);
    TotalOne(rs);
    TotalConcat(q.list[k..], [rs]);
    TotalConcat(q.enqueued, [rs]);
    forall j | 0 <= j < k
      ensures Total(q.list[j..] + [rs]) > maxMessages
    {
      TotalConcat(q.list[j..], [rs]);
    }
    var room := MakeRoom(q, Size(rs), maxMessages);
    assert room.removed + (room.list + [rs]) == room.removed + room.list + [rs];
  }

  /** Every run from the empty queue conserves the records and respects the bound; so the reset of the
      counter on an empty Dequeue changes nothing. */
  lemma {:induction false} EveryQueueRun(ops: seq<Op>, maxMessages: int)
    ensures var q := Run(ops, maxMessages);
            && Conserved(q) && Bounded(q, maxMessages)
            && (q.list == [] ==> Step(q, Dequeue, maxMessages) == q)
            && (maxMessages >= 0 ==> q.messages <= maxMessages || |q.list| == 1)
  {
    if ops != [] {
      var q := Run(Front(ops), maxMessages);
      EveryQueueRun(Front(ops), maxMessages);
      match Last(ops)
      case Enqueue(rs) =>
        var k := EnqueueMinimal(q, rs, maxMessages);
      case Dequeue =>
        if q.list != [] {
          LeaveKeeps(q, Step(q, Dequeue, maxMessages));
        }
    }
  }

  // ---- what goes in and what comes out, seen from outside ----------------------------------

  /** Of `before`, the least front part that makes room for `rs` was dropped, and `rs` stands behind the rest. */
  predicate Enqueued(before: seq<RecordSet>, rs: RecordSet, after: seq<RecordSet>, k: nat, maxMessages: int) {
    && k <= |before| && after == before[k..] + [rs]
    && (k == |before| || Total(after) <= maxMessages)
    && forall j :: 0 <= j < k ==> Total(before[j..] + [rs]) > maxMessages
  }

  /** A Dequeue takes the front set out, and nothing else; on an empty queue it does nothing. */
  lemma DequeueTakesFront(q: Queue, maxMessages: int)
    requires Conserved(q)
    ensures var q' := Step(q, Dequeue, maxMessages);
            && q'.enqueued == q.enqueued && q'.disposed == q.disposed
            && (q.list == [] ==> q'.list == [] && q'.messages == 0 && q'.dequeued == q.dequeued)
            && (q.list != [] ==>
                  && q'.list == q.list[1..] && q'.messages == q.messages - |q.list[0].records|
                  && q'.dequeued == q.dequeued + [q.list[0]])
  {
  }

  lemma EnqueueTakesIn(q: Queue, rs: RecordSet, maxMessages: int)
    requires Conserved(q)
    ensures var q' := Step(q, Enqueue(rs), maxMessages);
            q'.enqueued == q.enqueued + [rs] && q'.dequeued == q.dequeued
  {
    hide Conserved, Total;
    var k := MakeRoomLeast(q, Size(rs), maxMessages);
  }

  lemma Balance(q: Queue)
    requires Conserved(q)
    ensures Total(q.enqueued) == Total(q.disposed) + Total(q.dequeued) + Total(q.list)
  {
  }

  /** What a run's Enqueues were given, and what its Dequeues returned. */
  function Given(ops: seq<Op>): seq<RecordSet> {
    if ops == [] then []
    else Given(Front(ops)) + if Last(ops).Enqueue? then [Last(ops).rs] else []
  }

  function Returned(ops: seq<Op>, maxMessages: int): seq<RecordSet> {
    if ops == [] then []
    else
      var q := Run(Front(ops), maxMessages);
      Returned(Front(ops), maxMessages) + if Last(ops).Dequeue? && q.list != [] then [q.list[0]] else []
  }

  /** In every run the accounts are about just those: everything given was disposed of, or returned by a
      Dequeue, once and in order, or is still queued. */
  lemma {:induction false} GivenAndReturned(ops: seq<Op>, maxMessages: int)
    ensures var q := Run(ops, maxMessages);
            && q.enqueued == Given(ops) && q.dequeued == Returned(ops, maxMessages)
            && Total(Given(ops)) == Total(q.disposed) + Total(Returned(ops, maxMessages)) + Total(q.list)
  {
    hide Conserved, Bounded, Total, Step;
    EveryQueueRun(ops, maxMessages);
    Balance(Run(ops, maxMessages));
    if ops == [] {
      assert Run(ops, maxMessages) == EMPTY;
    } else {
      var q := Run(Front(ops), maxMessages);
      GivenAndReturned(Front(ops), maxMessages);
      EveryQueueRun(Front(ops), maxMessages);
      match Last(ops)
      case Enqueue(rs) => EnqueueTakesIn(q, rs, maxMessages);
      case Dequeue => DequeueTakesFront(q, maxMessages);
    }
  }

  // ---- the queue as the receiver holds it -----------------------------------------------

  class MessageQueue {
    var list: seq<RecordSet>
    var messages: int
    const maxMessages: int
    ghost var history: Queue  // this queue as a value

    ghost predicate Valid()
      reads this
    {
      history.list == list && history.messages == messages && Conserved(history)
    }

    constructor (maxMessages: int)
      ensures Valid() && history == EMPTY && this.maxMessages == maxMessages
    {
      this.list, this.messages, this.maxMessages := [], 0, maxMessages;
      history := EMPTY;
    }

    method Enqueue(rs: RecordSet) returns (disposed: int)
      requires Valid()
      modifies this
      ensures Valid() && history == Step(old(history), Op.Enqueue(rs), maxMessages)
      ensures disposed == Total(history.disposed) - Total(old(history.disposed)) >= 0
      ensures exists k: nat :: k <= |old(list)| && Enqueued(old(list), rs, list, k, maxMessages)
                               && disposed == Total(old(list)[..k])
    {
      hide Conserved, Total, MadeRoom, Bounded;
      var size := |rs.records|;
      ghost var k := EnqueueMinimal(history, rs, maxMessages);
      TotalConcat(history.disposed, history.list[..k]);
      disposed := 0;
      while messages + size > maxMessages && |list| > 0
        invariant Valid()
        invariant MakeRoom(history, size, maxMessages) == MakeRoom(old(history), size, maxMessages)
        invariant disposed == Total(history.disposed) - Total(old(history.disposed)) >= 0
        decreases |list|
      {
        TotalOne(list[0]);
        TotalConcat(history.disposed, [list[0]]);
        LeaveKeeps(history, DropFirst(history));
        history := DropFirst(history);
        var first := Dequeue1();
        disposed := disposed + |first.records|;
        messages := messages - |first.records|;
      }
      list := list + [rs];
      messages := messages + size;
      history := Step(old(history), Op.Enqueue(rs), maxMessages);
      assert Enqueued(old(list), rs, list, k, maxMessages);
    }

    method Dequeue() returns (rs: Option<RecordSet>)
      requires Valid()
      modifies this
      ensures Valid() && history == Step(old(history), Op.Dequeue, maxMessages)
      ensures rs == if old(list) == [] then None else Some(old(list)[0])
      ensures old(list) == [] ==> list == [] && messages == 0 && history.dequeued == old(history.dequeued)
      ensures old(list) != [] ==>
                && list == old(list)[1..] && messages == old(messages) - |old(list)[0].records|
                && history.dequeued == old(history.dequeued) + [old(list)[0]]
    {
      history := Step(history, Op.Dequeue, maxMessages);
      if |list| == 0 {
        messages := 0;
        return None;
      }
      LeaveKeeps(old(history), history);
      var first := Dequeue1();
      messages := messages - |first.records|;
      rs := Some(first);
    }

    /** `list.Remove(list.Front())`. */
    method Dequeue1() returns (first: RecordSet)
      requires |list| > 0
      modifies this`list
      ensures first == old(list)[0] && list == old(list)[1..]
    {
      first := list[0];
      list := list[1..];
    }

    method Len() returns (n: int)
      requires Valid()
      ensures n == Total(list)
    {
      n := messages;
    }
  }

  /** Any sequence of operations on a new queue: what the Dequeues returned, in order, is what the accounts
      call dequeued. */
  method Perform(ops: seq<Op>, maxMessages: int) returns (queue: MessageQueue, returned: seq<RecordSet>)
    ensures fresh(queue) && queue.Valid() && queue.history == Run(ops, maxMessages)
    ensures returned == queue.history.dequeued == Returned(ops, maxMessages)
    ensures queue.history.enqueued == Given(ops)
  {
    hide Conserved, Total, Step, Enqueued;
    queue := new MessageQueue(maxMessages);
    returned := [];
    for i := 0 to |ops|
      invariant fresh(queue) && queue.Valid() && queue.history == Run(ops[..i], maxMessages)
      invariant queue.maxMessages == maxMessages && returned == queue.history.dequeued
    {
      assert Front(ops[..i + 1]) == ops[..i] && Last(ops[..i + 1]) == ops[i];
      match ops[i]
      case Enqueue(rs) =>
        EnqueueTakesIn(queue.history, rs, maxMessages);
        var _ := queue.Enqueue(rs);
      case Dequeue =>
        var rs := queue.Dequeue();
        returned := returned + if rs.Some? then [rs.value] else [];
    }
    assert ops[..|ops|] == ops;
    GivenAndReturned(ops, maxMessages);
  }
}
