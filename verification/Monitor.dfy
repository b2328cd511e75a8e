/** The statistics (hydra/monitor.go): events applied one by one, in the order of the channel, to objects
    that are themselves the first events. */
module Monitor {
  import opened Prelude
  import opened Sender

  // ---- totals per tag ---------------------------------------------------------------

  datatype Totals = Totals(messages: int, size: int, sents: int)

  /** The sum of the events of one tag. */
  function SumFor(events: seq<SentEvent>, tag: bytes): Totals {
    if events == [] then Totals(0, 0, 0)
    else
      var t, e := SumFor(Front(events), tag), Last(events);
      if e.tag == tag then Totals(t.messages + e.messages, t.size + e.size, t.sents + e.sents) else t
  }

  predicate Mentions(events: seq<SentEvent>, tag: bytes) {
    exists e :: e in events && e.tag == tag
  }

  class SentStat {
    const tag: bytes
    var messages: int
    var size: int
    var sents: int

    constructor (e: SentEvent)
      ensures tag == e.tag && Value() == Totals(e.messages, e.size, e.sents)
    {
      tag, messages, size, sents := e.tag, e.messages, e.size, e.sents;
    }

    function Value(): Totals
      reads this
    {
      Totals(messages, size, sents)
    }
  }

  // ---- the receiver's counters ----------------------------------------------------------

  /** A `ReceiverStat` as it is sent. */
  datatype ReceiverEvent = ReceiverEvent(address: bytes, connections: int, messages: int, disposed: int,
                                         buffered: int, maxBufferMessages: int)

  /** What a `ReceiverStat` holds. */
  datatype Receiver = Receiver(address: bytes, connections: int, totalConnections: int, currentConnections: int,
                               messages: int, disposed: int, buffered: int, maxBufferMessages: int)

  /** The same for the object: it has the receiver's totals, which an event leaves at zero. */
  class ReceiverStat {
    var address: bytes
    var connections: int
    var totalConnections: int
    var currentConnections: int
    var messages: int
    var disposed: int
    var buffered: int
    var maxBufferMessages: int

    constructor (e: ReceiverEvent)
      ensures IsEvent(e)
    {
      address, connections, messages, disposed := e.address, e.connections, e.messages, e.disposed;
      buffered, maxBufferMessages := e.buffered, e.maxBufferMessages;
      totalConnections, currentConnections := 0, 0;
    }

    function Value(): Receiver
      reads this
    {
      Receiver(address, connections, totalConnections, currentConnections, messages, disposed, buffered,
               maxBufferMessages)
    }

    predicate IsEvent(e: ReceiverEvent)
      reads this
    {
      Value() == ApplyReceiver(None, e)
    }
  }

  /** The first event becomes the record, with its connection uncounted; the others are added to it. */
  function ApplyReceiver(r: Option<Receiver>, e: ReceiverEvent): Receiver {
    match r
    case None => Receiver(e.address, e.connections, 0, 0, e.messages, e.disposed, e.buffered, e.maxBufferMessages)
    case Some(r) =>
      r.(address := if e.address != [] then e.address else r.address,
         totalConnections := r.totalConnections + if e.connections > 0 then e.connections else 0,
         currentConnections := r.currentConnections + e.connections,
         messages := r.messages + e.messages,
         disposed := r.disposed + e.disposed,
         buffered := e.buffered)
  }

  function ReceiverAfter(events: seq<ReceiverEvent>): Option<Receiver> {
    if events == [] then None else Some(ApplyReceiver(ReceiverAfter(Front(events)), Last(events)))
  }

  /** The sums of the events' own numbers. */
  datatype Counts = Counts(connections: int, messages: int, disposed: int)

  function CountsOf(events: seq<ReceiverEvent>): Counts {
    if events == [] then Counts(0, 0, 0)
    else
      var c, e := CountsOf(Front(events)), Last(events);
      Counts(c.connections + e.connections, c.messages + e.messages, c.disposed + e.disposed)
  }

  /** The connections that the events open. */
  function OpenedBy(events: seq<ReceiverEvent>): int {
    if events == [] then 0
    else OpenedBy(Front(events)) + if Last(events).connections > 0 then Last(events).connections else 0
  }

  /** The last event that names an address. */
  predicate Names(events: seq<ReceiverEvent>, i: int) {
    0 <= i < |events| && events[i].address != [] && forall j :: i < j < |events| ==> events[j].address == []
  }

  /** The counters are the sums of the events, except that a connection in the very first event is missed:
      the current connections are the open ones exactly when the first event carries none. */
  lemma {:induction false} ReceiverTotals(events: seq<ReceiverEvent>)
    requires events != []
    ensures var r, c := ReceiverAfter(events).value, CountsOf(events);
            && r.messages == c.messages && r.disposed == c.disposed
            && r.currentConnections == c.connections - events[0].connections
            && (r.currentConnections == c.connections <==> events[0].connections == 0)
            && r.currentConnections <= r.totalConnections
            && r.totalConnections == OpenedBy(events) - OpenedBy(events[..1])
            && r.buffered == Last(events).buffered
            && r.maxBufferMessages == events[0].maxBufferMessages
            && (forall i :: Names(events, i) ==> r.address == events[i].address)
  {
    if |events| > 1 {
      ReceiverTotals(Front(events));
      assert Front(events)[..1] == events[..1];
      forall i | Names(events, i)
        ensures ReceiverAfter(events).value.address == events[i].address
      {
        assert i < |events| - 1 ==> Names(Front(events), i) && events[|events| - 1].address == [];
      }
    } else {
      assert Front(events) == [] && events[..1] == events;
    }
  }

  // ---- the shared object -----------------------------------------------------------------

  class Stats {
    var sent: map<bytes, SentStat>
    var receiver: ReceiverStat?
    ghost var history: seq<SentEvent>

    /** Each tag's object holds the sum of that tag's events, whichever event's object it is. */
    ghost predicate Valid()
      reads this, sent.Values
    {
      && (forall tag :: tag in sent <==> Mentions(history, tag))
      && (forall tag :: tag in sent ==> sent[tag].tag == tag && sent[tag].Value() == SumFor(history, tag))
    }

    constructor ()
      ensures Valid() && history == [] && sent == map[] && receiver == null
    {
      sent, receiver, history := map[], null, [];
    }

    /** `SentStat.ApplyTo` of an event object that was not applied before. */
    method ApplySent(s: SentStat)
      requires Valid() && s !in sent.Values
      modifies this`sent, this`history, sent.Values
      ensures Valid() && history == old(history) + [SentEvent(s.tag, old(s.messages), old(s.size), old(s.sents))]
      ensures sent.Values <= old(sent.Values) + {s}
    {
      hide Mentions;
      history := history + [SentEvent(s.tag, s.messages, s.size, s.sents)];
      MentionsSnoc(old(history), Last(history));
      assert Front(history) == old(history);
      if s.tag in sent {
        var kept := sent[s.tag];
        kept.messages := kept.messages + s.messages;
        kept.size := kept.size + s.size;
        kept.sents := kept.sents + s.sents;
      } else {
        SumUnmentioned(old(history), s.tag);
        sent := sent[s.tag := s];
      }
    }

    /** The receiver's record, if there is one. */
    function ReceiverValue(): Option<Receiver>
      reads this, receiver
    {
      if receiver == null then None else Some(receiver.Value())
    }

    /** `ReceiverStat.ApplyTo` of an event object that was not applied before. The first such object is
        itself the record from then on; the others are only read. */
    method ApplyReceiverStat(s: ReceiverStat, ghost e: ReceiverEvent)
      requires s.IsEvent(e) && s != receiver
      modifies this`receiver, receiver
      ensures ReceiverValue() == Some(ApplyReceiver(old(ReceiverValue()), e))
      ensures receiver == if old(receiver) == null then s else old(receiver)
      ensures s.IsEvent(e)
    {
      if receiver == null {
        receiver := s;
        return;
      }
      var rs := receiver;
      if s.address != [] {
        rs.address := s.address;
      }
      if s.connections > 0 {
        rs.totalConnections := rs.totalConnections + s.connections;
      }
      rs.currentConnections := rs.currentConnections + s.connections;
      rs.messages := rs.messages + s.messages;
      rs.disposed := rs.disposed + s.disposed;
      rs.buffered := s.buffered;
    }

    /** `Run` on the sender's events: distinct, fresh objects, as `outForwardRecieve` makes them. */
    method Run(events: seq<SentStat>)
      requires Valid()
      requires forall i :: 0 <= i < |events| ==> events[i] !in sent.Values
      requires forall i, j :: 0 <= i < j < |events| ==> events[i] != events[j]
      modifies this`sent, this`history, sent.Values, events
      ensures Valid() && |history| == |old(history)| + |events|
      ensures history[..|old(history)|] == old(history)
      ensures forall i :: 0 <= i < |events| ==>
                history[|old(history)| + i]
                == SentEvent(events[i].tag, old(events[i].messages), old(events[i].size), old(events[i].sents))
    {
      var i := 0;
      ghost var n := |history|;
      while i < |events|
        invariant 0 <= i <= |events| && Valid() && |history| == n + i && history[..n] == old(history)
        invariant forall o :: o in sent.Values ==> o in old(sent.Values) || o in events[..i]
        invariant forall k :: i <= k < |events| ==> unchanged(events[k]) && events[k] !in sent.Values
        invariant forall k :: 0 <= k < i ==>
                    history[n + k]
                    == SentEvent(events[k].tag, old(events[k].messages), old(events[k].size), old(events[k].sents))
      {
        ApplySent(events[i]);
        i := i + 1;
      }
    }
  }

  lemma MentionsSnoc(events: seq<SentEvent>, e: SentEvent)
    ensures forall tag :: Mentions(events + [e], tag) <==> Mentions(events, tag) || e.tag == tag
  {
    forall tag
      ensures Mentions(events + [e], tag) <==> Mentions(events, tag) || e.tag == tag
    {
      if e.tag == tag {
        assert e in events + [e];
      } else if Mentions(events, tag) {
        var x :| x in events && x.tag == tag;
        assert x in events + [e];
      }
    }
  }

  lemma {:induction false} SumUnmentioned(events: seq<SentEvent>, tag: bytes)
    requires !Mentions(events, tag)
    ensures SumFor(events, tag) == Totals(0, 0, 0)
  {
    if events != [] {
      assert Last(events) in events && forall e <- Front(events) :: e in events;
      SumUnmentioned(Front(events), tag);
    }
  }

  /** The receiver's events applied one after the other, distinct objects as the receiver makes them: the
      record is the fold of all of them, and it is the first one's object. */
  method RunReceiver(stats: Stats, events: seq<ReceiverStat>, ghost es: seq<ReceiverEvent>)
    requires stats.receiver == null && |es| == |events|
    requires forall i :: 0 <= i < |events| ==> events[i].IsEvent(es[i])
    requires forall i, j :: 0 <= i < j < |events| ==> events[i] != events[j]
    modifies stats`receiver, events
    ensures stats.ReceiverValue() == ReceiverAfter(es)
    ensures events != [] ==> stats.receiver == events[0]
  {
    var i := 0;
    while i < |events|
      invariant 0 <= i <= |events| && stats.ReceiverValue() == ReceiverAfter(es[..i])
      invariant stats.receiver == if i == 0 then null else events[0]
      invariant forall k :: i <= k < |events| ==> events[k].IsEvent(es[k])
    {
      stats.ApplyReceiverStat(events[i], es[i]);
      assert Front(es[..i + 1]) == es[..i];
      i := i + 1;
    }
    assert es[..i] == es;
  }
}
