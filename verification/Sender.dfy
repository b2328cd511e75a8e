/** The sender (hydra/out_forward.go): rotation, ordered failover and retry until accepted. A logger is
    known by its number in the server list; what it answers in each pass is up to the network. */
module Sender {
  import opened Prelude
  import opened GoSlice
  import opened Msgpack

  /** `IsReconnecting()`, or else the outcome of `Send`. */
  datatype Answer = Reconnecting | SendFails | Accepts

  /** What each logger answers in one pass. */
  type Answers = nat -> Answer

  /** What one delivery reports to the statistics. */
  datatype SentEvent = SentEvent(tag: bytes, messages: int, size: int, sents: int)

  // ---- what a delivery is -------------------------------------------------------------

  function Rotated(loggers: seq<nat>, index: nat): seq<nat>
    requires index <= |loggers|
  {
    loggers[index..] + loggers[..index]
  }

  /** The order in which a pass asks the loggers. */
  function Order(loggers: seq<nat>, sent: nat, roundRobin: bool): (order: seq<nat>)
    requires roundRobin ==> |loggers| > 0
    ensures |order| == |loggers|
  {
    if roundRobin then Rotated(loggers, sent % |loggers|) else loggers
  }

  /** `net[p]` is what the loggers answer in pass `p`: the record set is accepted in the first pass in
      which anyone accepts, by the first in `order` to do so. */
  predicate Delivered(order: seq<nat>, net: seq<Answers>, pass: nat, at: nat) {
    && pass < |net| && at < |order| && net[pass](order[at]) == Accepts
    && (forall i :: 0 <= i < at ==> net[pass](order[i]) != Accepts)
    && (forall p :: 0 <= p < pass ==> NoneAccepts(order, net[p]))
  }

  predicate NoneAccepts(order: seq<nat>, answers: Answers) {
    forall i :: 0 <= i < |order| ==> answers(order[i]) != Accepts
  }

  /** At most one delivery fits a network's answers. */
  lemma DeliveredOnce(order: seq<nat>, net: seq<Answers>, p: nat, at: nat, p': nat, at': nat)
    requires Delivered(order, net, p, at) && Delivered(order, net, p', at')
    ensures p == p' && at == at'
  {
    SomeoneAccepts(order, net[p], at);
    SomeoneAccepts(order, net[p'], at');
  }

  /** One after the other, along the order and round it again, the loggers have given these answers. */
  predicate Answered(order: seq<nat>, net: seq<Answers>, answers: seq<Answer>)
    requires order != []
  {
    forall q: nat :: q < |answers| ==> AnsweredAt(order, net, answers, q)
  }

  predicate AnsweredAt(order: seq<nat>, net: seq<Answers>, answers: seq<Answer>, q: nat)
    requires order != [] && q < |answers|
  {
    var n := |order|;
    q / n < |net| && net[q / n](order[q % n]) == answers[q]
  }

  /** Asking one logger at a time until one accepts makes the one delivery that fits the answers: in pass
      r / n, by the logger at position r mod n, after r refusals. */
  lemma DeliveredBy(order: seq<nat>, net: seq<Answers>, refused: seq<Answer>)
    requires order != [] && Answered(order, net, refused + [Accepts])
    requires Accepts !in refused
    ensures var r, n := |refused|, |order|;
            forall pass: nat, at: nat :: Delivered(order, net, pass, at) <==> pass == r / n && at == r % n
  {
    var pass, at := |refused| / |order|, |refused| % |order|;
    PassAndPlace(|refused|, |order|);
    hide Answered;
    DeliveredHere(order, net, refused, pass, at);
    forall p: nat, i: nat | Delivered(order, net, p, i)
      ensures p == pass && i == at
    {
      DeliveredOnce(order, net, p, i, pass, at);
    }
  }

  lemma DeliveredHere(order: seq<nat>, net: seq<Answers>, refused: seq<Answer>, pass: nat, at: nat)
    requires order != [] && Answered(order, net, refused + [Accepts]) && Accepts !in refused
    requires at < |order| && pass * |order| + at == |refused|
    ensures Delivered(order, net, pass, at)
  {
    hide Answered;
    AnsweredInTurn(order, net, refused + [Accepts], pass, at);
    forall i | 0 <= i < at
      ensures net[pass](order[i]) != Accepts
    {
      AnsweredInTurn(order, net, refused + [Accepts], pass, i);
    }
    forall p: nat | p < pass
      ensures p < |net| && NoneAccepts(order, net[p])
    {
      RefusedBefore(order, net, refused, pass, at, p);
    }
  }

  lemma RefusedBefore(order: seq<nat>, net: seq<Answers>, refused: seq<Answer>, pass: nat, at: nat, p: nat)
    requires order != [] && Answered(order, net, refused + [Accepts]) && Accepts !in refused
    requires at < |order| && pass * |order| + at == |refused| && p < pass
    ensures p < |net| && NoneAccepts(order, net[p])
  {
    hide Answered;
    PassBefore(p, 0, pass, at, |order|);
    AnsweredInTurn(order, net, refused + [Accepts], p, 0);
    forall i | 0 <= i < |order|
      ensures net[p](order[i]) != Accepts
    {
      PassBefore(p, i, pass, at, |order|);
      AnsweredInTurn(order, net, refused + [Accepts], p, i);
    }
  }

  lemma AnsweredInTurn(order: seq<nat>, net: seq<Answers>, answers: seq<Answer>, p: nat, i: nat)
    requires order != [] && Answered(order, net, answers) && i < |order| && p * |order| + i < |answers|
    ensures p < |net| && net[p](order[i]) == answers[p * |order| + i]
  {
    DivModUnique(p * |order| + i, |order|, p, i);
    assert AnsweredAt(order, net, answers, p * |order| + i);
  }

  lemma PassBefore(p: nat, i: nat, pass: nat, at: nat, n: nat)
    requires i < n && p < pass
    ensures p * n + i < pass * n + at
  {
    Multiple(n, pass - p);
    assert pass * n == p * n + n * (pass - p);
  }

  function IndexOf(order: seq<nat>, logger: nat): (i: nat)
    requires logger in order
    ensures i < |order| && order[i] == logger
  {
    if order[0] == logger then 0 else 1 + IndexOf(order[1..], logger)
  }

  /** Such a network exists for every sequence of answers, as no logger is twice in the order. */
  lemma SomeNetwork(order: seq<nat>, answers: seq<Answer>) returns (net: seq<Answers>)
    requires order != [] && forall i, j :: 0 <= i < j < |order| ==> order[i] != order[j]
    ensures Answered(order, net, answers)
  {
    net := Network(order, answers);
    hide AnsweredAt, Network;
    forall q: nat | q < |answers|
      ensures AnsweredAt(order, net, answers, q)
    {
      NetworkAnswers(order, answers, q);
    }
  }

  function Network(order: seq<nat>, answers: seq<Answer>): seq<Answers> {
    seq(|answers|, (p: nat) => (logger: nat) => Reply(order, answers, p, logger))
  }

  lemma NetworkAnswers(order: seq<nat>, answers: seq<Answer>, q: nat)
    requires order != [] && forall i, j :: 0 <= i < j < |order| ==> order[i] != order[j]
    requires q < |answers|
    ensures AnsweredAt(order, Network(order, answers), answers, q)
  {
    hide Reply;
    ReplyFits(order, answers, q);
  }

  /** In pass `p` each logger answers as it did when its turn came, if it did. */
  function Reply(order: seq<nat>, answers: seq<Answer>, p: nat, logger: nat): Answer {
    if logger in order && p * |order| + IndexOf(order, logger) < |answers|
    then answers[p * |order| + IndexOf(order, logger)] else Reconnecting
  }

  lemma ReplyFits(order: seq<nat>, answers: seq<Answer>, q: nat)
    requires order != [] && forall i, j :: 0 <= i < j < |order| ==> order[i] != order[j]
    requires q < |answers|
    ensures q / |order| <= q && Reply(order, answers, q / |order|, order[q % |order|]) == answers[q]
  {
    hide IndexOf;
    PassAndPlace(q, |order|);
    ReplyInTurn(order, answers, q / |order|, q % |order|);
  }

  lemma PassAndPlace(q: nat, n: nat)
    requires n > 0
    ensures q % n < n && q / n * n + q % n == q && q / n <= q
  {
    Multiple(n - 1, q / n);
  }

  lemma ReplyInTurn(order: seq<nat>, answers: seq<Answer>, p: nat, i: nat)
    requires forall i, j :: 0 <= i < j < |order| ==> order[i] != order[j]
    requires i < |order| && p * |order| + i < |answers|
    ensures Reply(order, answers, p, order[i]) == answers[p * |order| + i]
  {
    hide IndexOf;
    assert IndexOf(order, order[i]) == i;
  }

  lemma SomeoneAccepts(order: seq<nat>, answers: Answers, at: nat)
    requires at < |order| && answers(order[at]) == Accepts
    ensures !NoneAccepts(order, answers)
  {
  }

  /** `0, 1, ..., n-1`: the loggers as configured. */
  function Servers(n: nat): seq<nat> {
    seq(n, i => i)
  }

  /** The logger `d` places after the one whose turn it is. */
  function Turn(n: nat, sent: nat, d: nat): nat
    requires n > 0
  {
    (sent + d) % n
  }

  /** Position `d` of the rotated order holds logger (sent + d) mod n. */
  lemma RotationIsCyclic(n: nat, sent: nat, d: nat)
    requires d < n
    ensures |Order(Servers(n), sent, true)| == n && Order(Servers(n), sent, true)[d] == Turn(n, sent, d)
  {
    var k, q := sent % n, sent / n;
    assert sent == n * q + k;
    if d < n - k {
      assert sent + d == n * q + (k + d);
      DivModUnique(sent + d, n, q, k + d);
    } else {
      assert sent + d == n * (q + 1) + (k + d - n);
      DivModUnique(sent + d, n, q + 1, k + d - n);
    }
  }

  /** The order holds every logger once, so a pass tries none twice. */
  lemma OrderIsPermutation(n: nat, sent: nat, roundRobin: bool)
    requires roundRobin ==> n > 0
    ensures var order := Order(Servers(n), sent, roundRobin);
            && multiset(order) == multiset(Servers(n))
            && forall i, j :: 0 <= i < j < |order| ==> order[i] != order[j]
  {
    if roundRobin {
      var k := sent % n;
      var all := Servers(n);
      assert all == all[..k] + all[k..];
      assert Order(all, sent, true) == all[k..] + all[..k];
    }
  }

  /** The accepting logger in closed form: the first, in cyclic order from sent mod n, that accepts. */
  lemma FailoverIsCyclic(n: nat, sent: nat, net: seq<Answers>, pass: nat, at: nat)
    requires pass < |net| && at < n
    ensures Delivered(Order(Servers(n), sent, true), net, pass, at) <==>
              && net[pass](Turn(n, sent, at)) == Accepts
              && (forall d: nat :: d < at ==> net[pass](Turn(n, sent, d)) != Accepts)
              && (forall p, i: nat :: 0 <= p < pass && i < n ==> net[p](i) != Accepts)
  {
    var order := Order(Servers(n), sent, true);
    forall d: nat | d < n
      ensures |order| == n && order[d] == Turn(n, sent, d)
    {
      RotationIsCyclic(n, sent, d);
    }
    OrderReachesAll(n, sent);
    hide Order, Turn, Servers;
    RotationIsCyclic(n, sent, at);
    forall p | 0 <= p < pass
      ensures NoneAccepts(order, net[p]) <==> forall i: nat :: i < n ==> net[p](i) != Accepts
    {
      NoneOfAll(order, net[p], n);
    }
  }

  lemma NoneOfAll(order: seq<nat>, answers: Answers, n: nat)
    requires forall i: nat :: i < n ==> i in order
    requires forall i :: 0 <= i < |order| ==> order[i] < n
    ensures NoneAccepts(order, answers) <==> forall i: nat :: i < n ==> answers(i) != Accepts
  {
    if NoneAccepts(order, answers) {
      forall i: nat | i < n
        ensures answers(i) != Accepts
      {
        assert i in order;
      }
    }
  }

  lemma OrderReachesAll(n: nat, sent: nat)
    requires n > 0
    ensures forall i: nat :: i < n ==> i in Order(Servers(n), sent, true)
    ensures forall i :: 0 <= i < n ==> |Order(Servers(n), sent, true)| == n && Order(Servers(n), sent, true)[i] < n
  {
    var order := Order(Servers(n), sent, true);
    OrderIsPermutation(n, sent, true);
    forall i: nat | i < n
      ensures i in order
    {
      assert Servers(n)[i] == i;
      assert i in multiset(Servers(n));
      assert i in multiset(order);
    }
  }

  // ---- fairness ---------------------------------------------------------------------------

  /** How many of the record sets, each with the server that took it, went to server `j`. */
  function Received(servers: seq<nat>, j: nat): nat {
    if servers == [] then 0 else Received(Front(servers), j) + if Last(servers) == j then 1 else 0
  }

  /** When every server accepts, the first in the order takes it, in the first pass. */
  lemma FirstTakesIt(order: seq<nat>, net: seq<Answers>, pass: nat, at: nat)
    requires order != [] && net != [] && forall i: nat :: net[0](i) == Accepts
    ensures Delivered(order, net, pass, at) <==> pass == 0 && at == 0
  {
    SomeoneAccepts(order, net[0], 0);
  }

  /** When record set k goes to server k mod n, no server is ever more than one set ahead. */
  lemma {:induction false} RoundRobinFair(servers: seq<nat>, n: nat, j: nat)
    requires j < n && forall k :: 0 <= k < |servers| ==> servers[k] == k % n
    ensures Received(servers, j) == |servers| / n + if j < |servers| % n then 1 else 0
  {
    if servers == [] {
      DivModUnique(0, n, 0, 0);
    } else {
      RoundRobinFair(Front(servers), n, j);
      Share(n, |servers| - 1, j);
    }
  }

  /** The share of server `j` grows by one exactly when it is its turn. */
  lemma Share(n: nat, k: nat, j: nat)
    requires j < n
    ensures (k + 1) / n + (if j < (k + 1) % n then 1 else 0)
         == k / n + (if j < k % n then 1 else 0) + if k % n == j then 1 else 0
  {
    NextDivMod(k, n);
  }

  lemma NextDivMod(k: nat, n: nat)
    requires n > 0
    ensures k % n + 1 < n ==> (k + 1) / n == k / n && (k + 1) % n == k % n + 1
    ensures k % n + 1 == n ==> (k + 1) / n == k / n + 1 && (k + 1) % n == 0
  {
    var q, r := k / n, k % n;
    assert k == n * q + r;
    if r + 1 < n {
      DivModUnique(k + 1, n, q, r + 1);
    } else {
      assert k + 1 == n * (q + 1);
      DivModUnique(k + 1, n, q + 1, 0);
    }
  }

  // ---- the sender -------------------------------------------------------------------------

  class OutForward {
    const loggers: Slice<nat>
    const roundRobin: bool
    var sent: nat
    var monitor: seq<SentEvent>  // what went to monitorCh

    /** Built by `make([]*fluent.Fluent, n)`: the loggers' slice has no spare capacity. */
    ghost predicate Valid()
      reads this, loggers.arr
    {
      loggers.Valid() && loggers.cap == loggers.len && (roundRobin ==> loggers.len > 0)
    }

    constructor (n: nat, roundRobin: bool)
      requires roundRobin ==> n > 0
      ensures Valid() && loggers.Contents() == Servers(n) && this.roundRobin == roundRobin
      ensures sent == 0 && monitor == [] && fresh(loggers.arr)
    {
      var slice := Make<nat>(n);
      Copy(slice, Servers(n));
      this.loggers, this.roundRobin, this.sent, this.monitor := slice, roundRobin, 0, [];
    }

    /** The order of one pass. The rotation appends to a slice without spare capacity, so it copies
        and the configured order stays as it was. */
    method BuildOrder() returns (order: Slice<nat>)
      requires Valid()
      modifies loggers.arr
      ensures Valid() && loggers.arr[..] == old(loggers.arr[..])
      ensures order.Valid() && order.Contents() == Order(loggers.Contents(), sent, roundRobin)
    {
      hide Rotated;
      if roundRobin {
        order := Rotate(sent % loggers.len);
      } else {
        order := loggers;
      }
    }

    /** `append(loggers[index:], loggers[:index]...)`. */
    method Rotate(index: nat) returns (order: Slice<nat>)
      requires Valid() && index < loggers.len
      modifies loggers.arr
      ensures loggers.arr[..] == old(loggers.arr[..]) && loggers.Contents() == old(loggers.Contents())
      ensures order.Valid() && order.Contents() == Rotated(loggers.Contents(), index)
    {
      loggers.SubContents(index, loggers.len);
      loggers.SubContents(0, index);
      order := loggers.Sub(index, loggers.len);
      var front := loggers.arr[loggers.off..loggers.off + index];
      assert order.cap == order.len && |front| == index;
      order := Append(order, front);
    }

    /** `outForwardRecieve` for one record set: pass after pass until a logger accepts; `None` while the
        answers known so far hold no acceptance. `tried` are the loggers that each pass sent to. */
    method OutForwardRecieve(rs: MessageSet, enableEventTime: bool, net: seq<Answers>)
      returns (accepted: Option<(nat, nat)>, packed: bytes, tried: seq<seq<nat>>)
      requires Valid()
      modifies this`sent, this`monitor, loggers.arr
      ensures Valid() && loggers.arr[..] == old(loggers.arr[..])
      ensures packed == PackSet(rs.tag, PackBody(rs.records, enableEventTime))
      ensures match accepted
              case Some((pass, at)) =>
                && Delivered(Order(loggers.Contents(), old(sent), roundRobin), net, pass, at)
                && sent == old(sent) + 1
                && monitor == old(monitor) + [SentEvent(rs.tag, |rs.records|, |packed|, 1)]
              case None =>
                && sent == old(sent) && monitor == old(monitor)
                && forall p :: 0 <= p < |net| ==> NoneAccepts(Order(loggers.Contents(), sent, roundRobin), net[p])
      ensures Tried(Order(loggers.Contents(), old(sent), roundRobin), net, accepted, tried)
    {
      hide PackSet, PackBody, Order, Asked, Tried;
      packed := PackAsPackedForward(rs, enableEventTime);
      ghost var order := Order(loggers.Contents(), sent, roundRobin);
      var pass := 0;
      tried := [];
      TriedNone(order);
      while pass < |net|
        invariant 0 <= pass <= |net| && Valid() && loggers.arr[..] == old(loggers.arr[..])
        invariant sent == old(sent) && monitor == old(monitor)
        invariant forall p :: 0 <= p < pass ==> NoneAccepts(order, net[p])
        invariant Tried(order, net[..pass], None, tried)
      {
        var current := BuildOrder();
        assert current.Contents() == order;
        var at, attempts := OnePass(current, net[pass]);
        TriedMore(order, net, pass, tried, at, attempts);
        tried := tried + [attempts];
        if at.Some? {
          monitor := monitor + [SentEvent(rs.tag, |rs.records|, |packed|, 1)];
          sent := sent + 1;
          return Some((pass, at.value)), packed, tried;
        }
        pass := pass + 1;
      }
      assert net[..pass] == net;
      accepted := None;
    }

    /** One pass over the loggers: those reconnecting are skipped, the first to accept ends it.
        `attempts` are the loggers that were sent to. */
    method OnePass(order: Slice<nat>, answers: Answers) returns (at: Option<nat>, attempts: seq<nat>)
      requires order.Valid()
      ensures at.None? ==> NoneAccepts(order.Contents(), answers)
      ensures at.Some? ==>
                && at.value < order.len && answers(order.Contents()[at.value]) == Accepts
                && forall i :: 0 <= i < at.value ==> answers(order.Contents()[i]) != Accepts
      ensures var end := if at.Some? then at.value + 1 else order.len;
              attempts == Asked(order.Contents()[..end], answers)
    {
      hide Asked;
      attempts := [];
      AskedNone(answers);
      var i := 0;
      ghost var all := order.Contents();
      while i < order.len
        invariant 0 <= i <= order.len && order.Contents() == all
        invariant forall j :: 0 <= j < i ==> answers(all[j]) != Accepts
        invariant attempts == Asked(all[..i], answers)
      {
        var logger := order.arr[order.off + i];
        assert logger == all[i] && all[..i + 1] == all[..i] + [logger];
        AskedSnoc(all[..i], logger, answers);
        if answers(logger) == Reconnecting {
          i := i + 1;
          continue;
        }
        attempts := attempts + [logger];
        if answers(logger) == Accepts {
          return Some(i), attempts;
        }
        i := i + 1;
      }
      assert all[..i] == all;
      at := None;
    }
  }

  /** Every pass sends to the loggers in order, past those reconnecting, as far as the one that accepts. */
  predicate Tried(order: seq<nat>, net: seq<Answers>, accepted: Option<(nat, nat)>, tried: seq<seq<nat>>) {
    && (accepted.Some? ==> |tried| == accepted.value.0 + 1 <= |net| && accepted.value.1 < |order|)
    && (accepted.None? ==> |tried| == |net|)
    && forall p :: 0 <= p < |tried| ==>
         tried[p] == Asked(if accepted.Some? && p == accepted.value.0 then order[..accepted.value.1 + 1] else order,
                           net[p])
  }

  lemma TriedNone(order: seq<nat>)
    ensures Tried(order, [], None, [])
  {
  }

  lemma TriedMore(order: seq<nat>, net: seq<Answers>, pass: nat, tried: seq<seq<nat>>, at: Option<nat>,
                  attempts: seq<nat>)
    requires pass < |net| && Tried(order, net[..pass], None, tried) && (at.Some? ==> at.value < |order|)
    requires attempts == Asked(order[..if at.Some? then at.value + 1 else |order|], net[pass])
    ensures at.Some? ==> Tried(order, net, Some((pass, at.value)), tried + [attempts])
    ensures at.None? ==> Tried(order, net[..pass + 1], None, tried + [attempts])
  {
    hide Asked;
    assert order[..|order|] == order;
  }

  lemma AskedNone(answers: Answers)
    ensures Asked([], answers) == []
  {
  }

  lemma AskedSnoc(order: seq<nat>, logger: nat, answers: Answers)
    ensures Asked(order + [logger], answers)
            == Asked(order, answers) + (if answers(logger) != Reconnecting then [logger] else [])
  {
    assert Front(order + [logger]) == order;
  }

  /** So no pass sends to a logger twice: not to one it does not ask, and to none more than once. */
  lemma {:induction false} AskedOnce(order: seq<nat>, answers: Answers)
    requires forall i, j :: 0 <= i < j < |order| ==> order[i] != order[j]
    ensures forall x :: x in Asked(order, answers) <==> x in order && answers(x) != Reconnecting
    ensures forall i, j :: 0 <= i < j < |Asked(order, answers)| ==> Asked(order, answers)[i] != Asked(order, answers)[j]
  {
    if order != [] {
      AskedOnce(Front(order), answers);
      assert order == Front(order) + [Last(order)];
    }
  }

  /** The loggers of a pass that were not reconnecting. */
  function Asked(order: seq<nat>, answers: Answers): seq<nat> {
    if order == [] then []
    else Asked(Front(order), answers) + (if answers(Last(order)) != Reconnecting then [Last(order)] else [])
  }
}
