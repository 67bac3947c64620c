/** The Python message bus of option1.py: a wrapper around `queue.Queue`
    whose `receive` is a blocking `get`. Messages are of any type `T`; the
    producer sends strings. */
module PyBus {
  import opened BusTrace
  import opened Labels

  class MessageBus<T> {
    /** The pending messages, head first (`self.queue`). */
    var queue: seq<T>

    /** A new bus holds an empty queue. */
    constructor ()
      ensures queue == []
    {
      queue := [];
    }

    /** `put`: the message joins the tail; nothing already queued moves. */
    method Send(message: T)
      modifies this
      ensures queue == old(queue) + [message]
      ensures |queue| == |old(queue)| + 1
    {
      queue := queue + [message];
    }

    /** `get`: takes the head. On an empty queue `get` blocks, and with no
        other thread it never returns, so a caller must not call it then. */
    method Receive() returns (message: T)
      requires |queue| > 0
      modifies this
      ensures message == old(queue)[0]
      ensures queue == old(queue)[1..]
      ensures |queue| == |old(queue)| - 1
    {
      message := queue[0];
      queue := queue[1..];
    }
  }

  /** The producer loop: sends "Message 0" .. "Message count-1". */
  method Producer(bus: MessageBus<string>, count: nat)
    modifies bus
    ensures bus.queue == old(bus.queue) + MessageLabels(count)
  {
    for i := 0 to count
      invariant bus.queue == old(bus.queue) + MessageLabels(i)
    {
      bus.Send(MessageLabel(i));
    }
  }

  /** The consumer loop: `count` receives. The values received are returned
      so that their order can be stated. */
  method Consumer<T>(bus: MessageBus<T>, count: nat) returns (received: seq<T>)
    requires count <= |bus.queue|
    modifies bus
    ensures received == old(bus.queue)[..count]
    ensures bus.queue == old(bus.queue)[count..]
  {
    received := [];
    for i := 0 to count
      invariant received == old(bus.queue)[..i]
      invariant bus.queue == old(bus.queue)[i..]
    {
      var message := bus.Receive();
      received := received + [message];
    }
  }

  /** The benchmark run with the two threads replaced by producer-then-
      consumer: the consumer sees every label once, in order, and the queue
      ends empty. */
  method Session(count: nat) returns (received: seq<string>, remaining: seq<string>)
    ensures received == MessageLabels(count)
    ensures forall i, j :: 0 <= i < j < |received| ==> received[i] != received[j]
    ensures remaining == []
  {
    var bus := new MessageBus<string>();
    Producer(bus, count);
    received := Consumer(bus, count);
    remaining := bus.queue;
    MessageLabelsDistinct(count);
  }

  /** The value-level meaning of a trace of calls on a bus holding `q`:
      None when some receive finds the queue empty (it blocks forever). */
  function Replay<T>(q: seq<T>, ops: seq<Op<T>>): Option<Outcome<T>>
    decreases |ops|
  {
    if |ops| == 0 then Some(Outcome([], q))
    else match ops[0]
      case Send(m) => Replay(q + [m], ops[1..])
      case Receive =>
        if |q| == 0 then None
        else match Replay(q[1..], ops[1..])
          case None => None
          case Some(o) => Some(Outcome([q[0]] + o.replies, o.final))
  }

  /** Executes a trace of calls on `bus` through `Send` and `Receive`, none
      of which may find the queue empty; the replies and the queue left
      behind are those `Replay` gives. */
  method Run<T>(bus: MessageBus<T>, ops: seq<Op<T>>) returns (replies: seq<T>)
    requires Balanced(|bus.queue|, ops)
    modifies bus
    ensures Replay(old(bus.queue), ops) == Some(Outcome(replies, bus.queue))
  {
    ghost var q0 := bus.queue;
    ReplayCompletesIff(q0, ops);
    assert ops[0..] == ops;
    ghost var whole := Replay(q0, ops).value;
    assert [] + whole.replies == whole.replies;
    assert Replay(q0, ops) == Some(Outcome(whole.replies, whole.final));
    replies := [];
    for i := 0 to |ops|
      invariant Replay(bus.queue, ops[i..]).Some?
      invariant Replay(q0, ops) == Some(Outcome(
        replies + Replay(bus.queue, ops[i..]).value.replies, Replay(bus.queue, ops[i..]).value.final))
    {
      ghost var before := Replay(bus.queue, ops[i..]).value;
      assert ops[i..][0] == ops[i] && ops[i..][1..] == ops[i + 1..];
      match ops[i]
      case Send(m) =>
        bus.Send(m);
        assert Replay(bus.queue, ops[i + 1..]) == Some(before);
      case Receive =>
        var message := bus.Receive();
        ghost var after := Replay(bus.queue, ops[i + 1..]).value;
        assert before == Outcome([message] + after.replies, after.final);
        assert (replies + [message]) + after.replies == replies + before.replies;
        replies := replies + [message];
    }
    assert ops[|ops|..] == [];
    assert Replay(bus.queue, ops[|ops|..]).value == Outcome([], bus.queue);
    assert replies + [] == replies;
  }

  /** A trace runs to completion exactly when no receive finds the queue empty. */
  lemma {:induction false} ReplayCompletesIff<T>(q: seq<T>, ops: seq<Op<T>>)
    ensures Replay(q, ops).Some? <==> Balanced(|q|, ops)
    decreases |ops|
  {
    if |ops| == 0 {
      assert ops[..0] == [];
    } else {
      BalancedUnfold(|q|, ops);
      match ops[0]
      case Send(m) => ReplayCompletesIff(q + [m], ops[1..]);
      case Receive => if |q| > 0 { ReplayCompletesIff(q[1..], ops[1..]); }
    }
  }

  /** No loss, no duplication, FIFO: what was queued plus what was sent is
      what was received followed by what is left, in order, and there is one
      reply per receive. */
  lemma {:induction false} ReplayConserves<T>(q: seq<T>, ops: seq<Op<T>>, o: Outcome<T>)
    requires Replay(q, ops) == Some(o)
    ensures q + Sent(ops) == o.replies + o.final
    ensures |o.replies| == ReceiveCount(ops)
    decreases |ops|, 1
  {
    if |ops| == 0 {
      assert o == Outcome([], q);
    } else if ops[0].Send? {
      ConservesOnSend(q, ops, o);
    } else {
      ConservesOnReceive(q, ops, o);
    }
  }

  /** ReplayConserves for a trace that starts with a send. */
  lemma {:induction false} ConservesOnSend<T>(q: seq<T>, ops: seq<Op<T>>, o: Outcome<T>)
    requires |ops| > 0 && ops[0].Send? && Replay(q, ops) == Some(o)
    ensures q + Sent(ops) == o.replies + o.final
    ensures |o.replies| == ReceiveCount(ops)
    decreases |ops|, 0
  {
    var m, tail := ops[0].message, ops[1..];
    assert Replay(q + [m], tail) == Some(o);
    ReplayConserves(q + [m], tail, o);
    var rest := Sent(tail);
    assert Sent(ops) == [m] + rest;
    assert q + ([m] + rest) == (q + [m]) + rest;
  }

  /** ReplayConserves for a trace that starts with a receive. */
  lemma {:induction false} ConservesOnReceive<T>(q: seq<T>, ops: seq<Op<T>>, o: Outcome<T>)
    requires |ops| > 0 && ops[0].Receive? && Replay(q, ops) == Some(o)
    ensures q + Sent(ops) == o.replies + o.final
    ensures |o.replies| == ReceiveCount(ops)
    decreases |ops|, 0
  {
    var tail := ops[1..];
    assert |q| > 0;
    var head, rest := q[0], q[1..];
    var inner := Replay(rest, tail).value;
    assert o == Outcome([head] + inner.replies, inner.final);
    ReplayConserves(rest, tail, inner);
    assert Sent(ops) == Sent(tail);
    assert q == [head] + rest;
    ConsPreservesSplit(head, rest + Sent(tail), inner.replies, inner.final);
  }

  /** Putting one element in front of both sides of a split. */
  lemma ConsPreservesSplit<T>(head: T, s: seq<T>, r: seq<T>, f: seq<T>)
    requires s == r + f
    ensures [head] + s == ([head] + r) + f
  {
  }

  /** A completed trace from an empty bus with as many receives as sends
      delivers every sent message exactly once, in sending order, and leaves
      the bus empty. */
  lemma DeliversExactlyOnce<T>(ops: seq<Op<T>>)
    requires Replay([], ops).Some?
    requires ReceiveCount(ops) == |Sent(ops)|
    ensures Replay([], ops).value.replies == Sent(ops)
    ensures multiset(Replay([], ops).value.replies) == multiset(Sent(ops))
    ensures Replay([], ops).value.final == []
  {
    var o := Replay([], ops).value;
    ReplayConserves([], ops, o);
    assert Sent(ops) == o.replies + o.final;
    assert o.replies == (o.replies + o.final)[..|o.replies|];
  }

  /** Sends only append at the tail. */
  lemma {:induction false} ReplaySendOps<T>(q: seq<T>, ms: seq<T>, ops: seq<Op<T>>)
    ensures Replay(q, SendOps(ms) + ops) == Replay(q + ms, ops)
    decreases |ms|
  {
    if |ms| > 0 {
      var all := SendOps(ms) + ops;
      assert all[0] == Send(ms[0]);
      assert all[1..] == SendOps(ms[1..]) + ops;
      ReplaySendOps(q + [ms[0]], ms[1..], ops);
      assert (q + [ms[0]]) + ms[1..] == q + ms;
    } else {
      assert SendOps(ms) + ops == ops;
      assert q + ms == q;
    }
  }

  /** `k` receives take the first `k` messages, in order, and block when
      there are fewer than `k`. */
  lemma {:induction false} ReplayReceiveOps<T>(q: seq<T>, k: nat)
    ensures Replay(q, ReceiveOps(k)) ==
      if k <= |q| then Some(Outcome(q[..k], q[k..])) else None
    decreases k
  {
    if k > 0 {
      assert ReceiveOps<T>(k)[1..] == ReceiveOps(k - 1);
      if |q| > 0 {
        ReplayReceiveOps(q[1..], k - 1);
        if k <= |q| {
          assert q[..k] == [q[0]] + q[1..][..k - 1];
        }
      }
    }
  }

  /** FIFO: sending m1..mk into an empty bus and then receiving k times
      returns m1..mk and leaves the bus empty. */
  lemma FifoDrain<T>(ms: seq<T>)
    ensures Replay([], SendOps(ms) + ReceiveOps(|ms|)) == Some(Outcome(ms, []))
  {
    ReplaySendOps([], ms, ReceiveOps(|ms|));
    ReplayReceiveOps(ms, |ms|);
    assert [] + ms == ms;
    assert ms[..|ms|] == ms && ms[|ms|..] == [];
  }

  /** The trace of FifoDrain meets the premises of DeliversExactlyOnce: it
      sends exactly m1..mk, receives k times, and completes, so every message
      it sends is received exactly once. */
  lemma DrainDeliversEverySend<T>(ms: seq<T>)
    ensures Sent(SendOps(ms) + ReceiveOps(|ms|)) == ms
    ensures ReceiveCount(SendOps(ms) + ReceiveOps<T>(|ms|)) == |ms|
    ensures Replay([], SendOps(ms) + ReceiveOps(|ms|)).Some?
    ensures Replay([], SendOps(ms) + ReceiveOps(|ms|)).value.replies == Sent(SendOps(ms) + ReceiveOps(|ms|))
  {
    var ops := SendOps(ms) + ReceiveOps<T>(|ms|);
    CountsAppend(SendOps(ms), ReceiveOps<T>(|ms|));
    SendOpsCounts(ms);
    ReceiveOpsCounts<T>(|ms|);
    assert Sent(ops) == ms + [];
    FifoDrain(ms);
    DeliversExactlyOnce(ops);
  }
}
