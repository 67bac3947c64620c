/** The C++ message bus of option2.py: a wrapper around a
    `std::queue<std::string>` whose `receive` does not wait — on an empty
    queue it returns a default-constructed (empty) string. */
module CppBus {
  import opened BusTrace
  import opened Labels

  /** The largest value of a C++ `int`, the type of the driver loops' counter. */
  const IntMax: nat := 0x7fff_ffff

  /** `k` default-constructed strings. */
  function EmptyStrings(k: nat): (r: seq<string>)
    ensures |r| == k
    ensures forall i :: 0 <= i < k ==> r[i] == ""
  {
    seq(k, _ => "")
  }

  class MessageBus {
    /** The pending messages, head first (`queue_`). */
    var queue: seq<string>

    /** A default-constructed bus holds an empty queue. */
    constructor ()
      ensures queue == []
    {
      queue := [];
    }

    /** `push`: the message joins the tail; nothing already queued moves. */
    method Send(message: string)
      modifies this
      ensures queue == old(queue) + [message]
      ensures |queue| == |old(queue)| + 1
    {
      queue := queue + [message];
    }

    /** `front` then `pop` when the queue is non-empty; otherwise the empty
        string, and the queue stays as it was (empty). */
    method Receive() returns (message: string)
      modifies this
      ensures |old(queue)| > 0 ==> message == old(queue)[0] && queue == old(queue)[1..]
      ensures |old(queue)| == 0 ==> message == "" && queue == []
      ensures |queue| == if |old(queue)| > 0 then |old(queue)| - 1 else 0
    {
      message := "";
      if |queue| > 0 {
        message := queue[0];
        queue := queue[1..];
      }
    }
  }

  /** The producer loop: sends "Message 0" .. "Message count-1"; `count`
      stays within the range of the `int` loop counter. */
  method Producer(bus: MessageBus, count: nat)
    requires count <= IntMax
    modifies bus
    ensures bus.queue == old(bus.queue) + MessageLabels(count)
  {
    for i := 0 to count
      invariant bus.queue == old(bus.queue) + MessageLabels(i)
    {
      bus.Send(MessageLabel(i));
    }
  }

  /** The consumer loop: `count` receives, which past the end of the queue
      return empty strings. The values received are returned so that their
      order can be stated. */
  method Consumer(bus: MessageBus, count: nat) returns (received: seq<string>)
    requires count <= IntMax
    modifies bus
    ensures count <= |old(bus.queue)| ==>
      received == old(bus.queue)[..count] && bus.queue == old(bus.queue)[count..]
    ensures count > |old(bus.queue)| ==>
      received == old(bus.queue) + EmptyStrings(count - |old(bus.queue)|) && bus.queue == []
  {
    ghost var q := bus.queue;
    received := [];
    for i := 0 to count
      invariant i <= |q| ==> received == q[..i] && bus.queue == q[i..]
      invariant i > |q| ==> received == q + EmptyStrings(i - |q|) && bus.queue == []
    {
      var message := bus.Receive();
      if i < |q| {
        assert q[..i + 1] == q[..i] + [q[i]];
      } else {
        assert EmptyStrings(i + 1 - |q|) == EmptyStrings(i - |q|) + [""];
      }
      received := received + [message];
    }
  }

  /** The benchmark run with the two threads replaced by producer-then-
      consumer: the consumer sees every label once, in order, never an empty
      default, and the queue ends empty. */
  method Session(count: nat) returns (received: seq<string>, remaining: seq<string>)
    requires count <= IntMax
    ensures received == MessageLabels(count)
    ensures forall i, j :: 0 <= i < j < |received| ==> received[i] != received[j]
    ensures forall i :: 0 <= i < |received| ==> received[i] != ""
    ensures remaining == []
  {
    var bus := new MessageBus();
    Producer(bus, count);
    received := Consumer(bus, count);
    remaining := bus.queue;
    MessageLabelsDistinct(count);
  }

  /** The value-level meaning of a trace of calls on a bus holding `q`;
      every trace completes. */
  function Replay(q: seq<string>, ops: seq<Op<string>>): Outcome<string>
    decreases |ops|
  {
    if |ops| == 0 then Outcome([], q)
    else match ops[0]
      case Send(m) => Replay(q + [m], ops[1..])
      case Receive =>
        var o := Replay(if |q| == 0 then q else q[1..], ops[1..]);
        Outcome([if |q| == 0 then "" else q[0]] + o.replies, o.final)
  }

  /** Executes a trace of calls on `bus` through `Send` and `Receive`; the
      replies and the queue left behind are those `Replay` gives. */
  method Run(bus: MessageBus, ops: seq<Op<string>>) returns (replies: seq<string>)
    modifies bus
    ensures Replay(old(bus.queue), ops) == Outcome(replies, bus.queue)
  {
    ghost var q0 := bus.queue;
    replies := [];
    for i := 0 to |ops|
      invariant Replay(q0, ops) ==
        Outcome(replies + Replay(bus.queue, ops[i..]).replies, Replay(bus.queue, ops[i..]).final)
    {
      assert ops[i..][0] == ops[i] && ops[i..][1..] == ops[i + 1..];
      match ops[i]
      case Send(m) =>
        bus.Send(m);
      case Receive =>
        var message := bus.Receive();
        replies := replies + [message];
    }
    assert ops[|ops|..] == [];
  }

  /** Every receive answers, so there is exactly one reply per receive. */
  lemma {:induction false} ReplayReplyCount(q: seq<string>, ops: seq<Op<string>>)
    ensures |Replay(q, ops).replies| == ReceiveCount(ops)
    decreases |ops|
  {
    if |ops| > 0 {
      match ops[0]
      case Send(m) => ReplayReplyCount(q + [m], ops[1..]);
      case Receive => ReplayReplyCount(if |q| == 0 then q else q[1..], ops[1..]);
    }
  }

  /** Sends only append at the tail. */
  lemma {:induction false} ReplaySendOps(q: seq<string>, ms: seq<string>, ops: seq<Op<string>>)
    ensures Replay(q, SendOps(ms) + ops) == Replay(q + ms, ops)
    decreases |ms|
  {
    if |ms| > 0 {
      var all := SendOps(ms) + ops;
      assert all[0] == Send(ms[0]);
      assert all[1..] == SendOps(ms[1..]) + ops;
      ReplaySendOps(q + [ms[0]], ms[1..], ops);
      assert (q + [ms[0]]) + ms[1..] == q + ms;
    } else {
      assert SendOps(ms) + ops == ops;
      assert q + ms == q;
    }
  }

  /** `k` receives take the first `k` messages in order; once the queue is
      exhausted each further receive yields "" and the queue stays empty. */
  lemma {:induction false} ReplayReceiveOps(q: seq<string>, k: nat)
    ensures Replay(q, ReceiveOps(k)) ==
      if k <= |q| then Outcome(q[..k], q[k..])
      else Outcome(q + EmptyStrings(k - |q|), [])
    decreases k
  {
    if k > 0 {
      assert ReceiveOps<string>(k)[1..] == ReceiveOps(k - 1);
      if |q| > 0 {
        ReplayReceiveOps(q[1..], k - 1);
        if k <= |q| {
          assert q[..k] == [q[0]] + q[1..][..k - 1];
        } else {
          assert q + EmptyStrings(k - |q|) == [q[0]] + (q[1..] + EmptyStrings(k - |q|));
        }
      } else {
        ReplayReceiveOps(q, k - 1);
        assert EmptyStrings(k) == [""] + EmptyStrings(k - 1);
      }
    } else {
      assert q[..0] == [] && q[0..] == q;
    }
  }

  /** FIFO: sending m1..mk into an empty bus and then receiving k times
      returns m1..mk and leaves the bus empty. */
  lemma FifoDrain(ms: seq<string>)
    ensures Replay([], SendOps(ms) + ReceiveOps(|ms|)) == Outcome(ms, [])
  {
    ReplaySendOps([], ms, ReceiveOps(|ms|));
    ReplayReceiveOps(ms, |ms|);
    assert [] + ms == ms;
    assert ms[..|ms|] == ms && ms[|ms|..] == [];
  }

  /** An empty reply does not tell the consumer that the queue was empty: a
      bus holding one empty message and an empty bus answer every continuation
      of a receive identically. */
  lemma EmptyReplyAmbiguous(ops: seq<Op<string>>)
    ensures Replay([""], [Receive] + ops) == Replay([], [Receive] + ops)
    ensures Replay([""], [Receive] + ops).replies[0] == ""
  {
  }
}
