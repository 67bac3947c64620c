/** A sequential trace of calls on one message bus: the vocabulary shared by
    the Python and the C++ variants. */
module BusTrace {

  datatype Option<T> = None | Some(value: T)

  /** One call on the bus: `send(message)` or `receive()`. */
  datatype Op<T> = Send(message: T) | Receive

  /** What a trace of calls produced: the values the receives returned, in
      call order, and the messages still queued at the end. */
  datatype Outcome<T> = Outcome(replies: seq<T>, final: seq<T>)

  /** The messages passed to `send`, in call order. */
  function Sent<T>(ops: seq<Op<T>>): seq<T>
    decreases |ops|
  {
    if |ops| == 0 then []
    else (if ops[0].Send? then [ops[0].message] else []) + Sent(ops[1..])
  }

  /** The number of `receive` calls. */
  function ReceiveCount<T>(ops: seq<Op<T>>): nat
    decreases |ops|
  {
    if |ops| == 0 then 0
    else (if ops[0].Receive? then 1 else 0) + ReceiveCount(ops[1..])
  }

  /** `send(ms[0])`, ..., `send(ms[|ms|-1])`. */
  function SendOps<T>(ms: seq<T>): (ops: seq<Op<T>>)
    ensures |ops| == |ms|
    ensures forall k :: 0 <= k < |ms| ==> ops[k] == Send(ms[k])
  {
    seq(|ms|, k requires 0 <= k < |ms| => Send(ms[k]))
  }

  /** `k` consecutive `receive` calls. */
  function ReceiveOps<T>(k: nat): (ops: seq<Op<T>>)
    ensures |ops| == k
    ensures forall i :: 0 <= i < k ==> ops[i] == Receive
  {
    seq(k, _ => Receive)
  }

  /** Starting from `n` queued messages, no prefix of the trace has called
      `receive` more often than there were messages to take: no receive
      ever finds the queue empty. */
  ghost predicate Balanced<T>(n: nat, ops: seq<Op<T>>)
  {
    forall k :: 0 <= k <= |ops| ==> ReceiveCount(ops[..k]) <= n + |Sent(ops[..k])|
  }

  /** How the counters of a non-empty prefix split into its first call and
      the rest. */
  lemma PrefixSplit<T>(ops: seq<Op<T>>, k: nat)
    requires 1 <= k <= |ops|
    ensures ReceiveCount(ops[..k]) == (if ops[0].Receive? then 1 else 0) + ReceiveCount(ops[1..][..k - 1])
    ensures |Sent(ops[..k])| == (if ops[0].Send? then 1 else 0) + |Sent(ops[1..][..k - 1])|
  {
    assert ops[..k][0] == ops[0];
    assert ops[..k][1..] == ops[1..][..k - 1];
  }

  /** Balanced, read one call at a time: a send adds a message, a receive
      needs one and takes it. */
  lemma BalancedUnfold<T>(n: nat, ops: seq<Op<T>>)
    requires |ops| >= 1
    ensures Balanced(n, ops) <==>
      if ops[0].Send? then Balanced(n + 1, ops[1..]) else n >= 1 && Balanced(n - 1, ops[1..])
  {
    var tail := ops[1..];
    if ops[0].Send? {
      if Balanced(n, ops) {
        forall k | 0 <= k <= |tail|
          ensures ReceiveCount(tail[..k]) <= n + 1 + |Sent(tail[..k])|
        {
          PrefixSplit(ops, k + 1);
        }
      }
      if Balanced(n + 1, tail) {
        forall k | 0 <= k <= |ops|
          ensures ReceiveCount(ops[..k]) <= n + |Sent(ops[..k])|
        {
          if k >= 1 { PrefixSplit(ops, k); }
        }
      }
    } else {
      if Balanced(n, ops) {
        PrefixSplit(ops, 1);
        assert ReceiveCount(ops[..1]) <= n + |Sent(ops[..1])|;
        forall k | 0 <= k <= |tail|
          ensures ReceiveCount(tail[..k]) <= n - 1 + |Sent(tail[..k])|
        {
          PrefixSplit(ops, k + 1);
        }
      }
      if n >= 1 && Balanced(n - 1, tail) {
        forall k | 0 <= k <= |ops|
          ensures ReceiveCount(ops[..k]) <= n + |Sent(ops[..k])|
        {
          if k >= 1 { PrefixSplit(ops, k); }
        }
      }
    }
  }

  /** A block of sends contributes exactly its messages and no receive. */
  lemma {:induction false} SendOpsCounts<T>(ms: seq<T>)
    ensures Sent(SendOps(ms)) == ms
    ensures ReceiveCount(SendOps(ms)) == 0
    decreases |ms|
  {
    if |ms| > 0 {
      assert SendOps(ms)[1..] == SendOps(ms[1..]);
      SendOpsCounts(ms[1..]);
      assert ms == [ms[0]] + ms[1..];
    }
  }

  /** A block of receives sends nothing and receives once per call. */
  lemma {:induction false} ReceiveOpsCounts<T>(k: nat)
    ensures Sent(ReceiveOps<T>(k)) == []
    ensures ReceiveCount(ReceiveOps<T>(k)) == k
    decreases k
  {
    if k > 0 {
      assert ReceiveOps<T>(k)[1..] == ReceiveOps<T>(k - 1);
      ReceiveOpsCounts<T>(k - 1);
    }
  }

  /** The counters of a trace made of two parts add up. */
  lemma {:induction false} CountsAppend<T>(a: seq<Op<T>>, b: seq<Op<T>>)
    ensures Sent(a + b) == Sent(a) + Sent(b)
    ensures ReceiveCount(a + b) == ReceiveCount(a) + ReceiveCount(b)
    decreases |a|
  {
    if |a| == 0 {
      assert a + b == b;
    } else {
      assert (a + b)[0] == a[0];
      assert (a + b)[1..] == a[1..] + b;
      CountsAppend(a[1..], b);
    }
  }
}
