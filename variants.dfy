/** How the two message buses relate on the same sequential trace: the
    blocking `get` of option1.py and the empty-string `receive` of option2.py
    differ only when a receive finds the queue empty. */
module Variants {
  import opened BusTrace
  import PyBus
  import CppBus

  /** While no receive finds the queue empty, the C++ bus answers exactly as
      the Python bus does. */
  lemma {:induction false} AgreeWhenBalanced(q: seq<string>, ops: seq<Op<string>>)
    requires Balanced(|q|, ops)
    ensures PyBus.Replay(q, ops) == Some(CppBus.Replay(q, ops))
    decreases |ops|
  {
    if |ops| > 0 {
      BalancedUnfold(|q|, ops);
      match ops[0]
      case Send(m) => AgreeWhenBalanced(q + [m], ops[1..]);
      case Receive => AgreeWhenBalanced(q[1..], ops[1..]);
    }
  }

  /** The two variants agree on a trace exactly when no receive in it finds
      the queue empty; otherwise the Python consumer blocks for ever while
      the C++ one carries on with an empty string. */
  lemma VariantsAgreeIff(q: seq<string>, ops: seq<Op<string>>)
    ensures PyBus.Replay(q, ops) == Some(CppBus.Replay(q, ops)) <==> Balanced(|q|, ops)
  {
    PyBus.ReplayCompletesIff(q, ops);
    if Balanced(|q|, ops) {
      AgreeWhenBalanced(q, ops);
    }
  }

  /** On a trace where no receive finds the queue empty, the C++ bus too
      loses and duplicates nothing. */
  lemma CppConservesWhenBalanced(q: seq<string>, ops: seq<Op<string>>)
    requires Balanced(|q|, ops)
    ensures q + Sent(ops) == CppBus.Replay(q, ops).replies + CppBus.Replay(q, ops).final
  {
    AgreeWhenBalanced(q, ops);
    PyBus.ReplayCompletesIff(q, ops);
    PyBus.ReplayConserves(q, ops, CppBus.Replay(q, ops));
  }
}
