# Message bus — a Dafny model of its FIFO queue

The repository benchmarks a single in-process message bus: a `MessageBus`
object wrapping one FIFO queue. A producer calls `send` with
`"Message 0"` … `"Message 99999"`, and a consumer calls `receive` the same
number of times. There are two variants of the bus:

* `option1.py` (Python) wraps `queue.Queue`. `send` is `put` and `receive`
  is `get`, which blocks while the queue is empty.
* `option2.py` (C++ source despite the file name) wraps
  `std::queue<std::string>`. `send` is `push`. `receive` returns the head and
  pops it when the queue is non-empty; otherwise it returns a
  default-constructed empty string and leaves the queue alone.

The model has five modules:

* `Labels` (`labels.dfy`) covers the payload `"Message " + decimal(i)`. It
  defines the decimal rendering used by `std::to_string` and Python's f-string
  for a non-negative integer, proves a round trip with its inverse in both
  directions, and shows that labels are injective.
* `BusTrace` (`bus_trace.dfy`) holds the vocabulary both variants share: a
  call (`Send(m)` or `Receive`), the outcome of a trace of calls, the messages
  a trace sent, and its number of receives. It also defines the predicate
  `Balanced`: no prefix of the trace has more receives than messages
  available up to that point.
* `PyBus` (`py_bus.dfy`) models `option1.py`. The class `MessageBus<T>` keeps
  its queue as a `seq` field. `Receive` requires a non-empty queue, because a
  blocking `get` with no other thread never returns. `Producer`, `Consumer`
  and `Session` are the benchmark drivers run one after the other. `Replay`
  gives the value-level meaning of any sequential trace: `None` when a receive
  would block. `Run` executes a trace through the class's own methods and is
  proved to produce what `Replay` says.
* `CppBus` (`cpp_bus.dfy`) models `option2.py` in the same way. Its `Receive`
  is total, and its `Replay` always completes.
* `Variants` (`variants.dfy`) relates the two. On the same trace they agree
  exactly when no receive finds the queue empty.

The source fixes the number of messages at 100000. The model takes that
number as a parameter `count`. In the C++ variant the loop counter is a C++
`int`, so there `count` is at most `IntMax` (2^31 − 1); 100000 meets that
bound.

The two variants differ when `receive` finds the queue empty; the model
follows each as written and proves where they differ
(`Variants.VariantsAgreeIff`).

## Model

| member | source | states |
|---|---|---|
| PyBus.MessageBus.constructor | option1.py:6-7 | a new bus starts with an empty queue |
| PyBus.MessageBus.Send | option1.py:9-10 | the message goes at the tail: new queue = old queue + [message], so the size grows by exactly one |
| PyBus.MessageBus.Receive | option1.py:12-13 | requires a non-empty queue (a blocking `get` never returns otherwise); returns the old head, leaves exactly the old tail, size shrinks by one |
| PyBus.Producer | option1.py:15-17 | after the loop the queue is the old queue followed by "Message 0" … "Message count-1" |
| PyBus.Consumer | option1.py:19-21 | `count` receives (queue holding at least `count`) return the first `count` queued messages in order and leave the rest |
| PyBus.Session | option1.py:24-35 | producer then consumer on a fresh bus: the consumer sees exactly "Message 0" … "Message count-1" in order, no duplicates, and the queue ends empty |
| PyBus.Run | option1.py:9-13 | executing any trace of calls through `Send` and `Receive`, none of which finds the queue empty, gives exactly the replies and final queue of `Replay`; this ties every trace lemma to the class |
| PyBus.ReplayCompletesIff | option1.py:12-13 | a sequential trace of calls runs to completion if and only if no receive in it finds the queue empty |
| PyBus.ReplayConserves | option1.py:9-13 | no loss, no duplication, FIFO: initial queue + sent messages = replies followed by final queue, in order; one reply per receive |
| PyBus.DeliversExactlyOnce | option1.py:9-13 | from an empty bus, a completed trace with as many receives as sends returns exactly the sent messages in order (same multiset too) and leaves the bus empty |
| PyBus.DrainDeliversEverySend | option1.py:9-13 | the send-then-drain trace sends exactly m1..mk, receives k times and completes, so by the no-loss lemma every sent message is received once, in order |
| PyBus.ReplaySendOps | option1.py:9-10 | a block of sends is the same as appending its messages to the queue |
| PyBus.ReplayReceiveOps | option1.py:12-13 | k receives return the first k queued messages and leave the rest; with fewer than k queued, the trace blocks |
| PyBus.FifoDrain | option1.py:9-13 | sending m1..mk into an empty bus and receiving k times returns m1..mk and leaves the bus empty |
| CppBus.MessageBus.constructor | option2.py:22-23 | a default-constructed bus holds an empty queue |
| CppBus.MessageBus.Send | option2.py:9-11 | `push` at the tail: new queue = old queue + [message], size + 1 |
| CppBus.MessageBus.Receive | option2.py:13-20 | non-empty queue: returns the old head and leaves exactly the old tail (size − 1); empty queue: returns "" and the queue stays empty |
| CppBus.Producer | option2.py:26-30 | with `count` within the `int` range, the queue becomes the old queue followed by "Message 0" … "Message count-1" |
| CppBus.Consumer | option2.py:32-37 | `count` receives return the first `count` messages in order; past the end of the queue each further receive returns "" and the queue is empty |
| CppBus.Session | option2.py:39-48 | producer then consumer on a fresh bus: "Message 0" … "Message count-1" in order, no duplicates, no empty default reply, queue empty at the end |
| CppBus.Run | option2.py:9-20 | executing any trace of calls through `Send` and `Receive` gives exactly the replies and final queue of `Replay`; this ties every trace lemma to the class |
| CppBus.ReplayReplyCount | option2.py:13-20 | every receive answers: one reply per receive on any trace |
| CppBus.ReplaySendOps | option2.py:9-11 | a block of sends is the same as appending its messages to the queue |
| CppBus.ReplayReceiveOps | option2.py:13-20 | k receives return the first k queued messages, then "" for each receive beyond the queue's length, which then stays empty |
| CppBus.FifoDrain | option2.py:9-20 | sending m1..mk into an empty bus and receiving k times returns m1..mk and leaves the bus empty |
| CppBus.EmptyReplyAmbiguous | option2.py:14-19 | a bus holding one empty message and an empty bus give the same replies and final queue for a receive plus any continuation: a "" reply does not reveal that the queue was empty |
| Variants.AgreeWhenBalanced | option2.py:13-20 | while no receive finds the queue empty, the C++ bus answers exactly as the blocking Python bus does |
| Variants.VariantsAgreeIff | option1.py:12-13 | the two variants produce the same outcome on a trace if and only if no receive in it finds the queue empty |
| Variants.CppConservesWhenBalanced | option2.py:9-20 | on such a trace the C++ bus also loses and duplicates nothing: initial queue + sent = replies + final queue |
| Labels.DecimalString | option2.py:28 | the rendering of the counter is non-empty, all decimal digits, with no leading zero except for "0" |
| Labels.DecimalRoundTrip | option2.py:28 | reading back the rendering of n gives n |
| Labels.DecimalRoundTripBack | option2.py:28 | every canonical digit string is the rendering of the number it denotes |
| Labels.DecimalStringInjective | option2.py:28 | two counters render the same if and only if they are equal |
| Labels.MessageLabelInjective | option1.py:17 | "Message i" = "Message j" if and only if i = j |
| Labels.MessageLabels | option1.py:16-17 | the producer's payload sequence has length n and its k-th element is "Message k" |
| Labels.MessageLabelsDistinct | option2.py:27-28 | the producer's payloads are pairwise distinct |

## Left out

- Threads, `start`/`join` and every interleaving of producer and consumer (option1.py:26-35, option2.py:42-48). Only sequential traces are modelled: the producer runs to completion, then the consumer. The C++ variant shares an unsynchronised `std::queue` between two threads, which is a data race with no sequential meaning.
- The locking and condition variables inside Python's `queue.Queue`, and the wake-up of a blocked `get` by a later `put`. The queue is treated as a plain FIFO sequence, and a `get` on an empty queue is excluded by the `Receive` precondition or reported as `None` by `PyBus.Replay`.
- Wall-clock timing and the latency print-outs (option1.py:29, 37-40; option2.py:45-53). These are real time and floating point.
- option2.cc (ZeroMQ socket and Cap'n Proto serialisation) and the two benchmark harness files, benchmark-bus.py and benchmark-bus.cc. These are network I/O and foreign libraries around a `my_message_bus` module; that module is not part of this model.
- The consumer loops discard each received message ("Process the message"). Both `Consumer` methods return the received values instead, so that their order can be stated.
- The literal 100000 is a parameter `count` of the drivers. No member instantiates it.
