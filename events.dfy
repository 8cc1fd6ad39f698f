/** Socket outcomes and the traces of completions that drive the client's blocking calls.

    The C++ client blocks by calling io_service::run_one until a completion handler has
    stored something other than would_block in its error code.  Nothing about the network
    or the clock is computed here: a blocking call is given the sequence of handlers the
    event loop dispatches, in order, and consumes it from the front.
 */
module Events {

  /** Why a socket operation completed without success (boost::system::error_code != 0). */
  datatype Failure =
    | BadDescriptor          // the socket is not open (never opened, or closed)
    | NotConnected           // the socket is open but has no peer (ENOTCONN, or EPIPE on a write)
    | EndOfFile              // the peer closed its side of the connection
    | OtherFailure(code: int)

  /** The error-code variable a blocking call polls.  WouldBlock means "not completed yet". */
  datatype ErrorCode = WouldBlock | Success | Error(failure: Failure)

  /** One lower-level transfer on the socket: a read_some delivering bytes, a write_some
      accepting a number of bytes, or a transfer that failed. */
  datatype Step<T> = Progress(value: T) | Failed(failure: Failure)

  /** One handler dispatched by io_service::run_one: the deadline timer's wait completed at
      time `now` (so check_deadline runs), or a step of the pending socket operation. */
  datatype Event<T> = Tick(now: nat) | Io(step: Step<T>)

  /** How a call into the client ends: it returned, it threw, or the trace ran out while the
      call was still waiting for its completion. */
  datatype Call<T> = Returned(value: T) | Threw(failure: Failure) | Blocked

  predicate Fails<T>(e: Event<T>) {
    e.Io? && e.step.Failed?
  }

  predicate NoFailure<T>(events: seq<Event<T>>) {
    forall i :: 0 <= i < |events| ==> !Fails(events[i])
  }

  predicate NoFailedStep<T>(steps: seq<Step<T>>) {
    forall i :: 0 <= i < |steps| ==> !steps[i].Failed?
  }

  lemma NoFailureExtend<T>(events: seq<Event<T>>, i: nat)
    requires i < |events| && NoFailure(events[..i])
    ensures NoFailure(events[..i + 1]) <==> !Fails(events[i])
  {
    var prefix := events[..i + 1];
    assert prefix[i] == events[i];
    if !Fails(events[i]) {
      forall j | 0 <= j < |prefix| ensures !Fails(prefix[j]) {
        if j < i {
          assert prefix[j] == events[..i][j];
        }
      }
    }
  }

  /** The socket steps among the dispatched handlers, in order. */
  function IoSteps<T>(events: seq<Event<T>>): seq<Step<T>> {
    if events == [] then []
    else
      var last := events[|events| - 1];
      IoSteps(events[..|events| - 1]) + (if last.Io? then [last.step] else [])
  }

  /** The bytes delivered by a sequence of read steps, in arrival order. */
  function Received(steps: seq<Step<seq<char>>>): seq<char> {
    if steps == [] then []
    else
      var last := steps[|steps| - 1];
      Received(steps[..|steps| - 1]) + (if last.Progress? then last.value else [])
  }

  /** The bytes a sequence of write steps offered to accept, in total. */
  function Accepted(steps: seq<Step<nat>>): nat {
    if steps == [] then 0
    else
      var last := steps[|steps| - 1];
      Accepted(steps[..|steps| - 1]) + (if last.Progress? then last.value else 0)
  }

  function Min(a: nat, b: nat): nat {
    if a <= b then a else b
  }

  /** Received and IoSteps grow by exactly one step when one more event is dispatched. */
  lemma ReceivedSnoc(events: seq<Event<seq<char>>>, i: nat)
    requires i < |events|
    ensures IoSteps(events[..i + 1]) ==
            IoSteps(events[..i]) + (if events[i].Io? then [events[i].step] else [])
    ensures Received(IoSteps(events[..i + 1])) ==
            Received(IoSteps(events[..i])) +
            (if events[i].Io? && events[i].step.Progress? then events[i].step.value else [])
  {
    assert events[..i + 1][..i] == events[..i];
    var before := IoSteps(events[..i]);
    if events[i].Io? {
      assert (before + [events[i].step])[..|before|] == before;
    } else {
      assert before + [] == before;
    }
  }

  lemma AcceptedSnoc(events: seq<Event<nat>>, i: nat)
    requires i < |events|
    ensures Accepted(IoSteps(events[..i + 1])) ==
            Accepted(IoSteps(events[..i])) +
            (if events[i].Io? && events[i].step.Progress? then events[i].step.value else 0)
  {
    assert events[..i + 1][..i] == events[..i];
    var before := IoSteps(events[..i]);
    if events[i].Io? {
      assert (before + [events[i].step])[..|before|] == before;
    } else {
      assert before + [] == before;
    }
  }
}
