/** The SocketClient class: one TCP socket, the deadline the actor watches, the persistent
    input buffer that read_line consumes from, and the bytes the socket has accepted for the
    peer.  Time is the `now` a caller passes in; what the event loop dispatches while a call
    blocks is the trace of events the call is given. */
module Client {
  import opened Events
  import opened Deadlines
  import opened Framing
  import opened Serial

  /** What receiveSerial hands back: the cleaned bytes, the length it stores through `size`,
      and the error code read_until stored through `ec`. */
  datatype SerialReply = SerialReply(data: seq<char>, size: nat, ec: ErrorCode)

  /** What connect's `resolver.resolve(host, service)` and `boost::asio::connect` come to:
      the name did not resolve (resolve throws), or it resolved and `accepted` says whether
      some endpoint accepted the connection. */
  datatype Resolution = Unresolvable(failure: Failure) | Resolved(accepted: bool)

  /** Bytes `data[i..j]` going out after `data[..i]`: together they are `data[..j]`. */
  lemma AppendSlice(sent: seq<char>, data: seq<char>, i: nat, j: nat)
    requires i <= j <= |data|
    ensures sent + data[..i] + data[i..j] == sent + data[..j]
  {
    assert data[..i] + data[i..j] == data[..j];
  }

  lemma AppendAssoc(a: seq<char>, b: seq<char>, c: seq<char>)
    ensures a + (b + c) == a + b + c
  {
  }

  class SocketClient {
    var deadline: Deadline       // deadline_
    var inputBuffer: seq<char>   // input_buffer_: bytes read from the socket, not yet consumed
    var open: bool               // socket_ holds a descriptor
    var connected: bool          // socket_ is connected to the peer
    var outgoing: seq<char>      // every byte the socket has accepted for the peer, in order

    /** No deadline is armed until the first operation, and the first run of the actor
        finds nothing to do. */
    constructor (now: nat)
      ensures deadline == Infinite
      ensures inputBuffer == [] && !open && !connected && outgoing == []
    {
      deadline := Infinite;
      inputBuffer := [];
      open := false;
      connected := false;
      outgoing := [];
      new;
      CheckDeadline(now);
    }

    /** The failure an operation on a socket that is not connected completes with: a socket
        never opened, or closed, has no descriptor; one that failed connection attempts left
        open has no peer. */
    function UnconnectedFailure(): Failure
      reads this`open
    {
      if open then NotConnected else BadDescriptor
    }

    /** One run of the actor: an expired deadline is retired to infinity and nothing else
        changes (closing the socket here is commented out in this version). */
    method CheckDeadline(now: nat)
      modifies this`deadline
      ensures deadline == Checked(old(deadline), now)
      ensures deadline == Infinite || now < deadline.instant
      ensures old(deadline) == Infinite ==> deadline == Infinite
    {
      if Expired(deadline, now) {
        deadline := Infinite;
      }
    }

    /** connect(host, service, timeout): an unresolvable name makes resolve throw before the
        socket is touched.  Otherwise boost::asio::connect closes the socket and tries each
        endpoint, opening the socket for the attempt; when none accepts, the socket stays
        open without a peer.  Its error code is discarded and the timeout is not used, so the
        deadline is left as it was. */
    method Connect(resolution: Resolution, timeout: nat) returns (result: Call<()>)
      modifies this`open, this`connected
      ensures resolution.Unresolvable? ==>
                result == Threw(resolution.failure) &&
                open == old(open) && connected == old(connected)
      ensures resolution.Resolved? ==>
                result == Returned(()) && open && connected == resolution.accepted
    {
      match resolution {
        case Unresolvable(f) =>
          result := Threw(f);
        case Resolved(accepted) =>
          open, connected := true, accepted;
          result := Returned(());
      }
    }

    /** socket_.close(): the descriptor is released; closing a closed socket is a no-op. */
    method Close()
      modifies this`open, this`connected
      ensures !open && !connected
    {
      open, connected := false, false;
    }

    /** read_line(timeout) started at time `now`: arm the deadline, read into the input
        buffer until it holds a delimiter (async_read_until) while the event loop dispatches
        `events`, then take one line out with getline.  The completion error code is not
        checked, so a failed read still returns what was buffered. */
    method ReadLine(timeout: nat, now: nat, events: seq<Event<seq<char>>>)
      returns (result: Call<seq<char>>, steps: nat)
      modifies this`deadline, this`inputBuffer
      ensures steps <= |events|
      ensures deadline == AfterTicks(At(now + timeout), events[..steps])
      ensures deadline == At(now + timeout) || deadline == Infinite
      ensures !result.Threw?
      ensures 0 < steps ==>
                old(connected) && NoFailure(events[..steps - 1]) &&
                Newline !in old(inputBuffer) + Received(IoSteps(events[..steps - 1]))
      ensures Newline in old(inputBuffer) ==>
                steps == 0 && deadline == At(now + timeout) &&
                result == Returned(GetLine(old(inputBuffer)).0) &&
                inputBuffer == GetLine(old(inputBuffer)).1
      ensures result.Blocked? ==>
                old(connected) && steps == |events| && NoFailure(events) &&
                inputBuffer == old(inputBuffer) + Received(IoSteps(events)) &&
                Newline !in inputBuffer
      ensures result.Returned? ==>
                (result.value, inputBuffer) ==
                GetLine(old(inputBuffer) + Received(IoSteps(events[..steps])))
      ensures result.Returned? && Newline !in old(inputBuffer) + Received(IoSteps(events[..steps])) ==>
                !old(connected) || (0 < steps && Fails(events[steps - 1]))
    {
      deadline := At(now + timeout);
      var ec;
      ec, steps := AwaitReadUntil(events);
      AfterTicksOutcome(At(now + timeout), events[..steps]);
      if ec == WouldBlock {
        assert events[..|events|] == events;
        result := Blocked;
      } else {
        if steps == 0 {
          assert events[..0] == [] && inputBuffer == old(inputBuffer) + [];
        }
        assert Newline in old(inputBuffer) ==> steps == 0 && inputBuffer == old(inputBuffer);
        var split := GetLine(inputBuffer);
        inputBuffer := split.1;
        result := Returned(split.0);
      }
    }

    /** async_read_until(socket_, input_buffer_, '\n') followed by the blocking
        `do run_one while (ec == would_block)` loop: the handlers in `events` run in order
        until the operation completes, and none after that.  A delimiter already buffered
        completes it at once; so does a socket that is not connected. */
    method AwaitReadUntil(events: seq<Event<seq<char>>>) returns (ec: ErrorCode, steps: nat)
      modifies this`deadline, this`inputBuffer
      ensures steps <= |events|
      ensures deadline == AfterTicks(old(deadline), events[..steps])
      ensures inputBuffer == old(inputBuffer) + Received(IoSteps(events[..steps]))
      ensures ec != WouldBlock || steps == |events|
      ensures ec == WouldBlock ==> connected && Newline !in inputBuffer && NoFailure(events[..steps])
      ensures 0 < steps ==>
                connected && NoFailure(events[..steps - 1]) &&
                Newline !in old(inputBuffer) + Received(IoSteps(events[..steps - 1]))
      ensures Newline in old(inputBuffer) ==> steps == 0 && ec == Success
      ensures ec == Success ==> Newline in inputBuffer
      ensures ec.Error? ==> Newline !in inputBuffer
      ensures ec.Error? ==>
                (!connected && steps == 0 && ec.failure == UnconnectedFailure()) ||
                (0 < steps && events[steps - 1] == Io(Failed(ec.failure)))
    {
      if Newline in inputBuffer {
        ec, steps := Success, 0;
        assert events[..0] == [] && inputBuffer == old(inputBuffer) + [];
        return;
      }
      if !connected {
        ec, steps := Error(UnconnectedFailure()), 0;
        assert events[..0] == [] && inputBuffer == old(inputBuffer) + [];
        return;
      }
      ec := WouldBlock;
      steps := 0;
      ghost var got: seq<char> := [];
      ghost var before: seq<char> := inputBuffer;   // the buffer before the last handler ran
      while ec == WouldBlock && steps < |events|
        invariant steps <= |events|
        invariant deadline == AfterTicks(old(deadline), events[..steps])
        invariant got == Received(IoSteps(events[..steps]))
        invariant inputBuffer == old(inputBuffer) + got
        invariant ec == WouldBlock ==> Newline !in inputBuffer && NoFailure(events[..steps])
        invariant 0 < steps ==>
                    NoFailure(events[..steps - 1]) && Newline !in before &&
                    before == old(inputBuffer) + Received(IoSteps(events[..steps - 1]))
        invariant ec == Success ==> Newline in inputBuffer
        invariant ec.Error? ==>
                    Newline !in inputBuffer && 0 < steps && events[steps - 1] == Io(Failed(ec.failure))
        decreases |events| - steps
      {
        ReceivedSnoc(events, steps);
        AfterTicksSnoc(old(deadline), events, steps);
        NoFailureExtend(events, steps);
        before := inputBuffer;
        var e := events[steps];
        ghost var added := if e.Io? && e.step.Progress? then e.step.value else [];
        ec := RunOneRead(e);
        assert inputBuffer == before + added;
        AppendAssoc(old(inputBuffer), got, added);
        got := got + added;
        steps := steps + 1;
      }
    }

    /** One io_service::run_one while async_read_until is pending: the handler `e` runs.
        A run of the actor moves only the deadline; a read appends to the input buffer and
        completes the operation once a delimiter is buffered; a failed read completes it
        with that failure. */
    method RunOneRead(e: Event<seq<char>>) returns (ec: ErrorCode)
      modifies this`deadline, this`inputBuffer
      ensures e.Tick? ==>
                deadline == Checked(old(deadline), e.now) &&
                inputBuffer == old(inputBuffer) && ec == WouldBlock
      ensures e.Io? && e.step.Progress? ==>
                deadline == old(deadline) && inputBuffer == old(inputBuffer) + e.step.value &&
                ec == if Newline in inputBuffer then Success else WouldBlock
      ensures Fails(e) ==>
                deadline == old(deadline) && inputBuffer == old(inputBuffer) &&
                ec == Error(e.step.failure)
    {
      ec := WouldBlock;
      match e {
        case Tick(t) =>
          CheckDeadline(t);
        case Io(Progress(bytes)) =>
          inputBuffer := inputBuffer + bytes;
          if Newline in inputBuffer {
            ec := Success;
          }
        case Io(Failed(f)) =>
          ec := Error(f);
      }
    }

    /** write_line(line, timeout) started at time `now`: arm the deadline and write
        `line + "\n"` in full (async_write) while the event loop dispatches `events`.
        Throws exactly when the completion carries an error. */
    method WriteLine(line: seq<char>, timeout: nat, now: nat, events: seq<Event<nat>>)
      returns (result: Call<()>, steps: nat)
      modifies this`deadline, this`outgoing
      ensures steps <= |events|
      ensures deadline == AfterTicks(At(now + timeout), events[..steps])
      ensures deadline == At(now + timeout) || deadline == Infinite
      ensures 0 < steps ==>
                old(connected) && NoFailure(events[..steps - 1]) &&
                Accepted(IoSteps(events[..steps - 1])) < |Frame(line)|
      ensures old(connected) ==>
                outgoing == old(outgoing) +
                  Frame(line)[..Min(|Frame(line)|, Accepted(IoSteps(events[..steps])))]
      ensures result.Returned? <==> outgoing == old(outgoing) + Frame(line)
      ensures result.Threw? <==> !old(connected) || (0 < steps && Fails(events[steps - 1]))
      ensures result.Threw? && !old(connected) ==>
                result.failure == UnconnectedFailure() && steps == 0 && outgoing == old(outgoing)
      ensures result.Threw? && old(connected) ==> events[steps - 1] == Io(Failed(result.failure))
      ensures result.Blocked? ==> old(connected) && steps == |events| && NoFailure(events)
    {
      var data := Frame(line);
      deadline := At(now + timeout);
      var ec;
      ec, steps := AwaitWrite(data, events);
      AfterTicksOutcome(At(now + timeout), events[..steps]);
      if ec == WouldBlock {
        assert events[..|events|] == events;
        result := Blocked;
      } else if ec.Error? {
        result := Threw(ec.failure);
      } else {
        result := Returned(());
      }
    }

    /** async_write(socket_, buffer(data)) followed by the blocking
        `do run_one while (ec == would_block)` loop.  Each write step accepts up to its count
        of the bytes still to go; the operation completes when all of `data` is accepted or
        a step fails, and no handler runs after that.  On a socket that is not connected it
        fails at once. */
    method AwaitWrite(data: seq<char>, events: seq<Event<nat>>) returns (ec: ErrorCode, steps: nat)
      requires data != []
      modifies this`deadline, this`outgoing
      ensures steps <= |events|
      ensures deadline == AfterTicks(old(deadline), events[..steps])
      ensures connected ==>
                outgoing == old(outgoing) + data[..Min(|data|, Accepted(IoSteps(events[..steps])))]
      ensures ec != WouldBlock || steps == |events|
      ensures ec == WouldBlock ==> connected && NoFailure(events[..steps])
      ensures 0 < steps ==>
                connected && NoFailure(events[..steps - 1]) &&
                Accepted(IoSteps(events[..steps - 1])) < |data|
      ensures ec == Success <==> connected && |data| <= Accepted(IoSteps(events[..steps]))
      ensures ec.Error? ==> |outgoing| < |old(outgoing)| + |data|
      ensures ec.Error? && !connected ==>
                ec.failure == UnconnectedFailure() && steps == 0 && outgoing == old(outgoing)
      ensures ec.Error? && connected ==> 0 < steps && events[steps - 1] == Io(Failed(ec.failure))
      ensures 0 < steps && Fails(events[steps - 1]) ==> ec.Error?
    {
      if !connected {
        ec, steps := Error(UnconnectedFailure()), 0;
        return;
      }
      ec := WouldBlock;
      var written: nat := 0;
      steps := 0;
      ghost var offered: nat := 0;
      ghost var offeredBefore: nat := 0;
      while ec == WouldBlock && steps < |events|
        invariant steps <= |events|
        invariant written <= |data|
        invariant offered == Accepted(IoSteps(events[..steps]))
        invariant written == Min(|data|, offered)
        invariant deadline == AfterTicks(old(deadline), events[..steps])
        invariant outgoing == old(outgoing) + data[..written]
        invariant ec == WouldBlock ==> written < |data| && NoFailure(events[..steps])
        invariant 0 < steps ==>
                    NoFailure(events[..steps - 1]) &&
                    offeredBefore == Accepted(IoSteps(events[..steps - 1])) &&
                    offeredBefore < |data|
        invariant ec == Success <==> written == |data|
        invariant ec.Error? ==> 0 < steps && events[steps - 1] == Io(Failed(ec.failure))
        invariant 0 < steps && Fails(events[steps - 1]) ==> ec.Error?
        decreases |events| - steps
      {
        AcceptedSnoc(events, steps);
        AfterTicksSnoc(old(deadline), events, steps);
        offeredBefore := offered;
        var e := events[steps];
        var nowWritten;
        ec, nowWritten := RunOneWrite(data, written, e);
        if e.Io? && e.step.Progress? {
          AppendSlice(old(outgoing), data, written, nowWritten);
          offered := offered + e.step.value;
        }
        written := nowWritten;
        NoFailureExtend(events, steps);
        steps := steps + 1;
      }
      assert data[..|data|] == data;
    }

    /** One io_service::run_one while async_write is pending with `written` bytes of
        `data` already accepted: the handler `e` runs. */
    method RunOneWrite(data: seq<char>, written: nat, e: Event<nat>)
      returns (ec: ErrorCode, nowWritten: nat)
      requires written < |data|
      modifies this`deadline, this`outgoing
      ensures e.Tick? ==>
                deadline == Checked(old(deadline), e.now) && outgoing == old(outgoing) &&
                nowWritten == written && ec == WouldBlock
      ensures e.Io? && e.step.Progress? ==>
                deadline == old(deadline) &&
                nowWritten == Min(|data|, written + e.step.value) &&
                outgoing == old(outgoing) + data[written..nowWritten] &&
                ec == if nowWritten == |data| then Success else WouldBlock
      ensures Fails(e) ==>
                deadline == old(deadline) && outgoing == old(outgoing) &&
                nowWritten == written && ec == Error(e.step.failure)
    {
      ec, nowWritten := WouldBlock, written;
      match e {
        case Tick(t) =>
          CheckDeadline(t);
        case Io(Progress(count)) =>
          nowWritten := Min(|data|, written + count);
          outgoing := outgoing + data[written..nowWritten];
          if nowWritten == |data| {
            ec := Success;
          }
        case Io(Failed(f)) =>
          ec := Error(f);
      }
    }

    /** send(data, length): a synchronous boost::asio::write that keeps calling write_some
        (one `step` each) until every byte is accepted or a step fails, and returns how many
        bytes went out.  The error code is discarded, so it never throws; no deadline is
        involved. */
    method Send(data: seq<char>, steps: seq<Step<nat>>) returns (result: Call<nat>, used: nat)
      modifies this`outgoing
      ensures used <= |steps|
      ensures !result.Threw?
      ensures result.Returned? ==>
                result.value <= |data| && outgoing == old(outgoing) + data[..result.value]
      ensures old(connected) ==>
                outgoing == old(outgoing) + data[..Min(|data|, Accepted(steps[..used]))]
      ensures 0 < used ==>
                old(connected) && NoFailedStep(steps[..used - 1]) &&
                Min(|data|, Accepted(steps[..used - 1])) < |data|
      ensures result.Returned? && result.value < |data| ==>
                !old(connected) || (0 < used && steps[used - 1].Failed?)
      ensures !old(connected) ==> result == Returned(0) && used == 0 && outgoing == old(outgoing)
      ensures result.Blocked? ==>
                old(connected) && used == |steps| && NoFailedStep(steps) && Accepted(steps) < |data|
    {
      if !connected {
        // write_some on a socket without a peer fails at once
        result, used := Returned(0), 0;
        return;
      }
      var written: nat := 0;
      var failed := false;
      used := 0;
      ghost var writtenBefore: nat := 0;
      while written < |data| && !failed && used < |steps|
        invariant used <= |steps| && written <= |data|
        invariant written == Min(|data|, Accepted(steps[..used]))
        invariant outgoing == old(outgoing) + data[..written]
        invariant failed <==> 0 < used && steps[used - 1].Failed?
        invariant NoFailedStep(steps[..if failed then used - 1 else used])
        invariant 0 < used ==>
                    NoFailedStep(steps[..used - 1]) &&
                    writtenBefore == Min(|data|, Accepted(steps[..used - 1])) &&
                    writtenBefore < |data|
        decreases |steps| - used
      {
        assert steps[..used + 1][..used] == steps[..used];
        writtenBefore := written;
        match steps[used] {
          case Progress(count) =>
            var k := if count < |data| - written then count else |data| - written;
            AppendSlice(old(outgoing), data, written, written + k);
            outgoing := outgoing + data[written..written + k];
            written := written + k;
          case Failed(_) =>
            failed := true;
        }
        used := used + 1;
      }
      assert steps[..|steps|] == steps;
      if written < |data| && !failed {
        result := Blocked;
      } else {
        result := Returned(written);
      }
    }

    /** receiveSerial(ec, size): a synchronous read_until into a fresh local buffer (one
        read_some per `step`), then the first line of that buffer with the serial markers
        erased.  The input buffer of read_line is neither read nor changed, and whatever
        the local buffer held past the first delimiter is dropped with it. */
    method ReceiveSerial(steps: seq<Step<seq<char>>>) returns (result: Call<SerialReply>, used: nat)
      ensures used <= |steps|
      ensures !result.Threw?
      ensures 0 < used ==>
                connected && NoFailedStep(steps[..used - 1]) &&
                Newline !in Received(steps[..used - 1])
      ensures result.Returned? ==>
                result.value.data == CleanSerialLine(Received(steps[..used])) &&
                result.value.size == |result.value.data|
      ensures result.Returned? ==>
                (result.value.ec == Success <==> Newline in Received(steps[..used]))
      ensures result.Returned? && result.value.ec != Success ==>
                (!connected && used == 0 && result.value.ec == Error(UnconnectedFailure())) ||
                (0 < used && steps[used - 1].Failed? && result.value.ec == Error(steps[used - 1].failure))
      ensures result.Blocked? ==>
                connected && used == |steps| && NoFailedStep(steps) && Newline !in Received(steps)
    {
      var buffer: seq<char> := [];
      var ec := if connected then WouldBlock else Error(UnconnectedFailure());
      used := 0;
      ghost var bufferBefore: seq<char> := [];
      while ec == WouldBlock && used < |steps|
        invariant used <= |steps|
        decreases |steps| - used
        invariant buffer == Received(steps[..used])
        invariant ec == WouldBlock ==> connected && Newline !in buffer && NoFailedStep(steps[..used])
        invariant 0 < used ==>
                    connected && NoFailedStep(steps[..used - 1]) &&
                    bufferBefore == Received(steps[..used - 1]) && Newline !in bufferBefore
        invariant ec == Success ==> Newline in buffer
        invariant ec.Error? ==> Newline !in buffer
        invariant ec.Error? && !connected ==> used == 0 && ec == Error(UnconnectedFailure())
        invariant ec.Error? && connected ==> 0 < used && steps[used - 1] == Failed(ec.failure)
      {
        assert steps[..used + 1][..used] == steps[..used];
        assert Received(steps[..used + 1]) == buffer +
          (if steps[used].Progress? then steps[used].value else []);
        bufferBefore := buffer;
        match steps[used] {
        case Progress(bytes) =>
          buffer := buffer + bytes;
          if Newline in buffer {
            ec := Success;
          }
        case Failed(f) =>
          ec := Error(f);
        }
        used := used + 1;
      }
      assert steps[..|steps|] == steps;
      if ec == WouldBlock {
        result := Blocked;
      } else {
        var data := CleanSerialLine(buffer);
        result := Returned(SerialReply(data, |data|, ec));
      }
    }
  }
}
