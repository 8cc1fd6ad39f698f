# SocketClient deadline and framing model

A Dafny model of `SocketClient`, the blocking, deadline-armed TCP client that the NeuroRobot
MATLAB bridge uses to talk to the robot (command lines, serial passthrough, raw sends).
The model covers the class's own logic. The Boost.Asio machinery around it is replaced by
explicit inputs:

- **Time** is a `nat` that the caller passes in as `now`.
- **Handler traces.** While a call blocks, `io_service::run_one` dispatches one handler at a
  time. This is modelled as a trace of events. Each event is either a run of the deadline
  actor at some time (`Tick(now)`) or one step of the pending socket operation (`Io(...)`).
  A step is a read delivering bytes, a write accepting a number of bytes, or a failure.
  A blocking call consumes this trace from the front. If the trace runs out before the
  operation completes, the call ends in `Blocked`, because the C++ call would still be
  waiting.
- **Socket traffic.** The bytes the socket has accepted for the peer form the field
  `outgoing`. The bytes arriving from the peer are the data carried by the trace.

Modules, one per file:

- `Events` (`events.dfy`): error codes, steps, events and the outcome of a call (`Returned`,
  `Threw`, `Blocked`). Also the bytes received and the byte counts accepted along a trace.
- `Deadlines` (`deadline.dfy`): the `deadline_` value (`Infinite | At(t)`) and one run of
  `check_deadline`. Also the deadline after every actor run in a trace.
- `Framing` (`framing.dfy`): `std::getline` on the input buffer and the `line + "\n"` frame
  that `write_line` sends.
- `Serial` (`serial.dfy`): `boost::erase_all(data, "\x01U")`. In that C++ literal, `U` is not
  a hex digit, so the marker is the two bytes 0x01 and `'U'`. Also the cleaned first line
  that `receiveSerial` returns.
- `Client` (`socket_client.dfy`): the `SocketClient` class. Its fields are `deadline`,
  `inputBuffer`, `open`, `connected` and `outgoing`. Its methods are the constructor,
  `CheckDeadline`, `Connect`, `Close`, `ReadLine`, `WriteLine`, `Send` and
  `ReceiveSerial`. Each blocking loop (`AwaitReadUntil`, `AwaitWrite`) and each handler
  dispatch (`RunOneRead`, `RunOneWrite`) is a method of its own.

What the code does, and what the model follows where the code differs from the class's own
comments (Matlab/SocketClient.cpp:39-43 and :259-261 describe closing the socket on expiry):

- **No close on expiry.** `check_deadline` does not close the socket: that line is commented
  out. An expired deadline is only reset to positive infinity. A timeout therefore never
  cancels a read or a write.
- **No error check in `read_line`.** `read_line` does not check the completion code: that
  check is commented out. A read that failed without a delimiter returns whatever was
  buffered, and the buffer is left empty. It never throws.
- **`write_line` can throw.** `write_line` throws exactly when its completion code is an
  error.
- **`send` loops until done or failed.** `send` uses `boost::asio::write`, which keeps
  writing until every byte is accepted or a write fails. It returns the count written and
  discards the error.
- **No deadline on `connect`.** The asynchronous connect with a deadline is commented out
  (Matlab/SocketClient.cpp:112-145); `connect` is a synchronous `boost::asio::connect` that
  ignores its timeout. No operation guards against being started while another is blocked,
  and a timeout is never reported as an error of its own.
- **Unconnected socket.** The class tracks whether `socket_` is open and whether it is
  connected. An operation on a socket that was never opened, or was closed, completes at once
  with a bad-descriptor error. `connect` leaves the socket open but without a peer when no
  endpoint accepts, and an operation on such a socket completes at once with a not-connected
  error. `read_line` still returns a line that is already buffered.
- **`connect` can throw.** `resolver.resolve(host, service)` is the throwing overload, so a
  name that does not resolve makes `connect` throw before the socket is touched.
- **Local buffer in `receiveSerial`.** `receiveSerial` reads into a fresh local buffer. It
  never touches `input_buffer_`. Any bytes read past the first delimiter are dropped along
  with that local buffer.

## Model

| member | source | states |
|---|---|---|
| Client.SocketClient.constructor | Matlab/SocketClient.cpp:88-98 | a new client has an infinite deadline, an empty input buffer and a socket that is neither open nor connected; the first run of the actor leaves the deadline infinite |
| Deadlines.Checked | Matlab/SocketClient.cpp:256-270 | after one run of the actor the deadline is infinite or strictly later than `now`; a finite deadline at or before `now` becomes infinite, any other deadline is unchanged, and infinity is never treated as expired |
| Client.SocketClient.CheckDeadline | Matlab/SocketClient.cpp:250-275 | the actor changes only the deadline (to `Checked` of the old one); socket state, input buffer and outgoing bytes are untouched because the close is commented out |
| Deadlines.AfterTicksOutcome | Matlab/SocketClient.cpp:256-273 | across any number of actor runs, a deadline stays as armed or becomes infinite; it becomes infinite exactly when some run came at or after it, and a deadline still finite lies after every run |
| Client.SocketClient.Connect | Matlab/SocketClient.cpp:104-110 | a name that does not resolve throws and leaves the socket as it was; otherwise the socket is open afterwards and connected exactly when an endpoint accepted, the error code is discarded, and the timeout, deadline and buffer are untouched |
| Client.SocketClient.ReadLine | Matlab/SocketClient.cpp:151-184 | the deadline is armed to exactly `now + timeout` and afterwards is that or infinite; the returned line and the new buffer are `GetLine` of the old buffer plus the bytes received, so a buffered delimiter yields the prefix and keeps the suffix, and without one the whole buffer is returned and emptied; it never throws; with a delimiter already buffered no handler runs, the deadline stays armed, and the line and new buffer are the split of the old buffer; every handler but the last left the socket connected, failure-free and without a delimiter |
| Client.SocketClient.AwaitReadUntil | Matlab/SocketClient.cpp:164-174 | the blocking read loop appends received bytes to the buffer in order and runs no handler after the one that completes the read: none when a delimiter is already buffered or the socket is not connected, and before the last one the buffer held no delimiter and no step failed; it completes with success exactly when a delimiter is buffered, and a failure carries the failing step's error or the unconnected socket's error |
| Client.SocketClient.RunOneRead | Matlab/SocketClient.cpp:170-174 | one dispatched handler: an actor run moves only the deadline, a read appends its bytes and completes once a delimiter is buffered, a failed read completes with its error |
| Client.SocketClient.WriteLine | Matlab/SocketClient.cpp:186-214 | the deadline is armed to exactly `now + timeout`; the bytes put on the wire are a prefix of `line + "\n"`, all of it exactly when the call returns; it throws exactly when the socket is not connected (with the bad-descriptor or not-connected error, according to whether it is open) or the completing step failed; every handler before the last found the line not yet fully written |
| Client.SocketClient.AwaitWrite | Matlab/SocketClient.cpp:201-210 | the blocking write loop sends `data` in order, as much as the write steps accepted, and runs no handler after the one that completes it: before the last handler fewer bytes than `data` were accepted and no step failed |
| Client.SocketClient.RunOneWrite | Matlab/SocketClient.cpp:207-210 | one dispatched handler of the write: an actor run moves only the deadline, a write step sends the next accepted bytes, a failure completes with its error |
| Client.SocketClient.Send | Matlab/SocketClient.cpp:215-220 | returns the number of bytes sent, which is a prefix of `data`; all of `data` unless a write step failed or the socket is not connected, and it ends still blocked only while less than all of `data` has been accepted; no step runs after a failed one or after all of `data` is accepted; the error is discarded, so it never throws |
| Client.SocketClient.ReceiveSerial | Matlab/SocketClient.cpp:221-240 | returns the first line of the bytes read, with the markers erased; the size equals the length returned; the error code is success exactly when a delimiter was read, and otherwise is the failing step's error or the unconnected socket's error; no step runs after a delimiter arrives or a step fails; the input buffer and every other field are unchanged |
| Client.SocketClient.Close | Matlab/SocketClient.cpp:242-245 | after closing, the socket is neither open nor connected, however many times close is called |
| Framing.FindNewline | Matlab/SocketClient.cpp:179-181 | the position of the first delimiter, or the length when there is none |
| Framing.GetLine | Matlab/SocketClient.cpp:179-181 | the line holds no delimiter; with a delimiter buffered, line + "\n" + remainder is the buffer; without one, the whole buffer is the line and nothing remains |
| Framing.SplitUnique | Matlab/SocketClient.cpp:179-181 | a split at the first delimiter is unique: equal buffers with delimiter-free prefixes have the same prefix and remainder |
| Framing.FrameRoundTrip | Matlab/SocketClient.cpp:179-189 | getline after the frame of a delimiter-free line returns the bytes already pending followed by that line, and leaves exactly the bytes after the frame buffered (write_line then echo then read_line returns the line) |
| Serial.EraseMarkers | Matlab/SocketClient.cpp:231 | erasing markers shortens by an even count, emits only characters of the input, and leaves text without 0x01 unchanged |
| Serial.EraseMarkersAfterClean | Matlab/SocketClient.cpp:231 | text without 0x01 in front of anything passes through erase_all unchanged and does not affect the rest |
| Serial.EraseJoinedMarkers | Matlab/SocketClient.cpp:231 | clean pieces joined by markers come back as exactly the pieces concatenated |
| Serial.MarkerCanSurvive | Matlab/SocketClient.cpp:231 | erase_all does not rescan: 0x01 0x01 'U' 'U' becomes 0x01 'U', so the output may hold a marker and the operation is not idempotent |
| Serial.CleanSerialLine | Matlab/SocketClient.cpp:227-234 | the returned bytes are at most as long as the first line, differ from it in length by an even count, contain no delimiter, and equal the line when it holds no 0x01 |
| Serial.CleanSerialHello | Matlab/SocketClient.cpp:221-232 | the serial reply 0x01 'U' "hello" '\n' is returned as "hello" |

## Left out

- The Boost.Asio machinery is not modelled: `io_service_`, the `run_one` scheduler, completion handlers, `async_wait` re-arming, the resolver and TCP connect. Each is replaced by the traces described above. The actor's pending wait is not modelled either: a `Tick` is one completed wait that ran `check_deadline`.
- The order in which `run_one` dispatches a completion that is ready as soon as the operation starts (a delimiter already buffered, or an unconnected socket) is not modelled. The model completes such an operation at once, before any actor run in the trace.
- Connect: the model does not capture how the name resolves or the order in which endpoints are tried. Connecting is reduced to an input: the name does not resolve (then `connect` throws and the socket is left as it was), or it resolves and some endpoint accepts or none does (then the socket is left open without a peer). The discarded error code is not modelled.
- The error reported for an open socket without a peer is one value, `NotConnected`. The operating system reports not-connected or broken-pipe depending on the platform and the operation, and the model does not tell them apart.
- ReceiveSerial: nothing in the contract says that the method never *reads* `input_buffer_`. Dafny can only state that nothing is modified, and the body never refers to that field.
- The `malloc` and copy of the reply in `receiveSerial` are left out. The model returns an owned sequence instead.
- Bytes are modelled as `char` values. The source's `std::string` bytes carry no encoding that matters here.
- Clock resolution and wall-clock time are abstracted to a natural number, and the sum `now + timeout` is unbounded (boost time arithmetic does not wrap in practice).
- ReadLine, WriteLine: the timeout is a non-negative, finite count. A negative `time_duration` (which arms a deadline already in the past, so the actor's next run retires it to infinity) and boost's special values (`pos_infin`, `not_a_date_time`) are not modelled.
- Traces may hold successful steps that transfer zero bytes (`Progress([])` for a read, `Progress(0)` for a write). The model treats them as no-ops, whereas Boost's composed read and write operations would complete on them. A TCP socket does not produce such steps.
- The DEBUG-only logging in the class, and the log file writer, are not part of this model. Both are diagnostic output with no effect on behaviour.
- The MATLAB bridge and the device manager it dispatches to are not part of this model. They are marshalling glue outside the client.
- Destruction is left out: the destructor's body only closes the DEBUG log, and the members' destructors then close the socket and drop the actor's pending wait. Object lifetime is not modelled.
