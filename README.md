# afina connection and thread-pool admission, modelled in Dafny

afina is a small in-memory key-value server speaking the memcached text
protocol. This project models two sequential pieces of it.

**The connection state machine** of the multi-threaded non-blocking server
(`Connection.cpp` and `Connection.h`):
- Each connection keeps a fixed 4096-byte read buffer with a fill level
  `now_pos`, the parser's progress, and a pending command with its argument.
- It also keeps a queue of responses waiting to be written, a cursor
  `cur_pos` into the first of them, an alive flag and an epoll interest mask.
- On input readiness, `DoRead` reads until the socket has nothing more to
  give. After each read it feeds the bytes to the parser and compacts the
  buffer. It collects the argument a command announced, runs the command, and
  queues the result followed by `"\r\n"`.
- On output readiness, `DoWrite` is meant to send the queue from the cursor
  on in one scatter-gather write, and to drop the responses that have gone
  out. The model follows that intent. The code as written differs at lines
  129, 131, 142-145 and 146 (see "## Findings").

**The admission rule of the thread pool** (`Executor::Execute`): a task is
refused when the pool is not running or its queue is full. Otherwise the task
is queued at the back, and one more thread is counted when every thread is
busy and the high watermark allows it.

Modules:
- `Wire`: bytes, the `"\r\n"` terminator, queues of responses as one byte
  stream.
- `Epoll`: the interest flags.
- `Collaborators`: the parser, `Build` and `Command::Execute` as function
  values, with the parser's one promise (it never consumes more than it was
  given).
- `ReadPath`: the read side as functions over the connection's state.
- `WritePath`: the write side as functions over the queue, plus the lines of
  `DoWrite` that misbehave, modelled as written.
- `Network`: the `Connection` class. Its methods are proved against
  `ReadPath` and `WritePath`.
- `Concurrency`: the pool as a datatype, the admission function with its
  lemmas, and the `Executor` class whose `Execute` is proved against it.

The socket calls are parameters:
- `DoRead` gets a `Socket` value holding the segments successive `read` calls
  return, and whether the peer has hung up once they are used up.
- `DoWrite` gets the count `write` returned.

## Model

| member | source | states |
|---|---|---|
| ReadPath.Recv | src/network/mt_nonblocking/Connection.cpp:40 | A read returns bytes exactly when it is asked for at least one and the socket has some, and never more than asked for. A read asking for 0 bytes returns 0 and takes nothing. Otherwise it returns -1 exactly when the socket is drained and the peer has not hung up. Each read that returns bytes shrinks what the socket holds. |
| ReadPath.RecvConserves | src/network/mt_nonblocking/Connection.cpp:40-42 | A read hands over the peer's bytes in order: what it returns, followed by what stays in the socket, is what the socket held. |
| ReadPath.Expected | src/network/mt_nonblocking/Connection.cpp:56-59 | A command announcing `k > 0` argument bytes makes `arg_remains` `k + 2`. A command announcing none leaves it 0. |
| ReadPath.ParsePhase | src/network/mt_nonblocking/Connection.cpp:50-70 | With a command pending, nothing happens. Otherwise the parser's progress is stored, and a complete parse sets the command and the expected argument size. The bytes the parser used leave the front of the buffer and the rest stay in order. The loop breaks exactly when the parser used nothing, and then the buffer is unchanged. |
| ReadPath.ArgumentPhase | src/network/mt_nonblocking/Connection.cpp:73-82 | `min(arg_remains, now_pos)` bytes move from the buffer's front to the end of the argument. Argument plus buffer is the same byte string before and after. Argument length plus `arg_remains` is conserved. Nothing moves without a command waiting for bytes. |
| ReadPath.ExecutePhase | src/network/mt_nonblocking/Connection.cpp:85-100 | A command with its whole argument queues exactly one response, result plus `"\r\n"`, behind the earlier ones. Output interest is added. Command, argument and parser are reset. Nothing happens otherwise. |
| ReadPath.Step | src/network/mt_nonblocking/Connection.cpp:47-101 | A pass of the processing loop that does not break consumes at least one byte, or runs the pending command without consuming. So (bytes left, command pending) decreases and the loop terminates. |
| ReadPath.StepTakesFront | src/network/mt_nonblocking/Connection.cpp:47-101 | One pass only takes bytes from the front of the buffer. |
| ReadPath.StepQueues | src/network/mt_nonblocking/Connection.cpp:85-100 | One pass keeps every queued response in order and adds at most one. Anything it adds ends with `"\r\n"` and comes with output interest. Output is the only interest it adds, and no pending command means nothing expected or collected. |
| ReadPath.FollowsTransitive | src/network/mt_nonblocking/Connection.cpp:47-101 | Those guarantees compose across passes. |
| ReadPath.Drain | src/network/mt_nonblocking/Connection.cpp:47-101 | The processing loop never adds input. |
| ReadPath.DrainTakesFront | src/network/mt_nonblocking/Connection.cpp:47-101 | The processing loop only consumes bytes from the front of the buffer. |
| ReadPath.DrainQueues | src/network/mt_nonblocking/Connection.cpp:47-101 | The processing loop keeps every queued response in order. Every response it queues ends with `"\r\n"`. It adds only output interest, and always adds it when it queued something. It keeps the phases of a request exclusive. |
| ReadPath.ReadLoop | src/network/mt_nonblocking/Connection.cpp:40-102 | The read loop ends on a read that returned 0 or -1. The buffer never holds more than 4096 bytes. |
| ReadPath.ReceiveFollows | src/network/mt_nonblocking/Connection.cpp:42-101 | Storing and processing the bytes of one read keeps the queue and interest guarantees above. |
| ReadPath.ReadLoopQueues | src/network/mt_nonblocking/Connection.cpp:40-102 | Across all reads, queued responses keep their order. New responses end with `"\r\n"`. Output is the only interest added, and the phases of a request stay exclusive. |
| ReadPath.FullBufferReadsAsClosed | src/network/mt_nonblocking/Connection.cpp:40 | With a full buffer the read asks for 0 bytes, so the loop ends as if the peer had closed, whatever the socket holds. |
| WritePath.UnsentAppend | src/network/mt_nonblocking/Connection.cpp:93 | Queueing a response appends its bytes to the unsent ones and leaves those before it as they were. |
| WritePath.DropCovered | src/network/mt_nonblocking/Connection.cpp:138-146 | After a write, the queue never grows. The cursor lands strictly inside the new first response, or is 0 on an empty queue. |
| WritePath.DropCoveredSuffix | src/network/mt_nonblocking/Connection.cpp:140-146 | Only leading responses are dropped; the rest stay in order. |
| WritePath.DropCoveredKeepsUnsent | src/network/mt_nonblocking/Connection.cpp:138-146 | Dropping the responses the written bytes cover leaves exactly the same bytes unsent. |
| WritePath.AdvanceSendsExactly | src/network/mt_nonblocking/Connection.cpp:131-146 | After a write of `n` bytes, the unsent bytes are the old unsent bytes minus their first `n`. Nothing is resent and nothing is skipped. |
| WritePath.Iovecs | src/network/mt_nonblocking/Connection.cpp:122-129 | The intended buffers: one per response, each ending exactly at its response's end. |
| WritePath.Whole | src/network/mt_nonblocking/Connection.cpp:124-127 | One buffer per response covering all of it. |
| WritePath.GatherWhole | src/network/mt_nonblocking/Connection.cpp:124-127 | Whole-response buffers lie inside their responses and gather the whole queue. |
| WritePath.IovecsGatherUnsent | src/network/mt_nonblocking/Connection.cpp:122-131 | The intended buffers lie inside their responses and gather exactly the unsent bytes. |
| WritePath.IovecsAsWritten | src/network/mt_nonblocking/Connection.cpp:129 | As written, the first buffer is shifted by the cursor but keeps its full length. |
| WritePath.IovecsAsWrittenOverrun | src/network/mt_nonblocking/Connection.cpp:129 | On the queue ["OK\r\n"] with cursor 2, the buffers of line 129 run past the response; the intended ones do not. |
| WritePath.IovecsAsWrittenOverrunsWhenResumed | src/network/mt_nonblocking/Connection.cpp:129 | Whenever the cursor is positive, the buffers of line 129 run past the first response. |
| WritePath.RemovalTestAlwaysHolds | src/network/mt_nonblocking/Connection.cpp:142 | The loop test of line 142, in unsigned arithmetic, holds for every cursor and length. In particular it holds while the cursor is still inside the buffer, where the intended signed test fails. |
| WritePath.RemovalTestAsWrittenOnOk | src/network/mt_nonblocking/Connection.cpp:142 | With 1 byte of "OK\r\n" written, `1 - 4` wraps to 2^64 - 3. The test calls the response covered, although 3 of its bytes are unsent. |
| WritePath.RemovalReadsPastEnd | src/network/mt_nonblocking/Connection.cpp:142-145 | As written, the removal loop reads every index from 1 to `size`, the last one past the end of `iovecs`. |
| WritePath.WriteAsWrittenSendsNoResponse | src/network/mt_nonblocking/Connection.cpp:131 | As written, `write(fd, iovecs, size)` sends at most one byte per queued response, and every byte it sends comes from the memory of the `iovec` array, not from a response. The intended write offers exactly as many bytes as are unsent, all from responses. |
| WritePath.WriteAsWrittenOnOk | src/network/mt_nonblocking/Connection.cpp:131 | On ["OK\r\n"], the call as written sends at most the first byte of the `iovec` array. The intended buffers gather "OK\r\n". |
| WritePath.EraseAsWritten | src/network/mt_nonblocking/Connection.cpp:146 | As written, exactly one response leaves the queue. |
| WritePath.EraseAsWrittenResends | src/network/mt_nonblocking/Connection.cpp:146 | With two "OK\r\n" fully written by the intended write, line 146 keeps the second queued, to be sent again. Dropping what is covered empties the queue. |
| WritePath.EraseAsWrittenLoses | src/network/mt_nonblocking/Connection.cpp:146 | With one byte of "OK\r\n" written, line 146 drops the response with three bytes unsent. Dropping what is covered keeps it with cursor 1. |
| Network.Connection.constructor | src/network/mt_nonblocking/Connection.h:18-56 | A new connection is alive with an empty interest mask. Its buffer is empty and `now_pos` and `cur_pos` are 0. Nothing is queued, no command is pending, the argument is empty and the parser is fresh. |
| Network.Connection.IsAlive | src/network/mt_nonblocking/Connection.h:24 | Returns the alive flag and changes nothing. |
| Network.Connection.Start | src/network/mt_nonblocking/Connection.cpp:10-15 | The interest mask becomes exactly input, hang-up and error, without output. Nothing else changes. |
| Network.Connection.OnError | src/network/mt_nonblocking/Connection.cpp:18-23 | Only the alive flag changes, to false. A second call changes nothing more. |
| Network.Connection.OnClose | src/network/mt_nonblocking/Connection.cpp:26-30 | Only the alive flag changes, to false. A second call changes nothing more. |
| Network.Connection.Compact | src/network/mt_nonblocking/Connection.cpp:67-68 | The bytes after the first `n` move to the front in order, and `now_pos` drops by `n`. |
| Network.Connection.Store | src/network/mt_nonblocking/Connection.cpp:40-42 | The bytes read go after the valid ones, and `now_pos` grows by their number. |
| Network.Connection.ParseCommand | src/network/mt_nonblocking/Connection.cpp:50-70 | The fields after the parse step are `ReadPath.ParsePhase` of the fields before. |
| Network.Connection.FillArgument | src/network/mt_nonblocking/Connection.cpp:73-82 | The fields after argument collection are `ReadPath.ArgumentPhase` of the fields before. |
| Network.Connection.RunCommand | src/network/mt_nonblocking/Connection.cpp:85-100 | The fields after execution are `ReadPath.ExecutePhase` of the fields before. The unsent bytes grow by exactly the queued response. |
| Network.Connection.Pass | src/network/mt_nonblocking/Connection.cpp:47-101 | One pass of the processing loop on the fields is `ReadPath.Step`. |
| Network.Connection.Process | src/network/mt_nonblocking/Connection.cpp:47-101 | The processing loop on the fields is `ReadPath.Drain`, and it keeps the connection's invariant. |
| Network.Connection.Receive | src/network/mt_nonblocking/Connection.cpp:40-101 | The bytes of one read are stored after the unconsumed ones and processed, as `ReadPath.Drain` says. |
| Network.Connection.ReadOnce | src/network/mt_nonblocking/Connection.cpp:40-102 | One turn of the read loop reads as `ReadPath.Recv`. It either continues the loop from the new state, or ends it with the state unchanged. |
| Network.Connection.DoRead | src/network/mt_nonblocking/Connection.cpp:33-114 | The fields afterwards, and the read that ended the loop, are `ReadPath.ReadLoop` of the fields before. The buffer stays within 4096 bytes. The connection is dead afterwards, whatever ended the loop. |
| Network.Connection.DoWrite | src/network/mt_nonblocking/Connection.cpp:118-150 | A non-positive write kills the connection, reports failure and changes nothing else. A positive one keeps the connection alive and leaves the queue and cursor as `WritePath.DropCovered` says. The unsent bytes lose exactly their first `written`. The mask returns to input, hang-up and error once the queue is empty. |
| Network.DropWritten | src/network/mt_nonblocking/Connection.cpp:140-146 | The removal loop, as intended, gives `WritePath.DropCovered` of the queue and the advanced cursor. |
| Concurrency.Admit | include/afina/concurrency/Executor.h:55-75 | A task is refused exactly when the pool is not running or the queue length equals `max_queue_size`. A refusal changes nothing. An accepted task goes to the back, and the queue grows by exactly one exactly when the task is accepted. Both thread counters grow by exactly one exactly when every thread is busy and there are fewer than the high watermark; otherwise they are unchanged. A count that grows stays at most the high watermark. |
| Concurrency.AdmitKeepsSane | include/afina/concurrency/Executor.h:60-71 | Admission keeps 0 <= working <= threads <= ceiling. It keeps a bounded queue within its bound. |
| Concurrency.SubmitAll | include/afina/concurrency/Executor.h:55-75 | Submitting tasks one after the other gives one answer per task. The tasks queued before stay at the front of the queue, unchanged. |
| Concurrency.SubmitAllKeepsSane | include/afina/concurrency/Executor.h:60-71 | Any run of submissions keeps the pool sane, so the queue never passes a non-negative `max_queue_size`. |
| Concurrency.SubmitAllWhenNotRunning | include/afina/concurrency/Executor.h:60-62 | A stopping or stopped pool refuses every task and stays as it is. |
| Concurrency.SubmitAllFillsQueue | include/afina/concurrency/Executor.h:60-65 | A running pool with room for `n` tasks accepts exactly the first `n` submissions, queued in order, and refuses the rest. |
| Concurrency.Executor.constructor | src/concurrency/Executor.cpp:6-19 | A new pool runs with an empty queue and `max(low_watermark, 0)` threads, all counted busy. It is sane. |
| Concurrency.Executor.Execute | include/afina/concurrency/Executor.h:55-75 | The answer and the new fields are `Concurrency.Admit` of the fields before. |

## Left out

- The `read` and `write` system calls are parameters. `errno` and the
  exception line 108 throws (caught at line 110) show up only as the read
  result that ended the loop. The exception line 135 throws leaves `DoWrite`;
  it shows up as the alive flag and the `false` result.
- Network.Connection.DoRead: the parser, `Build` and `Command::Execute`
  cannot fail in the model. In the source, a `std::runtime_error` from any of
  them (lines 52, 56 and 89) is caught at line 110. That skips line 104, so
  the connection stays alive with whatever half-processed state the throw
  left. That path is not modelled.
- Network.Connection.DoWrite: line 131 is modelled as a scatter-gather write
  (`writev`) of the buffers from `WritePath.Iovecs`. The source calls plain
  `write` on the `iovec` array, which sends at most one byte per response and
  none of the responses' bytes. That call as written is modelled only by
  `WritePath.WriteAsWritten` (see "## Findings").
- Logging (spdlog) is left out; it only has side effects.
- The per-connection mutex and the pool's mutex are left out: every method is
  one atomic step.
- The `epoll_data` union is not modelled; only the interest mask is. That
  includes `data.ptr` at Connection.h line 21 and `data.fd` at Connection.cpp
  line 13.
- The parser, `Build` and `Command::Execute` are function values. The model
  uses only the parser's promise not to consume more than it is given.
- The storage is reached only through `execute`. A command's result is a
  function of the command and its argument. Storage state carried from one
  command to the next is not modelled.
- Network.Connection.constructor: `arg_remains` is left uninitialised in
  Connection.h line 47. The model starts it at 0, which is only read once a
  command has set it.
- The argument collected includes its two-byte terminator, as the code does
  at lines 58 and 77. The model keeps this as written.
- The property that splitting the input differently across reads gives the
  same responses depends on the parser's internals and is not stated.
- Network.Connection.DoWrite: requires `written` to be at most the unsent
  bytes. `write` never reports more than it was given, which holds for the
  intended buffers (`WritePath.IovecsGatherUnsent`).
- Network.Connection.DoWrite: the buffers are modelled as intended, with line
  129 corrected. The as-written buffers appear only in the Findings members.
- Integer widths:
  - `now_pos`, `cur_pos` and the counters are unbounded integers; the model
    keeps them within ranges where the source's `int` and `size_t` do not wrap.
  - `tasks.size() == max_queue_size` compares against `max_queue_size`
    converted to `size_t`. A negative bound therefore never matches, and the
    integer comparison gives the same answer.
- The worker loop `perform` and `Stop` in src/concurrency/Executor.cpp are not
  modelled; they only coordinate threads. Only the constructor's initial
  state is.
- Task payloads are opaque values; only their order in the queue is modelled.

## Findings

| source | as written | input that shows it | evidently intended | confidence | as-written member | corrected member |
|---|---|---|---|---|---|---|
| src/network/mt_nonblocking/Connection.cpp:129 | the first buffer is shifted by `cur_pos` and keeps its full length, so it runs past its response (read once line 131 is a scatter-gather write) | queue ["OK\r\n"] with `cur_pos` 2: the buffer covers bytes 2 to 6 of a 4-byte response | shorten the first buffer by `cur_pos` | high, not executed | WritePath.IovecsAsWrittenOverrun | WritePath.IovecsGatherUnsent |
| src/network/mt_nonblocking/Connection.cpp:131 | `write(_socket, iovecs, size)` sends the memory of the `iovec` array, at most `size` bytes, instead of the responses | queue ["OK\r\n"]: at most 1 byte is sent, and it is the first byte of the `iovec` array | `writev(_socket, iovecs, size)`, sending the unsent bytes of the queue | high, not executed | WritePath.WriteAsWrittenOnOk | WritePath.IovecsGatherUnsent |
| src/network/mt_nonblocking/Connection.cpp:142-145 | `cur_pos - iov_len` is unsigned, so the test always holds, and `i` is incremented before `iovecs[i]` is read | any queue of `size` responses: the loop reads `iovecs[1]` to `iovecs[size]` | drop leading responses while the written count covers them | high, not executed | WritePath.RemovalReadsPastEnd | WritePath.DropCoveredKeepsUnsent |
| src/network/mt_nonblocking/Connection.cpp:146 | exactly one response is erased after any successful write | one "OK\r\n" queued and 1 byte written: the response is erased with 3 bytes unsent | erase exactly the responses the written bytes cover | high, not executed | WritePath.EraseAsWrittenLoses | WritePath.AdvanceSendsExactly |
