/** One connection of the multi-threaded non-blocking server: the fields of
    Connection.h and the callbacks of Connection.cpp that the event loop
    invokes on readiness. The socket calls are parameters: `DoRead` gets what
    the successive `read` calls return, `DoWrite` what `write` returned. */
module Network {
  import opened Wire
  import opened Epoll
  import opened Collaborators
  import opened ReadPath
  import WritePath

  class Connection<S(!new), C> {
    const socket: int
    /** The parser, the commands it builds and their execution; the storage is
        reached only through `execute`. */
    const proto: Protocol<S, C>

    /** `_event.events`, the interest mask. */
    var events: set<Event>
    var isAliveFlag: bool

    /** `client_buffer[4096]`; `nowPos` bytes of it are valid. */
    const clientBuffer: array<byte>
    var nowPos: nat

    var argRemains: nat
    var parser: S
    var argumentForCommand: seq<byte>
    var commandToExecute: Option<C>

    /** The queue of responses waiting to be written, and how many bytes of the
        first have been written. */
    var buffer: seq<seq<byte>>
    var curPos: nat

    /** The argument size, terminator included, that the pending command
        announced. */
    ghost var argExpected: nat

    ghost predicate Valid()
      reads this
    {
      ReadValid() && WriteValid()
    }

    /** The read side: the buffer has its fixed size and holds at most that
        many bytes; with no command nothing is expected or collected, and with
        one the bytes collected and the bytes still expected add up to what it
        announced. */
    ghost predicate ReadValid()
      reads this`nowPos, this`argRemains, this`argumentForCommand, this`commandToExecute, this`argExpected
    {
      && proto.Valid()
      && clientBuffer.Length == Capacity
      && nowPos <= Capacity
      && (commandToExecute.None? ==> argRemains == 0 && argumentForCommand == [])
      && (commandToExecute.Some? ==> |argumentForCommand| + argRemains == argExpected)
    }

    /** The write side: the cursor points into the first queued response. */
    ghost predicate WriteValid()
      reads this`buffer, this`curPos
    {
      WritePath.Cursor(buffer, curPos)
    }

    /** The fields the read side works on. */
    function Reading(): ReadState<S, C>
      reads this, clientBuffer
      requires nowPos <= clientBuffer.Length
    {
      ReadState(clientBuffer[..nowPos], parser, commandToExecute, argRemains,
                argumentForCommand, buffer, events)
    }

    /** The bytes of the queue not written yet. */
    function Unsent(): seq<byte>
      reads this
      requires Valid()
    {
      WritePath.CursorInRange(buffer, curPos);
      WritePath.Unsent(buffer, curPos)
    }

    /** Connection.h lines 18-22 and the field initialisers: alive, an empty
        read buffer, nothing queued, no command and a zeroed event record. The
        header leaves `arg_remains` uninitialised; it is read only once a
        command has set it, and starts at 0 here. */
    constructor (s: int, p: Protocol<S, C>)
      requires p.Valid()
      ensures Valid() && fresh(clientBuffer)
      ensures socket == s && proto == p
      ensures isAliveFlag && events == {}
      ensures nowPos == 0 && curPos == 0 && buffer == []
      ensures commandToExecute.None? && argumentForCommand == [] && argRemains == 0
      ensures parser == p.initial
      ensures Reading() == ReadState([], p.initial, None, 0, [], [], {})
    {
      socket, proto := s, p;
      clientBuffer := new byte[Capacity];
      events := {};
      isAliveFlag := true;
      nowPos, curPos := 0, 0;
      argRemains := 0;
      parser := p.initial;
      argumentForCommand := [];
      commandToExecute := None;
      buffer := [];
      argExpected := 0;
    }

    /** `isAlive()`: reads the flag and changes nothing. */
    method IsAlive() returns (alive: bool)
      ensures alive == isAliveFlag
    {
      alive := isAliveFlag;
    }

    /** Lines 10-15: ask for input, hang-up and error readiness, and not for
        output. No socket I/O. */
    method Start()
      modifies this`events
      ensures events == ReadInterest && EpollOut !in events
    {
      events := {EpollIn, EpollRdHup, EpollErr};
    }

    /** Lines 18-23: the connection is dead; buffers and interest are left as
        they are, so a second call changes nothing more. */
    method OnError()
      modifies this`isAliveFlag
      ensures !isAliveFlag
    {
      isAliveFlag := false;
    }

    /** Lines 26-30: as `OnError`. */
    method OnClose()
      modifies this`isAliveFlag
      ensures !isAliveFlag
    {
      isAliveFlag := false;
    }

    /** `memmove(client_buffer, client_buffer + n, now_pos - n); now_pos -= n`:
        the bytes after the first `n` move to the front, in order. */
    method Compact(n: nat)
      requires nowPos <= clientBuffer.Length && n <= nowPos
      modifies this`nowPos, clientBuffer
      ensures nowPos == old(nowPos) - n
      ensures clientBuffer[..nowPos] == old(clientBuffer[n..nowPos])
    {
      var i := 0;
      while i < nowPos - n
        invariant nowPos == old(nowPos) && 0 <= i <= nowPos - n
        invariant forall k | 0 <= k < i :: clientBuffer[k] == old(clientBuffer[k + n])
        invariant forall k | i <= k < clientBuffer.Length :: clientBuffer[k] == old(clientBuffer[k])
      {
        clientBuffer[i] := clientBuffer[i + n];
        i := i + 1;
      }
      nowPos := nowPos - n;
    }

    /** A successful `read` into `client_buffer + now_pos`: the bytes go after
        the valid ones and `now_pos` grows by their number. */
    method Store(data: seq<byte>)
      requires nowPos + |data| <= clientBuffer.Length
      modifies this`nowPos, clientBuffer
      ensures nowPos == old(nowPos) + |data|
      ensures clientBuffer[..nowPos] == old(clientBuffer[..nowPos]) + data
    {
      var i := 0;
      while i < |data|
        invariant nowPos == old(nowPos) && 0 <= i <= |data|
        invariant clientBuffer[..nowPos + i] == old(clientBuffer[..nowPos]) + data[..i]
      {
        clientBuffer[nowPos + i] := data[i];
        i := i + 1;
      }
      nowPos := nowPos + |data|;
    }

    /** Lines 50-70 on the fields. */
    method ParseCommand() returns (stop: bool)
      requires Valid()
      modifies this, clientBuffer
      ensures Valid() && nowPos <= old(nowPos)
      ensures (Reading(), stop) == ParsePhase(proto, old(Reading()))
      ensures curPos == old(curPos) && isAliveFlag == old(isAliveFlag)
    {
      stop := false;
      if commandToExecute.None? {
        var parsed := proto.parse(parser, clientBuffer[..nowPos]);
        parser := parsed.next;
        if parsed.complete {
          var built := proto.build(parser);
          commandToExecute := Some(built.0);
          argRemains := built.1;
          if argRemains > 0 {
            argRemains := argRemains + 2;
          }
          argExpected := argRemains;
        }
        if parsed.consumed == 0 {
          stop := true;
        } else {
          Compact(parsed.consumed);
        }
      }
    }

    /** Lines 73-82 on the fields. */
    method FillArgument()
      requires Valid()
      modifies this, clientBuffer
      ensures Valid() && nowPos <= old(nowPos)
      ensures Reading() == ArgumentPhase(old(Reading()))
      ensures curPos == old(curPos) && isAliveFlag == old(isAliveFlag)
    {
      if commandToExecute.Some? && argRemains > 0 {
        var toRead := Min(argRemains, nowPos);
        argumentForCommand := argumentForCommand + clientBuffer[..toRead];
        Compact(toRead);
        argRemains := argRemains - toRead;
      }
    }

    /** Lines 85-100 on the fields. */
    method RunCommand()
      requires Valid()
      modifies this
      ensures Valid()
      ensures Reading() == ExecutePhase(proto, old(Reading()))
      ensures curPos == old(curPos) && isAliveFlag == old(isAliveFlag) && nowPos == old(nowPos)
      ensures Unsent() == old(Unsent()) + Concat(buffer[|old(buffer)|..])
    {
      ghost var before := buffer;
      if commandToExecute.Some? && argRemains == 0 {
        var result := proto.execute(commandToExecute.value, argumentForCommand);
        result := result + Crlf;
        buffer := buffer + [result];
        events := events + {EpollOut};
        commandToExecute := None;
        argumentForCommand := [];
        parser := proto.initial;
        assert buffer[|before|..] == [result];
        assert Concat([result]) == result + Concat([]);
        if before != [] { ConcatHead(before); }
        WritePath.UnsentAppend(before, curPos, result);
      } else {
        assert buffer[|before|..] == [];
      }
    }

    /** One pass of lines 47-101 on a non-empty buffer; `stop` says the loop
        breaks. */
    method Pass() returns (stop: bool)
      requires Valid() && nowPos > 0
      modifies this, clientBuffer
      ensures Valid()
      ensures (Reading(), stop) == Step(proto, old(Reading()))
      ensures curPos == old(curPos) && isAliveFlag == old(isAliveFlag)
    {
      ghost var start := Reading();
      stop := ParseCommand();
      if !stop {
        ghost var parsed := Reading();
        FillArgument();
        ghost var filled := Reading();
        assert filled == ArgumentPhase(parsed);
        RunCommand();
      }
    }

    /** Lines 47-101, the processing loop. */
    method Process()
      requires Valid()
      modifies this, clientBuffer
      ensures Valid()
      ensures Reading() == Drain(proto, old(Reading()))
      ensures curPos == old(curPos) && isAliveFlag == old(isAliveFlag)
    {
      ghost var goal := Drain(proto, Reading());
      while nowPos > 0
        invariant Valid()
        invariant Drain(proto, Reading()) == goal
        invariant curPos == old(curPos) && isAliveFlag == old(isAliveFlag)
        decreases nowPos, if commandToExecute.Some? then 1 else 0
      {
        var stop := Pass();
        if stop {
          break;
        }
      }
    }

    /** Lines 41-101: the bytes one successful read brought are stored after the
        unconsumed ones and processed. */
    method Receive(data: seq<byte>)
      requires Valid() && nowPos + |data| <= Capacity
      modifies this, clientBuffer
      ensures Valid()
      ensures Reading() == Drain(proto, old(Reading()).(input := old(Reading()).input + data))
      ensures curPos == old(curPos) && isAliveFlag == old(isAliveFlag)
    {
      ghost var filled := Reading().(input := Reading().input + data);
      Store(data);
      assert Reading() == filled;
      Process();
    }

    /** One turn of the read loop of lines 40-102: one `read` into the free
        part of the buffer and, when it brought bytes, their processing. The
        read loop from here is the read loop from the new state on what the
        socket has left, or ends here with the read's result. */
    method ReadOnce(sock: Socket) returns (got: ReadResult, rest: Socket)
      requires Valid()
      modifies this, clientBuffer
      ensures Valid() && curPos == old(curPos) && isAliveFlag == old(isAliveFlag)
      ensures (got, rest) == Recv(sock, Capacity - old(nowPos))
      ensures got.Data? ==> ReadLoop(proto, old(Reading()), sock) == ReadLoop(proto, Reading(), rest)
      ensures !got.Data? ==> Reading() == old(Reading()) && ReadLoop(proto, old(Reading()), sock) == (Reading(), got)
    {
      got, rest := Recv(sock, Capacity - nowPos).0, Recv(sock, Capacity - nowPos).1;
      if got.Data? {
        Receive(got.bytes);
      }
    }

    /** Lines 33-114. Reads until a read returns 0 or fails, processing what
        each read brought; then the connection is dead whatever ended the
        loop (line 104). The result is the read that ended the loop, which the
        source only logs. */
    method DoRead(sock: Socket) returns (last: ReadResult)
      requires Valid()
      modifies this, clientBuffer
      ensures Valid() && !isAliveFlag
      ensures (Reading(), last) == ReadLoop(proto, old(Reading()), sock)
      ensures curPos == old(curPos)
    {
      var rest := sock;
      ghost var goal := ReadLoop(proto, Reading(), sock);
      while true
        invariant Valid() && curPos == old(curPos)
        invariant ReadLoop(proto, Reading(), rest) == goal
        decreases |rest.segments|, HeadLength(rest)
      {
        var got, left := ReadOnce(rest);
        if !got.Data? {
          last := got;
          break;
        }
        rest := left;
      }
      isAliveFlag := false;
    }

    /** Lines 118-150 as they are evidently meant: the buffers of
        `WritePath.Iovecs` go to one scatter-gather write of the unsent bytes,
        and `written` is what it returned. A non-positive result kills the
        connection and is reported as failure (the source throws, line 135);
        otherwise every leading response the written bytes cover leaves the
        queue and the rest of the count is the cursor into the new first
        response. Once the queue is empty only input, hang-up and error
        readiness are asked for. The source shifts the first buffer without
        shortening it (line 129), calls `write` on the `iovec` array instead of
        a scatter-gather write (line 131), tests its removal loop in unsigned
        arithmetic and reads one element past the end (lines 142-145), and then
        erases exactly one response (line 146); `WritePath` models those lines
        as written. */
    method DoWrite(written: int) returns (ok: bool)
      requires Valid() && buffer != []
      requires written <= |Unsent()|
      modifies this`isAliveFlag, this`buffer, this`curPos, this`events
      ensures Valid()
      ensures ok <==> written > 0
      ensures !ok ==> !isAliveFlag && buffer == old(buffer) && curPos == old(curPos) && events == old(events)
      ensures ok ==> isAliveFlag == old(isAliveFlag)
      ensures ok ==> (buffer, curPos) == WritePath.DropCovered(old(buffer), old(curPos) + written)
      ensures ok ==> Unsent() == old(Unsent())[written..]
      ensures ok ==> events == if buffer == [] then ReadInterest else old(events)
    {
      if written <= 0 {
        isAliveFlag := false;
        return false;
      }
      WritePath.AdvanceSendsExactly(buffer, curPos, written);
      var rest, cursor := DropWritten(buffer, curPos + written);
      buffer, curPos := rest, cursor;
      if buffer == [] {
        events := {EpollIn, EpollRdHup, EpollErr};
      }
      ok := true;
    }
  }

  /** Lines 140-146 as they are evidently meant: walk the queue from its front,
      subtracting the length of every response the `pos` written bytes cover,
      and drop those responses. */
  method DropWritten(q: seq<seq<byte>>, pos: nat) returns (rest: seq<seq<byte>>, cursor: nat)
    requires pos <= |Concat(q)|
    ensures (rest, cursor) == WritePath.DropCovered(q, pos)
  {
    cursor := pos;
    var i := 0;
    while i < |q| && cursor >= |q[i]|
      invariant 0 <= i <= |q|
      invariant cursor <= |Concat(q[i..])|
      invariant WritePath.DropCovered(q[i..], cursor) == WritePath.DropCovered(q, pos)
    {
      assert q[i..][1..] == q[i + 1..];
      ConcatHead(q[i..]);
      cursor := cursor - |q[i]|;
      i := i + 1;
    }
    rest := q[i..];
  }
}
