/** The read side of a connection as functions over its state: what one pass
    of the processing loop does, the processing loop itself, and the loop that
    reads from the socket until it has nothing more to give. The methods of
    `Network.Connection` are proved against these functions. */
module ReadPath {
  import opened Wire
  import opened Epoll
  import opened Collaborators

  /** Size of the fixed read buffer `client_buffer`. */
  const Capacity: nat := 4096

  /** What one `read` call on the socket returns: some bytes, 0 (the peer
      closed), or -1 (an error, `EAGAIN` included). */
  datatype ReadResult = Data(bytes: seq<byte>) | EndOfStream | Failure

  /** The bytes the peer has sent and the kernel has not handed over yet, in the
      segments the kernel hands them over in; `hungUp` says whether, once they
      are used up, the next read returns 0 (peer closed) rather than -1. A
      segment of length 0 stands for a read that returns 0. */
  datatype Socket = Socket(segments: seq<seq<byte>>, hungUp: bool)

  function HeadLength(s: Socket): nat
  {
    if s.segments == [] then 0 else |s.segments[0]|
  }

  /** One `read(fd, client_buffer + now_pos, room)`: a read of 0 bytes returns
      0 whatever the socket holds; otherwise at most `room` bytes of the first
      segment, the rest of that segment staying in the socket. */
  function Recv(s: Socket, room: nat): (r: (ReadResult, Socket))
    ensures r.0.Data? <==> room > 0 && HeadLength(s) > 0
    ensures r.0.Data? ==> 0 < |r.0.bytes| <= room
    ensures r.0.Data? ==> |r.1.segments| < |s.segments|
                          || (|r.1.segments| == |s.segments| && HeadLength(r.1) < HeadLength(s))
    ensures r.0 == Failure <==> room > 0 && s.segments == [] && !s.hungUp
    ensures room == 0 ==> r == (EndOfStream, s)
  {
    if room == 0 then
      (EndOfStream, s)
    else if s.segments == [] then
      (if s.hungUp then EndOfStream else Failure, s)
    else
      var head := s.segments[0];
      var n := Min(room, |head|);
      if n == 0 then
        (EndOfStream, s)
      else if n == |head| then
        assert head[..n] == head;
        (Data(head), s.(segments := s.segments[1..]))
      else
        (Data(head[..n]), s.(segments := [head[n..]] + s.segments[1..]))
  }

  /** A read hands over the peer's bytes in the order they were sent: what it
      returns followed by what stays in the socket is what the socket held. */
  lemma RecvConserves(s: Socket, room: nat)
    requires Recv(s, room).0.Data?
    ensures Concat(s.segments) == Recv(s, room).0.bytes + Concat(Recv(s, room).1.segments)
  {
    var head := s.segments[0];
    var n := Min(room, |head|);
    ConcatHead(s.segments);
    if n < |head| {
      var rest := [head[n..]] + s.segments[1..];
      assert rest[0] == head[n..] && rest[1..] == s.segments[1..];
      assert head == head[..n] + head[n..];
      ConcatHead(rest);
    }
  }

  /** The part of a connection's state that reading changes.
      - `input` is `client_buffer[0..now_pos)`, the bytes not consumed yet;
      - `parser` is the incremental parser's progress;
      - `command` is `command_to_execute`, built but not yet run;
      - `argRemains` counts argument bytes (terminator included) still to come;
      - `argument` is `argument_for_command`, the argument bytes collected;
      - `buffer` is the queue of responses waiting to be written;
      - `events` is the interest mask. */
  datatype ReadState<S, C> = ReadState(
    input: seq<byte>,
    parser: S,
    command: Option<C>,
    argRemains: nat,
    argument: seq<byte>,
    buffer: seq<seq<byte>>,
    events: set<Event>)

  /** The phases of one request exclude each other: with no command built,
      nothing is expected and nothing has been collected. */
  predicate Coherent<S, C>(r: ReadState<S, C>)
  {
    r.command.None? ==> r.argRemains == 0 && r.argument == []
  }

  /** `b` is a state that processing can reach from `a`: the responses queued
      in `a` stay queued, in order; every response added ends with "\r\n";
      output readiness is the only interest added, and it is asked for once
      something was added; the phases of a request stay exclusive. */
  ghost predicate Follows<S, C>(a: ReadState<S, C>, b: ReadState<S, C>)
  {
    && a.buffer <= b.buffer
    && (forall i | |a.buffer| <= i < |b.buffer| :: Framed(b.buffer[i]))
    && a.events <= b.events && b.events <= a.events + {EpollOut}
    && (|b.buffer| > |a.buffer| ==> EpollOut in b.events)
    && (Coherent(a) ==> Coherent(b))
  }

  lemma FollowsTransitive<S, C>(a: ReadState<S, C>, b: ReadState<S, C>, c: ReadState<S, C>)
    requires Follows(a, b) && Follows(b, c)
    ensures Follows(a, c)
  {
    forall i | |a.buffer| <= i < |c.buffer|
      ensures Framed(c.buffer[i])
    {
      if i < |b.buffer| {
        assert c.buffer[i] == b.buffer[i];
      }
    }
  }

  /** `Follows` does not look at the unconsumed input. */
  lemma FollowsRefilled<S, C>(a: ReadState<S, C>, bytes: seq<byte>, b: ReadState<S, C>)
    requires Follows(a.(input := a.input + bytes), b)
    ensures Follows(a, b)
  {
  }

  /** Argument bytes to expect after a command that announces `k` of them: the
      argument is followed by a two-byte terminator, collected with it. */
  function Expected(k: nat): (n: nat)
    ensures n == 0 <==> k == 0
    ensures k > 0 ==> n == k + |Crlf|
  {
    if k > 0 then k + 2 else 0
  }

  /** Lines 50-70 of the read loop: with no command pending, feed the unconsumed
      bytes to the parser, build the command it recognises, and drop the bytes
      it used from the front of the buffer. The flag says the loop breaks
      because the parser used nothing. */
  function ParsePhase<S(!new), C>(p: Protocol<S, C>, r: ReadState<S, C>): (out: (ReadState<S, C>, bool))
    requires p.Valid()
    ensures r.command.Some? ==> out == (r, false)
    ensures r.command.None? ==>
              var res := p.parse(r.parser, r.input);
              && (out.1 <==> res.consumed == 0)
              && r.input == r.input[..res.consumed] + out.0.input
              && out.0.parser == res.next
              && (res.complete ==> out.0.command == Some(p.build(res.next).0)
                                   && out.0.argRemains == Expected(p.build(res.next).1))
              && (!res.complete ==> out.0.command.None? && out.0.argRemains == r.argRemains)
    ensures IsSuffix(out.0.input, r.input)
    ensures out.0.buffer == r.buffer && out.0.events == r.events && out.0.argument == r.argument
    ensures Coherent(r) ==> Coherent(out.0)
  {
    if r.command.Some? then
      (r, false)
    else
      var res := p.parse(r.parser, r.input);
      var parsed :=
        if res.complete then
          var built := p.build(res.next);
          r.(parser := res.next, command := Some(built.0), argRemains := Expected(built.1))
        else
          r.(parser := res.next);
      assert r.input == r.input[..res.consumed] + r.input[res.consumed..];
      (parsed.(input := r.input[res.consumed..]), res.consumed == 0)
  }

  /** Lines 73-82: with a command waiting for its argument, move as many of the
      expected bytes as the buffer holds from its front to the argument. */
  function ArgumentPhase<S, C>(r: ReadState<S, C>): (out: ReadState<S, C>)
    ensures out.argument + out.input == r.argument + r.input
    ensures IsSuffix(out.input, r.input)
    ensures |out.argument| + out.argRemains == |r.argument| + r.argRemains
    ensures r.command.Some? && r.argRemains > 0 ==>
              |out.argument| == |r.argument| + Min(r.argRemains, |r.input|)
    ensures !(r.command.Some? && r.argRemains > 0) ==> out == r
    ensures out.command == r.command && out.parser == r.parser
    ensures out.buffer == r.buffer && out.events == r.events
  {
    if r.command.Some? && r.argRemains > 0 then
      var n := Min(r.argRemains, |r.input|);
      assert r.input == r.input[..n] + r.input[n..];
      r.(argument := r.argument + r.input[..n], input := r.input[n..], argRemains := r.argRemains - n)
    else
      r
  }

  /** Lines 85-100: with a command whose argument is complete, run it, queue its
      result followed by "\r\n", ask for output readiness and get ready for the
      next command. */
  function ExecutePhase<S(!new), C>(p: Protocol<S, C>, r: ReadState<S, C>): (out: ReadState<S, C>)
    ensures r.command.Some? && r.argRemains == 0 ==>
              && out.buffer == r.buffer + [p.execute(r.command.value, r.argument) + Crlf]
              && Framed(out.buffer[|r.buffer|])
              && out.events == r.events + {EpollOut}
              && out.command.None? && out.argument == [] && out.parser == p.initial
              && out.input == r.input && out.argRemains == 0
    ensures !(r.command.Some? && r.argRemains == 0) ==> out == r
  {
    if r.command.Some? && r.argRemains == 0 then
      var response := p.execute(r.command.value, r.argument) + Crlf;
      assert response[|response| - |Crlf|..] == Crlf;
      r.(buffer := r.buffer + [response], events := r.events + {EpollOut},
         command := None, argument := [], parser := p.initial)
    else
      r
  }

  /** One pass of the processing loop (lines 47-101) on a non-empty buffer. The
      flag says the loop breaks. Every pass that does not break uses up at least
      one byte or runs the pending command, so the pair (bytes left, command
      pending) decreases: the loop terminates. */
  function Step<S(!new), C>(p: Protocol<S, C>, r: ReadState<S, C>): (out: (ReadState<S, C>, bool))
    requires p.Valid() && |r.input| > 0
    ensures |out.0.input| <= |r.input|
    ensures !out.1 ==> |out.0.input| < |r.input|
                       || (|out.0.input| == |r.input| && r.command.Some? && out.0.command.None?)
  {
    var parsed := ParsePhase(p, r);
    if parsed.1 then parsed else (ExecutePhase(p, ArgumentPhase(parsed.0)), false)
  }

  /** One pass only takes input from the front of the buffer. */
  lemma StepTakesFront<S(!new), C>(p: Protocol<S, C>, r: ReadState<S, C>)
    requires p.Valid() && |r.input| > 0
    ensures IsSuffix(Step(p, r).0.input, r.input)
  {
    var parsed := ParsePhase(p, r);
    if !parsed.1 {
      var filled := ArgumentPhase(parsed.0);
      assert Step(p, r).0.input == filled.input;
      SuffixTransitive(filled.input, parsed.0.input, r.input);
    }
  }

  /** One pass reaches a state that `Follows` and adds at most one response. */
  lemma StepQueues<S(!new), C>(p: Protocol<S, C>, r: ReadState<S, C>)
    requires p.Valid() && |r.input| > 0
    ensures Follows(r, Step(p, r).0) && |Step(p, r).0.buffer| <= |r.buffer| + 1
  {
    var parsed := ParsePhase(p, r);
    if !parsed.1 {
      var filled := ArgumentPhase(parsed.0);
      assert filled.buffer == r.buffer && filled.events == r.events;
      assert Coherent(r) ==> Coherent(filled);
      var out := ExecutePhase(p, filled);
      forall i | |r.buffer| <= i < |out.buffer|
        ensures Framed(out.buffer[i])
      {
        assert i == |filled.buffer|;
      }
    }
  }

  /** The processing loop `while (now_pos > 0)`: passes until the buffer is
      empty or the parser cannot use what is left. */
  function Drain<S(!new), C>(p: Protocol<S, C>, r: ReadState<S, C>): (out: ReadState<S, C>)
    requires p.Valid()
    ensures |out.input| <= |r.input|
    decreases |r.input|, if r.command.Some? then 1 else 0
  {
    if |r.input| == 0 then
      r
    else
      var next := Step(p, r);
      if next.1 then next.0 else Drain(p, next.0)
  }

  /** The processing loop only consumes input from the front of the buffer. */
  lemma {:induction false} DrainTakesFront<S(!new), C>(p: Protocol<S, C>, r: ReadState<S, C>)
    requires p.Valid()
    ensures IsSuffix(Drain(p, r).input, r.input)
    decreases |r.input|, if r.command.Some? then 1 else 0
  {
    if |r.input| > 0 {
      var next := Step(p, r);
      if !next.1 {
        StepTakesFront(p, r);
        DrainTakesFront(p, next.0);
        SuffixTransitive(Drain(p, next.0).input, next.0.input, r.input);
      }
    }
  }

  /** Whatever the processing loop does reaches a state that `Follows`. */
  lemma {:induction false} DrainQueues<S(!new), C>(p: Protocol<S, C>, r: ReadState<S, C>)
    requires p.Valid()
    ensures Follows(r, Drain(p, r))
    decreases |r.input|, if r.command.Some? then 1 else 0
  {
    if |r.input| > 0 {
      var next := Step(p, r);
      StepQueues(p, r);
      if !next.1 {
        DrainQueues(p, next.0);
        FollowsTransitive(r, next.0, Drain(p, next.0));
      }
    }
  }

  /** The read loop of `DoRead` (lines 40-102): read into the free part of the
      buffer, process, and repeat while reads return bytes. The result is the
      state afterwards and the read that ended the loop. */
  function ReadLoop<S(!new), C>(p: Protocol<S, C>, r: ReadState<S, C>, s: Socket): (out: (ReadState<S, C>, ReadResult))
    requires p.Valid() && |r.input| <= Capacity
    ensures !out.1.Data? && |out.0.input| <= Capacity
    decreases |s.segments|, HeadLength(s)
  {
    var got := Recv(s, Capacity - |r.input|);
    if got.0.Data? then
      var drained := Drain(p, r.(input := r.input + got.0.bytes));
      ReadLoop(p, drained, got.1)
    else
      (r, got.0)
  }

  /** The bytes of one read, stored and processed, reach a state that
      `Follows`. */
  lemma ReceiveFollows<S(!new), C>(p: Protocol<S, C>, r: ReadState<S, C>, bytes: seq<byte>)
    requires p.Valid()
    ensures Follows(r, Drain(p, r.(input := r.input + bytes)))
  {
    var filled := r.(input := r.input + bytes);
    DrainQueues(p, filled);
    FollowsRefilled(r, bytes, Drain(p, filled));
  }

  /** Whatever the read loop reads, it reaches a state that `Follows`. */
  lemma {:induction false} ReadLoopQueues<S(!new), C>(p: Protocol<S, C>, r: ReadState<S, C>, s: Socket)
    requires p.Valid() && |r.input| <= Capacity
    ensures Follows(r, ReadLoop(p, r, s).0)
    decreases |s.segments|, HeadLength(s)
  {
    var got := Recv(s, Capacity - |r.input|);
    if got.0.Data? {
      var drained := Drain(p, r.(input := r.input + got.0.bytes));
      ReceiveFollows(p, r, got.0.bytes);
      ReadLoopQueues(p, drained, got.1);
      FollowsTransitive(r, drained, ReadLoop(p, drained, got.1).0);
    } else {
      assert Follows(r, r);
    }
  }

  /** With a full buffer the read loop asks for 0 bytes, gets 0 back and ends as
      though the peer had closed, whatever the socket still holds. */
  lemma FullBufferReadsAsClosed<S(!new), C>(p: Protocol<S, C>, r: ReadState<S, C>, s: Socket)
    requires p.Valid() && |r.input| == Capacity
    ensures ReadLoop(p, r, s) == (r, EndOfStream)
  {
  }
}
