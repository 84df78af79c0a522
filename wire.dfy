/** Bytes, the optional value and the line terminator shared by the read and
    write paths of a connection. */
module Wire {

  /** One octet of the socket's byte stream. */
  newtype byte = x: int | 0 <= x < 256

  datatype Option<T> = None | Some(value: T)

  /** The two bytes "\r\n" that close every response and follow every argument. */
  const Crlf: seq<byte> := [13, 10]

  function Min(a: nat, b: nat): (m: nat)
    ensures m <= a && m <= b && (m == a || m == b)
  {
    if a <= b then a else b
  }

  /** `b` is what is left of `a` once some prefix of it has been taken away. */
  ghost predicate IsSuffix<T>(b: seq<T>, a: seq<T>)
  {
    |b| <= |a| && b == a[|a| - |b|..]
  }

  lemma SuffixTransitive<T>(c: seq<T>, b: seq<T>, a: seq<T>)
    requires IsSuffix(c, b) && IsSuffix(b, a)
    ensures IsSuffix(c, a)
  {
    assert a[|a| - |b|..][|b| - |c|..] == a[|a| - |c|..];
  }

  /** A response as it is queued for sending: it ends with "\r\n". */
  predicate Framed(response: seq<byte>)
  {
    |response| >= |Crlf| && response[|response| - |Crlf|..] == Crlf
  }

  /** The bytes of a queue of responses, sent one after the other. */
  function Concat(q: seq<seq<byte>>): seq<byte>
  {
    if q == [] then [] else q[0] + Concat(q[1..])
  }

  /** Appending an entry to a queue appends its bytes to the byte stream. */
  lemma {:induction false} ConcatAppend(q: seq<seq<byte>>, x: seq<byte>)
    ensures Concat(q + [x]) == Concat(q) + x
  {
    if q == [] {
      assert q + [x] == [x];
      assert Concat([x]) == x + Concat([]);
    } else {
      assert (q + [x])[0] == q[0];
      assert (q + [x])[1..] == q[1..] + [x];
      ConcatAppend(q[1..], x);
    }
  }

  /** The first entry of a non-empty queue is a prefix of its byte stream. */
  lemma ConcatHead(q: seq<seq<byte>>)
    requires q != []
    ensures Concat(q) == q[0] + Concat(q[1..])
    ensures |q[0]| <= |Concat(q)|
  {
  }
}

/** The readiness conditions of the multiplexer that a connection can ask for. */
module Epoll {

  datatype Event = EpollIn | EpollOut | EpollRdHup | EpollErr

  /** The interest of a connection with nothing to send: input, peer hang-up, error. */
  const ReadInterest: set<Event> := {EpollIn, EpollRdHup, EpollErr}
}

/** The collaborators a connection calls but does not own: the incremental
    protocol parser, the command it builds and the command's execution against
    the storage. Only their contracts are part of this model. */
module Collaborators {
  import opened Wire

  /** What one call of the parser reports: whether a command was recognised,
      how many bytes it used, and the parser's progress afterwards. */
  datatype ParseResult<S> = ParseResult(complete: bool, consumed: nat, next: S)

  /** A protocol over parser states `S` and commands `C`.
      - `initial` is the state of a fresh or reset parser;
      - `parse(s, bytes)` feeds the unconsumed bytes to the parser;
      - `build(s)` makes the recognised command and says how many argument
        bytes follow it (without their terminator);
      - `execute(c, argument)` runs the command against the storage and gives
        the result text. */
  datatype Protocol<!S(!new), !C> = Protocol(
    initial: S,
    parse: (S, seq<byte>) -> ParseResult<S>,
    build: S -> (C, nat),
    execute: (C, seq<byte>) -> seq<byte>)
  {
    /** The parser never reports more bytes used than it was given. */
    ghost predicate Valid()
    {
      forall s, bytes :: parse(s, bytes).consumed <= |bytes|
    }
  }
}
