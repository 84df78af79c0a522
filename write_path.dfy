/** The write side of a connection as functions over its outbound queue: the
    bytes still to send, the buffers meant for a scatter-gather write, and
    what a write of `n` bytes leaves in the queue. `DoWrite` in
    Connection.cpp lines 122-146 does not do what it evidently means to; the
    functions here model the intent, and the members marked "as written" model
    the lines that differ, with a concrete input that shows each difference:
    - line 129 moves the start of the first buffer by `cur_pos` but keeps its
      full length, so the buffer runs `cur_pos` bytes past the end of its
      response, which a scatter-gather write of the buffers would read;
    - line 131 calls `write`, not `writev`: it hands the kernel the memory of
      the `iovec` array itself with a byte count equal to the number of
      responses, so it sends at most that many bytes, none of them from a
      response;
    - lines 142-145 compare `cur_pos - iov_len` in unsigned arithmetic, which is
      never negative, and read `iovecs[i]` after incrementing `i`, so the loop
      reads `iovecs[size]`;
    - line 146 erases exactly one queued response whatever was written. */
module WritePath {
  import opened Wire

  /** The bytes of the queue not yet written: all of it after the first `cur`
      bytes of its first entry. */
  function Unsent(q: seq<seq<byte>>, cur: nat): seq<byte>
    requires cur <= |Concat(q)|
  {
    Concat(q)[cur..]
  }

  /** Queueing a response leaves the bytes waiting before it as they were. */
  lemma UnsentAppend(q: seq<seq<byte>>, cur: nat, x: seq<byte>)
    requires cur <= |Concat(q)|
    ensures |Concat(q)| <= |Concat(q + [x])|
    ensures Unsent(q + [x], cur) == Unsent(q, cur) + x
  {
    ConcatAppend(q, x);
  }

  /** The cursor points inside the first queued response, or is 0 when nothing
      is queued. */
  predicate Cursor(q: seq<seq<byte>>, cur: nat)
  {
    if q == [] then cur == 0 else cur < |q[0]|
  }

  lemma CursorInRange(q: seq<seq<byte>>, cur: nat)
    requires Cursor(q, cur)
    ensures cur <= |Concat(q)|
  {
    if q != [] {
      ConcatHead(q);
    }
  }

  /** After `pos` bytes of the queue have gone out, drop every leading entry
      they cover completely; what remains of `pos` is the cursor into the new
      first entry, which the written bytes do not cover. */
  function DropCovered(q: seq<seq<byte>>, pos: nat): (r: (seq<seq<byte>>, nat))
    requires pos <= |Concat(q)|
    ensures |r.0| <= |q| && Cursor(r.0, r.1)
    decreases |q|
  {
    if q != [] && pos >= |q[0]| then
      ConcatHead(q);
      DropCovered(q[1..], pos - |q[0]|)
    else
      (q, pos)
  }

  /** Only leading entries are dropped: what is left is a suffix of the queue,
      in order. */
  lemma {:induction false} DropCoveredSuffix(q: seq<seq<byte>>, pos: nat)
    requires pos <= |Concat(q)|
    ensures IsSuffix(DropCovered(q, pos).0, q)
    decreases |q|
  {
    if q != [] && pos >= |q[0]| {
      ConcatHead(q);
      DropCoveredSuffix(q[1..], pos - |q[0]|);
      SuffixTransitive(DropCovered(q, pos).0, q[1..], q);
    }
  }

  /** Dropping what the written bytes cover leaves the same bytes unsent. */
  lemma {:induction false} DropCoveredKeepsUnsent(q: seq<seq<byte>>, pos: nat)
    requires pos <= |Concat(q)|
    ensures var r := DropCovered(q, pos);
            r.1 <= |Concat(r.0)| && Unsent(r.0, r.1) == Unsent(q, pos)
    decreases |q|
  {
    var r := DropCovered(q, pos);
    CursorInRange(r.0, r.1);
    if q != [] && pos >= |q[0]| {
      ConcatHead(q);
      DropCoveredKeepsUnsent(q[1..], pos - |q[0]|);
      assert Concat(q)[pos..] == Concat(q[1..])[pos - |q[0]|..];
    }
  }

  /** A write of `n` bytes from cursor `cur` leaves unsent exactly the bytes
      after the first `n` that were unsent before: nothing is sent twice and
      nothing is skipped. */
  lemma AdvanceSendsExactly(q: seq<seq<byte>>, cur: nat, n: nat)
    requires cur + n <= |Concat(q)|
    ensures var r := DropCovered(q, cur + n);
            r.1 <= |Concat(r.0)| && Unsent(r.0, r.1) == Unsent(q, cur)[n..]
  {
    DropCoveredKeepsUnsent(q, cur + n);
  }

  /** A buffer handed to the scatter-gather write: an offset into a queued
      response and a length. */
  datatype Iovec = Iovec(offset: nat, length: nat)

  /** The buffers the write is meant to get: all of every entry, except that
      the first starts `cur` bytes in and is shortened by as much. */
  function Iovecs(q: seq<seq<byte>>, cur: nat): (v: seq<Iovec>)
    requires q != [] && cur <= |q[0]|
    ensures |v| == |q|
    ensures forall i | 0 <= i < |v| :: v[i].offset + v[i].length == |q[i]|
  {
    [Iovec(cur, |q[0]| - cur)] + Whole(q[1..])
  }

  function Whole(q: seq<seq<byte>>): (v: seq<Iovec>)
    ensures |v| == |q|
    ensures forall i | 0 <= i < |v| :: v[i] == Iovec(0, |q[i]|)
  {
    if q == [] then [] else [Iovec(0, |q[0]|)] + Whole(q[1..])
  }

  /** Line 129 as written: the first buffer starts `cur` bytes in and keeps its
      full length. */
  function IovecsAsWritten(q: seq<seq<byte>>, cur: nat): (v: seq<Iovec>)
    requires q != []
    ensures |v| == |q| && v[0] == Iovec(cur, |q[0]|)
  {
    [Iovec(cur, |q[0]|)] + Whole(q[1..])
  }

  /** Every buffer lies inside the response it points into. */
  predicate InBounds(q: seq<seq<byte>>, v: seq<Iovec>)
    requires |v| == |q|
  {
    forall i | 0 <= i < |v| :: v[i].offset + v[i].length <= |q[i]|
  }

  /** The bytes a scatter-gather write of these buffers would send. */
  function Gather(q: seq<seq<byte>>, v: seq<Iovec>): seq<byte>
    requires |v| == |q| && InBounds(q, v)
  {
    if q == [] then [] else q[0][v[0].offset..v[0].offset + v[0].length] + Gather(q[1..], v[1..])
  }

  lemma {:induction false} GatherWhole(q: seq<seq<byte>>)
    ensures InBounds(q, Whole(q)) && Gather(q, Whole(q)) == Concat(q)
  {
    if q != [] {
      var v := Whole(q);
      assert v[1..] == Whole(q[1..]);
      assert q[0][0..|q[0]|] == q[0];
      GatherWhole(q[1..]);
    }
  }

  /** The intended buffers stay inside their responses and gather exactly the
      unsent bytes of the queue. */
  lemma {:induction false} IovecsGatherUnsent(q: seq<seq<byte>>, cur: nat)
    requires q != [] && cur <= |q[0]|
    ensures InBounds(q, Iovecs(q, cur))
    ensures cur <= |Concat(q)| && Gather(q, Iovecs(q, cur)) == Unsent(q, cur)
  {
    var v := Iovecs(q, cur);
    assert v[1..] == Whole(q[1..]);
    GatherWhole(q[1..]);
    ConcatHead(q);
    assert Concat(q)[cur..] == q[0][cur..] + Concat(q[1..]);
  }

  /** Line 129 as written, on the queue ["OK\r\n"] with 2 bytes already sent:
      the buffer handed to the write runs 2 bytes past the end of the response. */
  lemma IovecsAsWrittenOverrun()
    ensures var q := [Ok()]; !InBounds(q, IovecsAsWritten(q, 2)) && InBounds(q, Iovecs(q, 2))
  {
    var q := [Ok()];
    assert IovecsAsWritten(q, 2)[0] == Iovec(2, 4);
  }

  /** Whenever part of the first response has been sent, the buffers of line 129
      run past the end of that response. */
  lemma IovecsAsWrittenOverrunsWhenResumed(q: seq<seq<byte>>, cur: nat)
    requires q != [] && 0 < cur <= |q[0]|
    ensures !InBounds(q, IovecsAsWritten(q, cur))
  {
    assert IovecsAsWritten(q, cur)[0].offset + IovecsAsWritten(q, cur)[0].length > |q[0]|;
  }

  /** Where a byte handed to the kernel comes from: a byte of a queued
      response, or a byte of the memory of the `iovec` array (entry and offset
      within its 16 bytes: base pointer, then length, on a 64-bit target). */
  datatype Origin = Response(entry: nat, offset: nat) | IovecMemory(entry: nat, offset: nat)

  const IovecBytes: nat := 16

  /** Line 131 as written: `write(fd, iovecs, size)` with `size` the number of
      queued responses. A call that returns `n` (never more than `size`) sent
      the first `n` bytes of the `iovec` array's memory. */
  function WriteAsWritten(q: seq<seq<byte>>, n: nat): (origins: seq<Origin>)
    requires n <= |q|
  {
    seq(n, i requires 0 <= i < n => IovecMemory(i / IovecBytes, i % IovecBytes))
  }

  /** The bytes the intended scatter-gather write of the buffers from `Iovecs`
      hands to the kernel, in order: the unsent bytes of every response. */
  function GatherOrigins(q: seq<seq<byte>>, cur: nat): (origins: seq<Origin>)
    requires q != [] && cur <= |q[0]|
  {
    seq(|q[0]| - cur, i requires 0 <= i < |q[0]| - cur => Response(0, cur + i)) + WholeOrigins(q[1..], 1)
  }

  function WholeOrigins(q: seq<seq<byte>>, first: nat): (origins: seq<Origin>)
    ensures |origins| == |Concat(q)|
    ensures forall i | 0 <= i < |origins| :: origins[i].Response?
  {
    if q == [] then []
    else seq(|q[0]|, i requires 0 <= i < |q[0]| => Response(first, i)) + WholeOrigins(q[1..], first + 1)
  }

  /** As written, line 131 sends at most one byte per queued response, and none
      of those bytes belongs to a response; the intended write offers every
      unsent byte, each taken from a response. */
  lemma {:induction false} WriteAsWrittenSendsNoResponse(q: seq<seq<byte>>, cur: nat, n: nat)
    requires q != [] && cur <= |q[0]| && n <= |q|
    ensures |WriteAsWritten(q, n)| <= |q|
    ensures forall i | 0 <= i < |WriteAsWritten(q, n)| :: !WriteAsWritten(q, n)[i].Response?
    ensures cur <= |Concat(q)| && |GatherOrigins(q, cur)| == |Unsent(q, cur)|
    ensures forall i | 0 <= i < |GatherOrigins(q, cur)| :: GatherOrigins(q, cur)[i].Response?
  {
    ConcatHead(q);
    var front := seq(|q[0]| - cur, i requires 0 <= i < |q[0]| - cur => Response(0, cur + i));
    assert GatherOrigins(q, cur) == front + WholeOrigins(q[1..], 1);
  }

  /** Line 131 as written, on the queue ["OK\r\n"] with nothing sent yet: the
      call may send one byte, of the `iovec` array's memory, where the
      intended write offers the four bytes of the response. */
  lemma WriteAsWrittenOnOk()
    ensures var q := [Ok()];
            && WriteAsWritten(q, 1) == [IovecMemory(0, 0)]
            && InBounds(q, Iovecs(q, 0)) && Gather(q, Iovecs(q, 0)) == Ok()
  {
    var q := [Ok()];
    IovecsGatherUnsent(q, 0);
    assert Concat(q) == Ok() by {
      assert q[1..] == [];
    }
  }

  /** The response "OK\r\n". */
  function Ok(): (s: seq<byte>)
    ensures |s| == 4 && Framed(s)
  {
    [79, 75] + Crlf
  }

  /** The test of line 142 as written: `cur_pos - iov_len` converted to a 64-bit
      unsigned value and compared with 0. */
  function RemovalTestAsWritten(curPos: int, iovLen: nat): bool
  {
    (curPos - iovLen) % 0x1_0000_0000_0000_0000 >= 0
  }

  /** The test line 142 evidently means: the cursor has passed the whole
      buffer. */
  predicate RemovalTestIntended(curPos: int, iovLen: nat)
  {
    curPos - iovLen >= 0
  }

  /** The test of line 142 holds for every cursor and every length, so it never
      stops the loop; in particular it holds when the cursor is still inside
      the buffer, where the intended test fails. */
  lemma RemovalTestAlwaysHolds(curPos: int, iovLen: nat)
    ensures RemovalTestAsWritten(curPos, iovLen)
    ensures curPos < iovLen ==> !RemovalTestIntended(curPos, iovLen)
  {
  }

  /** Line 142 as written, with 1 byte of "OK\r\n" written: the unsigned test
      calls the response covered although 3 of its bytes are unsent. */
  lemma RemovalTestAsWrittenOnOk()
    ensures RemovalTestAsWritten(1, |Ok()|) && !RemovalTestIntended(1, |Ok()|)
    ensures (1 - |Ok()|) % 0x1_0000_0000_0000_0000 == 0xFFFF_FFFF_FFFF_FFFD
  {
  }

  /** The indices lines 142-145 as written read `iovecs` at, from index `i` of
      `size` on: the test always holds, and `i` is incremented before it is
      used. */
  function RemovalReadsAsWritten(i: nat, size: nat, curPos: int, lens: seq<nat>): (indices: seq<nat>)
    requires |lens| == size
    decreases size - i
  {
    if i < size && RemovalTestAsWritten(curPos, lens[i]) then
      [i + 1] + RemovalReadsAsWritten(i + 1, size, curPos, lens)
    else
      []
  }

  /** As written, lines 142-145 read every index from 1 to `size`, the last one
      past the end of `iovecs`. */
  lemma {:induction false} RemovalReadsPastEnd(i: nat, size: nat, curPos: int, lens: seq<nat>)
    requires |lens| == size && i < size
    ensures var indices := RemovalReadsAsWritten(i, size, curPos, lens);
            |indices| == size - i && indices[|indices| - 1] == size
    decreases size - i
  {
    if i + 1 < size {
      RemovalReadsPastEnd(i + 1, size, curPos, lens);
    }
  }

  /** Line 146 as written: one response leaves the queue after any successful
      write. */
  function EraseAsWritten(q: seq<seq<byte>>): (r: seq<seq<byte>>)
    requires q != []
    ensures |r| == |q| - 1
  {
    q[1..]
  }

  /** Line 146 as written, on two queued "OK\r\n" fully written in one call of
      the intended scatter-gather write (the call of line 131 as written never
      sends that much): the second stays queued and goes out again, where
      dropping what is covered empties the queue. */
  lemma EraseAsWrittenResends()
    ensures var q := [Ok(), Ok()];
            EraseAsWritten(q) == [Ok()] && DropCovered(q, 8) == ([], 0)
  {
    var q := [Ok(), Ok()];
    assert Concat(q) == Ok() + Ok() by {
      assert q[1..] == [Ok()];
      assert Concat([Ok()]) == Ok() + Concat([]);
    }
    assert q[1..][1..] == [];
  }

  /** Line 146 as written, on one queued "OK\r\n" of which one byte was written:
      the response leaves the queue with three bytes unsent, where dropping what
      is covered keeps it with the cursor at 1. */
  lemma EraseAsWrittenLoses()
    ensures var q := [Ok()];
            EraseAsWritten(q) == [] && DropCovered(q, 1) == (q, 1)
  {
    var q := [Ok()];
    assert Concat(q) == Ok() by {
      assert q[1..] == [];
    }
  }
}
