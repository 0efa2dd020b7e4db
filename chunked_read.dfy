/**
 * The loop that reads the test file once, `chunk` bytes at a time, until `FILE_SIZE`
 * bytes have arrived or a read returns zero (end of file) or less (an error).
 *
 * `read` is an oracle: read(pos, n) is what the system call returns when asked for n
 * bytes with the file offset at pos. The loop never asks twice at the same offset (it
 * advances or stops), so this covers every behaviour of the file and the kernel.
 */
module ChunkedRead {
  import opened Chunking

  /** The size every run must read completely: 64 MiB. */
  const FILE_SIZE: nat := 1024 * 1024 * 64

  /** One `read` call: the byte count asked for and what came back. */
  datatype ReadCall = ReadCall(requested: nat, returned: int)

  type ReadFn = (nat, nat) -> int

  /** A read never returns more bytes than were asked for. */
  ghost predicate Honest(read: ReadFn) {
    forall pos: nat, n: nat :: read(pos, n) <= n
  }

  /** Bytes a call delivered: nothing when it reported end of file or an error. */
  function Received(call: ReadCall): nat {
    if call.returned > 0 then call.returned else 0
  }

  function BytesRead(calls: seq<ReadCall>): nat
    decreases |calls|
  {
    if calls == [] then 0 else Received(calls[0]) + BytesRead(calls[1..])
  }

  /**
   * The calls the loop makes once `total` bytes are in: ask for the next piece at offset
   * `total`; stop after a result of zero or less, or once `fileSize` bytes are in.
   */
  function Trace(read: ReadFn, fileSize: nat, chunk: nat, total: nat): seq<ReadCall>
    requires Honest(read) && total <= fileSize
    decreases fileSize - total
  {
    if total == fileSize then []
    else
      var toRead := NextPiece(fileSize - total, chunk);
      var got := read(total, toRead);
      if got <= 0 then [ReadCall(toRead, got)]
      else [ReadCall(toRead, got)] + Trace(read, fileSize, chunk, total + got)
  }

  /**
   * The value `total_read` has when the loop ends, started with `total` bytes in: it
   * grows by each positive result and stays put at the first result of zero or less.
   */
  function FinalTotal(read: ReadFn, fileSize: nat, chunk: nat, total: nat): (t: nat)
    requires Honest(read) && total <= fileSize
    ensures total <= t <= fileSize
    decreases fileSize - total
  {
    if total == fileSize then total
    else
      var got := read(total, NextPiece(fileSize - total, chunk));
      if got <= 0 then total else FinalTotal(read, fileSize, chunk, total + got)
  }

  /** The calls of a run in which every read returns exactly what was asked for. */
  function FullCalls(pieces: seq<nat>): (calls: seq<ReadCall>)
    ensures |calls| == |pieces|
    ensures forall i :: 0 <= i < |pieces| ==> calls[i] == ReadCall(pieces[i], pieces[i])
  {
    seq(|pieces|, i requires 0 <= i < |pieces| => ReadCall(pieces[i], pieces[i]))
  }

  /** What reading n bytes at offset pos of a regular file of `length` bytes returns. */
  function FileRead(length: nat, pos: nat, n: nat): (got: nat)
    ensures got <= n
    ensures got == n <==> pos + n <= length || n == 0
    ensures got == 0 <==> pos >= length || n == 0
  {
    if pos >= length then 0 else NextPiece(length - pos, n)
  }

  /** A regular file of `length` bytes as a read oracle. */
  function RegularFile(length: nat): (read: ReadFn)
    ensures Honest(read)
    ensures forall pos: nat, n: nat :: read(pos, n) == FileRead(length, pos, n)
  {
    (pos: nat, n: nat) => FileRead(length, pos, n)
  }

  /**
   * One full-file read (`while (total_read < FILE_SIZE)`): it returns the bytes read and
   * the calls made. It makes exactly the calls `Trace` describes, never reads past
   * `fileSize`, and stops short only after a read returned zero or less.
   */
  method ReadLoop(fileSize: nat, chunk: nat, read: ReadFn) returns (totalRead: nat, calls: seq<ReadCall>)
    requires Honest(read)
    ensures calls == Trace(read, fileSize, chunk, 0)
    ensures totalRead == BytesRead(calls) && totalRead <= fileSize
    ensures totalRead == FinalTotal(read, fileSize, chunk, 0)
    ensures totalRead == fileSize || (|calls| >= 1 && calls[|calls| - 1].returned <= 0)
  {
    totalRead := 0;
    calls := [];
    while totalRead < fileSize
      invariant totalRead <= fileSize
      invariant FinalTotal(read, fileSize, chunk, totalRead) == FinalTotal(read, fileSize, chunk, 0)
      invariant calls + Trace(read, fileSize, chunk, totalRead) == Trace(read, fileSize, chunk, 0)
    {
      var toRead := NextPiece(fileSize - totalRead, chunk);
      var bytesRead := read(totalRead, toRead);
      var call := ReadCall(toRead, bytesRead);
      if bytesRead <= 0 {
        assert Trace(read, fileSize, chunk, totalRead) == [call];
        calls := calls + [call];
        break;
      }
      ghost var rest := Trace(read, fileSize, chunk, totalRead + bytesRead);
      assert Trace(read, fileSize, chunk, totalRead) == [call] + rest;
      assert (calls + [call]) + rest == calls + ([call] + rest);
      calls := calls + [call];
      totalRead := totalRead + bytesRead;
    }
    FinalTotalIsBytesRead(read, fileSize, chunk, 0);
  }

  /** The final total is what the calls of the trace delivered, on top of `total`. */
  lemma {:induction false} FinalTotalIsBytesRead(read: ReadFn, fileSize: nat, chunk: nat, total: nat)
    requires Honest(read) && total <= fileSize
    ensures FinalTotal(read, fileSize, chunk, total) == total + BytesRead(Trace(read, fileSize, chunk, total))
    decreases fileSize - total
  {
    if total < fileSize {
      var toRead := NextPiece(fileSize - total, chunk);
      var got := read(total, toRead);
      var t := Trace(read, fileSize, chunk, total);
      if got <= 0 {
        assert t == [ReadCall(toRead, got)];
        assert BytesRead(t) == 0 by { assert t[1..] == []; }
      } else {
        var rest := Trace(read, fileSize, chunk, total + got);
        FinalTotalIsBytesRead(read, fileSize, chunk, total + got);
        assert t == [ReadCall(toRead, got)] + rest;
        assert t[1..] == rest;
      }
    }
  }

  lemma {:induction false} BytesReadAppend(calls: seq<ReadCall>, call: ReadCall)
    ensures BytesRead(calls + [call]) == BytesRead(calls) + Received(call)
    decreases |calls|
  {
    if calls != [] {
      BytesReadAppend(calls[1..], call);
      assert (calls + [call])[1..] == calls[1..] + [call];
    }
  }

  lemma {:induction false} BytesReadFull(pieces: seq<nat>)
    requires forall i :: 0 <= i < |pieces| ==> pieces[i] > 0
    ensures BytesRead(FullCalls(pieces)) == Total(pieces)
    decreases |pieces|
  {
    if pieces != [] {
      BytesReadFull(pieces[1..]);
      assert FullCalls(pieces)[1..] == FullCalls(pieces[1..]);
    }
  }

  /**
   * Call i of a run that started with `total` bytes in: the bytes delivered before it
   * leave some of the file unread, it asked for `min(chunk, what is left)`, which is
   * between 1 and `chunk`, and it got no more than it asked for.
   */
  ghost predicate CallFollowsLoop(t: seq<ReadCall>, i: nat, fileSize: nat, chunk: nat, total: nat)
    requires i < |t|
  {
    var before := total + BytesRead(t[..i]);
    before < fileSize &&
    t[i].requested == NextPiece(fileSize - before, chunk) &&
    1 <= t[i].requested <= chunk &&
    t[i].returned <= t[i].requested
  }

  /**
   * Every call follows the loop's rule for its request size, every call but the last
   * delivered at least one byte, and the total never passes `fileSize`.
   */
  lemma {:induction false} TraceRequests(read: ReadFn, fileSize: nat, chunk: nat, total: nat)
    requires Honest(read) && total <= fileSize && chunk > 0
    ensures var t := Trace(read, fileSize, chunk, total);
      total + BytesRead(t) <= fileSize &&
      (forall i :: 0 <= i < |t| ==> CallFollowsLoop(t, i, fileSize, chunk, total)) &&
      (forall i :: 0 <= i < |t| - 1 ==> t[i].returned > 0)
    decreases fileSize - total
  {
    var t := Trace(read, fileSize, chunk, total);
    if total < fileSize {
      var toRead := NextPiece(fileSize - total, chunk);
      var got := read(total, toRead);
      var call := ReadCall(toRead, got);
      if got <= 0 {
        assert t == [call];
        assert t[..0] == [];
        assert CallFollowsLoop(t, 0, fileSize, chunk, total);
      } else {
        var rest := Trace(read, fileSize, chunk, total + got);
        TraceRequests(read, fileSize, chunk, total + got);
        assert t == [call] + rest;
        assert BytesRead(t) == got + BytesRead(rest);
        forall i | 0 <= i < |t|
          ensures CallFollowsLoop(t, i, fileSize, chunk, total)
        {
          if i == 0 {
            assert t[..0] == [];
          } else {
            CallFollowsShift(call, rest, i, fileSize, chunk, total);
          }
        }
        forall i | 0 <= i < |t| - 1
          ensures t[i].returned > 0
        {
          if i > 0 {
            assert t[i] == rest[i - 1];
          }
        }
      }
    }
  }

  /** A call that follows the loop after a first call that delivered bytes still does with it in front. */
  lemma CallFollowsShift(call: ReadCall, rest: seq<ReadCall>, i: nat, fileSize: nat, chunk: nat, total: nat)
    requires call.returned > 0 && 0 < i <= |rest|
    requires CallFollowsLoop(rest, i - 1, fileSize, chunk, total + call.returned)
    ensures CallFollowsLoop([call] + rest, i, fileSize, chunk, total)
  {
    var t := [call] + rest;
    assert t[i] == rest[i - 1];
    assert t[..i] == [call] + rest[..i - 1];
    assert t[..i][1..] == rest[..i - 1];
    assert BytesRead(t[..i]) == call.returned + BytesRead(rest[..i - 1]);
  }

  /**
   * When every read inside the file returns exactly what it asked for, the calls are the
   * pieces of `fileSize - total`, each delivered in full.
   */
  lemma {:induction false} FullReadsTrace(read: ReadFn, fileSize: nat, chunk: nat, total: nat)
    requires Honest(read) && total <= fileSize && chunk > 0
    requires forall pos: nat, n: nat :: pos + n <= fileSize ==> read(pos, n) == n
    ensures Trace(read, fileSize, chunk, total) == FullCalls(Pieces(fileSize - total, chunk))
    decreases fileSize - total
  {
    if total < fileSize {
      var toRead := NextPiece(fileSize - total, chunk);
      FullReadsTrace(read, fileSize, chunk, total + toRead);
      assert fileSize - (total + toRead) == fileSize - total - toRead;
      assert Pieces(fileSize - total, chunk) == [toRead] + Pieces(fileSize - total - toRead, chunk);
    }
  }

  /**
   * With every read full, a run makes exactly ceil(fileSize / chunk) calls, reads the
   * whole file, asks for `chunk` bytes each time except the last, and asks for
   * `fileSize - (k - 1) * chunk` bytes the last (k-th) time.
   */
  lemma FullReadsCount(read: ReadFn, fileSize: nat, chunk: nat)
    requires Honest(read) && chunk > 0
    requires forall pos: nat, n: nat :: pos + n <= fileSize ==> read(pos, n) == n
    ensures var t := Trace(read, fileSize, chunk, 0);
      |t| == (fileSize + chunk - 1) / chunk &&
      BytesRead(t) == fileSize &&
      (forall i :: 0 <= i < |t| - 1 ==> t[i].requested == chunk) &&
      (fileSize > 0 ==> t[|t| - 1].requested == fileSize - (|t| - 1) * chunk)
  {
    FullReadsTrace(read, fileSize, chunk, 0);
    FullPiecesCount(fileSize, chunk);
  }

  /** The calls that deliver the pieces of `fileSize` in full: their number, total and sizes. */
  lemma FullPiecesCount(fileSize: nat, chunk: nat)
    requires chunk > 0
    ensures var t := FullCalls(Pieces(fileSize, chunk));
      |t| == (fileSize + chunk - 1) / chunk &&
      BytesRead(t) == fileSize &&
      (forall i :: 0 <= i < |t| - 1 ==> t[i].requested == chunk) &&
      (fileSize > 0 ==> t[|t| - 1].requested == fileSize - (|t| - 1) * chunk)
  {
    var ps := Pieces(fileSize, chunk);
    var t := FullCalls(ps);
    assert |ps| == (fileSize + chunk - 1) / chunk by { PiecesCount(fileSize, chunk); }
    assert (forall i :: 0 <= i < |ps| ==> 1 <= ps[i] <= chunk) &&
      (forall i :: 0 <= i < |ps| - 1 ==> ps[i] == chunk) &&
      (fileSize > 0 ==> |ps| >= 1 && ps[|ps| - 1] == fileSize - (|ps| - 1) * chunk)
    by { PiecesShape(fileSize, chunk); }
    assert BytesRead(t) == fileSize by {
      PiecesTotal(fileSize, chunk);
      BytesReadFull(ps);
    }
  }

  /** A file at least `fileSize` bytes long always returns what the loop asks for. */
  lemma LongFileReadsFully(length: nat, fileSize: nat)
    requires length >= fileSize
    ensures forall pos: nat, n: nat :: pos + n <= fileSize ==> RegularFile(length)(pos, n) == n
  {
  }

  /**
   * A file shorter than `fileSize`: the reads deliver the file's pieces and then one
   * more read, at end of file, returns 0; the run ends `length` bytes in, short of
   * `fileSize`.
   */
  lemma {:induction false} ShortFileTrace(length: nat, fileSize: nat, chunk: nat, total: nat)
    requires chunk > 0 && total <= length < fileSize
    ensures var t := Trace(RegularFile(length), fileSize, chunk, total);
      BytesRead(t) == length - total &&
      |t| == |Pieces(length - total, chunk)| + 1 &&
      t[|t| - 1] == ReadCall(NextPiece(fileSize - length, chunk), 0)
    decreases length - total
  {
    var read := RegularFile(length);
    var t := Trace(read, fileSize, chunk, total);
    var toRead := NextPiece(fileSize - total, chunk);
    if total < length {
      var got := read(total, toRead);
      assert got == NextPiece(length - total, chunk);
      ShortFileTrace(length, fileSize, chunk, total + got);
      assert length - (total + got) == length - total - got;
      assert t == [ReadCall(toRead, got)] + Trace(read, fileSize, chunk, total + got);
    }
  }

  /**
   * A read that behaves as a regular file shorter than `fileSize`: the loop reads up to the
   * file's end and stops there, `length` bytes in, when the next read returns 0.
   */
  lemma {:induction false} ShortFileTotal(read: ReadFn, length: nat, fileSize: nat, chunk: nat, total: nat)
    requires Honest(read) && forall pos: nat, n: nat :: read(pos, n) == FileRead(length, pos, n)
    requires chunk > 0 && total <= length < fileSize
    ensures FinalTotal(read, fileSize, chunk, total) == length
    decreases length - total
  {
    if total < length {
      var got := read(total, NextPiece(fileSize - total, chunk));
      assert got == NextPiece(length - total, chunk);
      ShortFileTotal(read, length, fileSize, chunk, total + got);
    } else {
      assert read(total, NextPiece(fileSize - total, chunk)) == 0;
    }
  }

  /** A read that behaves as a regular file of at least `fileSize` bytes: the loop reads it all. */
  lemma {:induction false} LongFileTotal(read: ReadFn, length: nat, fileSize: nat, chunk: nat, total: nat)
    requires Honest(read) && forall pos: nat, n: nat :: read(pos, n) == FileRead(length, pos, n)
    requires chunk > 0 && total <= fileSize <= length
    ensures FinalTotal(read, fileSize, chunk, total) == fileSize
    decreases fileSize - total
  {
    if total < fileSize {
      var toRead := NextPiece(fileSize - total, chunk);
      assert read(total, toRead) == toRead;
      LongFileTotal(read, length, fileSize, chunk, total + toRead);
    }
  }
}
