/**
 * `create_test_file`: the benchmark's input, written in pieces of at most 64 KiB, each
 * piece filled with the pattern `(i * 73 + 17) & 0xFF` where i counts from 0 within the
 * piece. The file is the sequence of bytes written; opening it and the write calls
 * themselves are not part of this model.
 */
module TestFile {
  import opened Chunking

  newtype byte = x: int | 0 <= x < 256

  const FILE_SIZE_MB: nat := 1
  const FILE_SIZE_BYTES: nat := FILE_SIZE_MB * 1024 * 1024

  /** The largest piece one `write` call gets: 64 KiB. */
  const WRITE_CHUNK: nat := 64 * 1024

  /**
   * Byte i of a piece. For a non-negative value, masking with 0xFF keeps exactly the
   * remainder modulo 256.
   */
  function PatternByte(i: nat): byte {
    ((i * 73 + 17) % 256) as byte
  }

  /** The bytes of one piece of `size` bytes. */
  function Piece(size: nat): (data: seq<byte>)
    ensures |data| == size
    ensures forall i :: 0 <= i < size ==> data[i] == PatternByte(i)
  {
    seq(size, i requires 0 <= i < size => PatternByte(i))
  }

  /** The file that writing pieces of these sizes, one after another, produces. */
  function Contents(pieces: seq<nat>): seq<byte>
    decreases |pieces|
  {
    if pieces == [] then [] else Piece(pieces[0]) + Contents(pieces[1..])
  }

  /** `bytearray(write_size)` and the loop that fills it with the pattern. */
  method FillPiece(size: nat) returns (data: array<byte>)
    ensures fresh(data)
    ensures data[..] == Piece(size)
  {
    data := new byte[size];
    var i := 0;
    while i < size
      invariant 0 <= i <= size
      invariant forall j :: 0 <= j < i ==> data[j] == PatternByte(j)
    {
      data[i] := PatternByte(i);
      i := i + 1;
    }
  }

  /**
   * The write loop of `create_test_file` for a file of `size` bytes: it returns the bytes
   * written and the size of each write. The writes are the pieces of `size` in 64 KiB
   * steps, and the file is those pieces' patterns one after another.
   */
  method CreateTestFile(size: nat) returns (file: seq<byte>, writes: seq<nat>)
    ensures writes == Pieces(size, WRITE_CHUNK)
    ensures file == Contents(writes)
  {
    file, writes := [], [];
    var remaining: nat := size;
    while remaining > 0
      invariant WrittenSoFar(size, remaining, file, writes)
    {
      var writeSize := NextPiece(remaining, WRITE_CHUNK);
      var data := FillPiece(writeSize);
      WriteStep(size, remaining, file, writes);
      file := file + data[..];
      writes := writes + [writeSize];
      remaining := remaining - writeSize;
    }
  }

  /**
   * With `remaining` bytes still to write, the writes so far followed by the pieces of
   * what remains are the pieces of the whole, and likewise for the bytes.
   */
  ghost predicate WrittenSoFar(size: nat, remaining: nat, file: seq<byte>, writes: seq<nat>) {
    remaining <= size &&
    writes + Pieces(remaining, WRITE_CHUNK) == Pieces(size, WRITE_CHUNK) &&
    file + Contents(Pieces(remaining, WRITE_CHUNK)) == Contents(Pieces(size, WRITE_CHUNK))
  }

  /** One pass of the write loop keeps `WrittenSoFar`. */
  lemma WriteStep(size: nat, remaining: nat, file: seq<byte>, writes: seq<nat>)
    requires remaining > 0 && WrittenSoFar(size, remaining, file, writes)
    ensures var first := NextPiece(remaining, WRITE_CHUNK);
      WrittenSoFar(size, remaining - first, file + Piece(first), writes + [first])
  {
    var first := NextPiece(remaining, WRITE_CHUNK);
    var rest := Pieces(remaining - first, WRITE_CHUNK);
    ContentsFirst(first, rest);
    assert Pieces(remaining, WRITE_CHUNK) == [first] + rest;
    assert (writes + [first]) + rest == writes + ([first] + rest);
    assert (file + Piece(first)) + Contents(rest) == file + (Piece(first) + Contents(rest));
  }

  /** The file is as long as the writes add up to. */
  lemma {:induction false} ContentsLength(pieces: seq<nat>)
    ensures |Contents(pieces)| == Total(pieces)
    decreases |pieces|
  {
    if pieces != [] {
      ContentsLength(pieces[1..]);
    }
  }

  /**
   * The byte at offset p of a file written in pieces of `chunk` bytes is the pattern at
   * p's position inside its piece, p mod chunk.
   */
  lemma {:induction false} ContentsAt(n: nat, chunk: nat, p: nat)
    requires chunk > 0 && p < n
    ensures |Contents(Pieces(n, chunk))| == n
    ensures Contents(Pieces(n, chunk))[p] == PatternByte(p % chunk)
    decreases n
  {
    var first := NextPiece(n, chunk);
    var rest := Pieces(n - first, chunk);
    ContentsFirst(first, rest);
    assert Pieces(n, chunk) == [first] + rest;
    if p < first {
      ContentsLength(rest);
      PiecesTotal(n - first, chunk);
      DivUnique(p, chunk, 0, p);
    } else {
      ContentsAt(n - first, chunk, p - chunk);
      ModSub(p, chunk);
    }
  }

  /** Writing a piece and then more: the piece's pattern comes first. */
  lemma ContentsFirst(first: nat, rest: seq<nat>)
    ensures Contents([first] + rest) == Piece(first) + Contents(rest)
  {
    assert ([first] + rest)[1..] == rest;
  }

  lemma ModSub(p: nat, chunk: nat)
    requires 0 < chunk <= p
    ensures (p - chunk) % chunk == p % chunk
  {
    var q, r := (p - chunk) / chunk, (p - chunk) % chunk;
    assert p == (q + 1) * chunk + r;
    DivUnique(p, chunk, q + 1, r);
  }

  lemma DivUnique(a: nat, c: nat, q: nat, r: nat)
    requires c > 0 && r < c && a == q * c + r
    ensures a % c == r
  {
    var q', r' := a / c, a % c;
    assert a == q' * c + r';
    if q' < q {
      MulStep(q', q, c);
    } else if q < q' {
      MulStep(q, q', c);
    }
  }

  /**
   * The pattern restarts every 64 KiB, but 65536 * 73 is a multiple of 256, so the byte
   * at every file offset p is `(p * 73 + 17) & 0xFF` as if it had never restarted.
   */
  lemma PatternIgnoresRestart(p: nat)
    ensures PatternByte(p % WRITE_CHUNK) == PatternByte(p)
  {
    var q, r := p / 65536, p % 65536;
    assert p == 65536 * q + r;
    assert p * 73 + 17 == (r * 73 + 17) + 256 * (18688 * q);
    ModMultiple(r * 73 + 17, 18688 * q);
  }

  lemma ModMultiple(a: nat, k: nat)
    ensures (a + 256 * k) % 256 == a % 256
  {
    DivUnique(a + 256 * k, 256, a / 256 + k, a % 256);
  }

  /**
   * `create_test_file` as configured: 16 writes of 64 KiB each, 1 MiB in all, and byte p
   * of the file is `(p * 73 + 17) & 0xFF`.
   */
  lemma TestFileShape()
    ensures var writes := Pieces(FILE_SIZE_BYTES, WRITE_CHUNK);
      |writes| == 16 && (forall i :: 0 <= i < |writes| ==> writes[i] == WRITE_CHUNK) &&
      |Contents(writes)| == FILE_SIZE_BYTES == 1048576 &&
      forall p :: 0 <= p < FILE_SIZE_BYTES ==> Contents(writes)[p] == PatternByte(p)
  {
    var writes := Pieces(FILE_SIZE_BYTES, WRITE_CHUNK);
    PiecesCount(FILE_SIZE_BYTES, WRITE_CHUNK);
    PiecesShape(FILE_SIZE_BYTES, WRITE_CHUNK);
    PiecesTotal(FILE_SIZE_BYTES, WRITE_CHUNK);
    ContentsLength(writes);
    forall p | 0 <= p < FILE_SIZE_BYTES
      ensures Contents(writes)[p] == PatternByte(p)
    {
      ContentsAt(FILE_SIZE_BYTES, WRITE_CHUNK, p);
      PatternIgnoresRestart(p);
    }
  }
}
