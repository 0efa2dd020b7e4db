/**
 * Splitting a byte count into pieces of at most `chunk` bytes: the C++ read loop asks
 * for `min(chunk_size, FILE_SIZE - total_read)` bytes at a time and the test-file
 * generator writes `min(chunk_size, remaining)` bytes at a time.
 */
module Chunking {

  /** The next piece: the whole chunk, or what is left when that is less. */
  function NextPiece(remaining: nat, chunk: nat): (n: nat)
    ensures n <= chunk && n <= remaining
    ensures n == chunk || n == remaining
  {
    if remaining > chunk then chunk else remaining
  }

  /** The piece sizes a loop produces when every piece is taken in full. */
  function Pieces(n: nat, chunk: nat): seq<nat>
    requires chunk > 0
    decreases n
  {
    if n == 0 then [] else [NextPiece(n, chunk)] + Pieces(n - NextPiece(n, chunk), chunk)
  }

  function Total(ps: seq<nat>): nat
    decreases |ps|
  {
    if ps == [] then 0 else ps[0] + Total(ps[1..])
  }

  /** The pieces add up to the whole. */
  lemma {:induction false} PiecesTotal(n: nat, chunk: nat)
    requires chunk > 0
    ensures Total(Pieces(n, chunk)) == n
    decreases n
  {
    if n > 0 {
      PiecesTotal(n - NextPiece(n, chunk), chunk);
    }
  }

  /**
   * Every piece is between 1 and `chunk` bytes; all but the last are exactly `chunk`, and
   * the last is what the others leave: `n - (k - 1) * chunk` for k pieces.
   */
  lemma {:induction false} PiecesShape(n: nat, chunk: nat)
    requires chunk > 0
    ensures var ps := Pieces(n, chunk);
      (forall i :: 0 <= i < |ps| ==> 1 <= ps[i] <= chunk) &&
      (forall i :: 0 <= i < |ps| - 1 ==> ps[i] == chunk) &&
      (n > 0 ==> |ps| >= 1 && ps[|ps| - 1] == n - (|ps| - 1) * chunk)
    decreases n
  {
    if n > chunk {
      PiecesShape(n - chunk, chunk);
      var rest := Pieces(n - chunk, chunk);
      assert Pieces(n, chunk) == [chunk] + rest;
      assert (|rest| - 1) * chunk + chunk == |rest| * chunk;
    }
  }

  /**
   * The number k of pieces is the least one that covers n: (k - 1) * chunk < n <= k * chunk,
   * which is to say k = ceil(n / chunk).
   */
  lemma PiecesCount(n: nat, chunk: nat)
    requires chunk > 0
    ensures var k := |Pieces(n, chunk)|;
      (n == 0 ==> k == 0) &&
      (n > 0 ==> (k - 1) * chunk < n <= k * chunk) &&
      k == (n + chunk - 1) / chunk
  {
    var k := |Pieces(n, chunk)|;
    PiecesCover(n, chunk);
    if n > 0 {
      var m: nat := k - 1;
      assert k * chunk == m * chunk + chunk;
      DivBetween(n + chunk - 1, chunk, k);
    }
  }

  /** The pieces of n > 0 number k with (k - 1) * chunk < n <= k * chunk. */
  lemma {:induction false} PiecesCover(n: nat, chunk: nat)
    requires chunk > 0
    ensures var k := |Pieces(n, chunk)|;
      (n == 0 ==> k == 0) && (n > 0 ==> k >= 1 && (k - 1) * chunk < n <= k * chunk)
    decreases n
  {
    if 0 < n <= chunk {
      assert Pieces(n, chunk) == [n] + Pieces(0, chunk);
    } else if n > chunk {
      var rest := Pieces(n - chunk, chunk);
      PiecesCover(n - chunk, chunk);
      assert Pieces(n, chunk) == [chunk] + rest;
      var m := |rest|;
      assert (m - 1) * chunk + chunk == m * chunk;
    }
  }

  /** a / c is k when a lies in [k * c, k * c + c). */
  lemma DivBetween(a: nat, c: nat, k: nat)
    requires c > 0 && k * c <= a < k * c + c
    ensures a / c == k
  {
    assert a == (a / c) * c + a % c;
    QuotientUnique(a, c, a / c, k);
  }

  lemma QuotientUnique(a: nat, c: nat, q: nat, k: nat)
    requires c > 0 && q * c <= a < q * c + c && k * c <= a < k * c + c
    ensures q == k
  {
    if q < k {
      MulStep(q, k, c);
    } else if k < q {
      MulStep(k, q, c);
    }
  }

  lemma {:induction false} MulStep(q: nat, k: nat, c: nat)
    requires q < k
    ensures q * c + c <= k * c
    decreases k - q
  {
    assert (q + 1) * c == q * c + c;
    if q + 1 < k {
      MulStep(q + 1, k, c);
    }
  }
}
