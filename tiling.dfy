/**
 * Cutting a byte sequence into consecutive fixed-size pieces, the last one
 * possibly shorter. The server-side splitter (1 MiB pieces) and the multipart
 * part planner (5 MiB parts) both tile a file this way.
 */
module Tiling {

  function Min(a: int, b: int): int { if a <= b then a else b }

  /** The concatenation of a sequence of pieces, first piece first. */
  function Flatten<T>(ps: seq<seq<T>>): seq<T>
  {
    if |ps| == 0 then [] else ps[0] + Flatten(ps[1..])
  }

  lemma {:induction false} FlattenAppend<T>(ps: seq<seq<T>>, p: seq<T>)
    ensures Flatten(ps + [p]) == Flatten(ps) + p
  {
    if |ps| == 0 {
      assert ps + [p] == [p];
    } else {
      assert (ps + [p])[1..] == ps[1..] + [p];
      FlattenAppend(ps[1..], p);
    }
  }

  /** Extending a prefix of the pieces by one piece extends its concatenation by that piece. */
  lemma FlattenPrefixStep<T>(ps: seq<seq<T>>, j: nat)
    requires j < |ps|
    ensures Flatten(ps[..j + 1]) == Flatten(ps[..j]) + ps[j]
  {
    assert ps[..j + 1] == ps[..j] + [ps[j]];
    FlattenAppend(ps[..j], ps[j]);
  }

  /** `data` cut into pieces of `size` bytes from offset 0, the last one shorter if needed. */
  function Pieces<T>(data: seq<T>, size: nat): seq<seq<T>>
    requires size > 0
    decreases |data|
  {
    if |data| == 0 then []
    else
      var n := Min(size, |data|);
      [data[..n]] + Pieces(data[n..], size)
  }

  /** Tiling property: the pieces put back together are the data. */
  lemma {:induction false} FlattenPieces<T>(data: seq<T>, size: nat)
    requires size > 0
    ensures Flatten(Pieces(data, size)) == data
    decreases |data|
  {
    if |data| > 0 {
      var n := Min(size, |data|);
      FlattenPieces(data[n..], size);
      assert ([data[..n]] + Pieces(data[n..], size))[1..] == Pieces(data[n..], size);
      assert data[..n] + data[n..] == data;
    }
  }

  /**
   * There are ceil(|data| / size) pieces: (N-1) * size < |data| <= N * size,
   * and none at all for empty data.
   */
  lemma {:induction false} PiecesCount<T>(data: seq<T>, size: nat)
    requires size > 0
    ensures var N := |Pieces(data, size)|;
      (|data| == 0 <==> N == 0) &&
      (N > 0 ==> (N - 1) * size < |data| <= N * size)
    decreases |data|
  {
    if |data| > 0 {
      var n := Min(size, |data|);
      var rest := data[n..];
      PiecesCount(rest, size);
      var M := |Pieces(rest, size)|;
      assert |Pieces(data, size)| == M + 1;
      if M > 0 {
        assert (M + 1) * size == M * size + size;
      }
    }
  }

  lemma SliceOfSuffix<T>(data: seq<T>, n: nat, a: nat, b: nat)
    requires a <= b && n + b <= |data|
    ensures data[n..][a..b] == data[n + a .. n + b]
  {
  }

  /** The offset of piece k is the offset of piece k - 1 plus one piece. */
  lemma NextOffset(k: nat, size: nat)
    requires k > 0
    ensures (k - 1) * size + size == k * size && (k - 1) * size >= 0 && k * size >= size
  {
  }

  /**
   * Piece k starts at byte k * size and runs to min(k * size + size, |data|);
   * k ranges exactly over the offsets k * size that fall inside the data.
   */
  lemma {:induction false} PieceAt<T>(data: seq<T>, size: nat, k: nat)
    requires size > 0
    ensures k < |Pieces(data, size)| <==> k * size < |data|
    ensures k < |Pieces(data, size)| ==>
      Pieces(data, size)[k] == data[k * size .. Min(k * size + size, |data|)]
    decreases |data|
  {
    if |data| > 0 && k > 0 {
      var n := Min(size, |data|);
      var rest := data[n..];
      var ps := Pieces(data, size);
      assert ps == [data[..n]] + Pieces(rest, size);
      var off := k * size;
      var prev := (k - 1) * size;
      NextOffset(k, size);
      PieceAt(rest, size, k - 1);
      if |data| <= size {
        assert |rest| == 0 && |ps| == 1;
      } else {
        assert n == size && |rest| == |data| - size;
        assert prev < |rest| <==> off < |data|;
        if k < |ps| {
          assert ps[k] == Pieces(rest, size)[k - 1];
          var end := Min(prev + size, |rest|);
          assert end + size == Min(off + size, |data|);
          SliceOfSuffix(data, size, prev, end);
        }
      }
    }
  }

  /** Every piece is non-empty and at most `size` long; all but the last are exactly `size`. */
  lemma PiecesShape<T>(data: seq<T>, size: nat, k: nat)
    requires size > 0 && k < |Pieces(data, size)|
    ensures 0 < |Pieces(data, size)[k]| <= size
    ensures k < |Pieces(data, size)| - 1 ==> |Pieces(data, size)[k]| == size
  {
    PieceAt(data, size, k);
    if k < |Pieces(data, size)| - 1 {
      PieceAt(data, size, k + 1);
      assert (k + 1) * size == k * size + size;
    }
  }
}
