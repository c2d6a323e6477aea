// Cutting a text into fragments (src/common/utility.cpp).
module Fragments {
  import opened Text

  function Chunks(data: string, size: nat): seq<string>
    requires size > 0
  {
    if data == "" then []
    else if |data| <= size then [data]
    else [data[..size]] + Chunks(data[size..], size)
  }

  function Min(a: nat, b: nat): nat {
    if a <= b then a else b
  }

  /** chunk_data: one substr per step of the loop. */
  method ChunkData(data: string, size: nat) returns (chunks: seq<string>)
    requires size > 0
    ensures chunks == Chunks(data, size)
  {
    chunks := [];
    var i := 0;
    while i < |data|
      invariant chunks + Chunks(data[Min(i, |data|)..], size) == Chunks(data, size)
      decreases |data| - i
    {
      var end := Min(i + size, |data|);
      assert Chunks(data[i..], size) == [data[i..end]] + Chunks(data[end..], size) by {
        assert i + size < |data| ==> data[i..][..size] == data[i..end] && data[i..][size..] == data[end..];
        assert i + size >= |data| ==> data[i..] == data[i..end] && data[end..] == "";
      }
      chunks := chunks + [data[i..end]];
      i := i + size;
    }
  }

  /** The chunks are the data, in order; all but the last are full and none is empty. */
  lemma {:induction false} ChunksShape(data: string, size: nat)
    requires size > 0
    ensures var cs := Chunks(data, size);
            && Concat(cs) == data
            && (forall i :: 0 <= i < |cs| - 1 ==> |cs[i]| == size)
            && (forall i :: 0 <= i < |cs| ==> 0 < |cs[i]| <= size)
  {
    if |data| > size {
      ChunksShape(data[size..], size);
    } else if data != "" {
      assert Concat([data]) == data + Concat([]);
    }
  }

  /** There are as many chunks as the length divided by the size, rounded up. */
  lemma {:induction false} ChunkCount(data: string, size: nat)
    requires size > 0
    ensures var n := |Chunks(data, size)|;
            (n - 1) * size < |data| <= n * size || (n == 0 && data == "")
  {
    if |data| > size {
      ChunkCount(data[size..], size);
      var m := |Chunks(data[size..], size)|;
      assert (m + 1) * size == m * size + size;
      assert (m - 1) * size + size == m * size;
    }
  }

  /** A text needs one fragment exactly when it is not empty and fits. */
  lemma SingleChunkIff(data: string, size: nat)
    requires size > 0
    ensures |Chunks(data, size)| == 1 <==> 0 < |data| <= size
  {
    if |data| > size {
      ChunkCount(data[size..], size);
    }
  }
}
