/** The pure part of reading the stored object: the chunks the stream
    delivers, in order, concatenated into one buffer (`Buffer.concat`). */
module Chunks {

  /** One octet of the document. */
  newtype Byte = b: int | 0 <= b < 256

  /** The sum of the chunk lengths. */
  function TotalLength(chunks: seq<seq<Byte>>): nat {
    if |chunks| == 0 then 0 else |chunks[0]| + TotalLength(chunks[1..])
  }

  /** Where chunk `k` starts in the concatenation: the total length of the
      chunks before it. */
  function Offset(chunks: seq<seq<Byte>>, k: nat): nat
    requires k <= |chunks|
  {
    TotalLength(chunks[..k])
  }

  /** The chunks joined end to end, as long as all of them together. */
  function Concat(chunks: seq<seq<Byte>>): (buf: seq<Byte>)
    ensures |buf| == TotalLength(chunks)
  {
    if |chunks| == 0 then [] else chunks[0] + Concat(chunks[1..])
  }

  /** Every chunk sits, unchanged and contiguous, at its offset in the
      concatenation: the order of the chunks is the order of the bytes. */
  lemma {:induction false} ConcatSlices(chunks: seq<seq<Byte>>, k: nat)
    requires k < |chunks|
    ensures Offset(chunks, k) + |chunks[k]| <= |Concat(chunks)|
    ensures Concat(chunks)[Offset(chunks, k)..Offset(chunks, k) + |chunks[k]|] == chunks[k]
    decreases k
  {
    var buf := Concat(chunks);
    if k > 0 {
      var tail := chunks[1..];
      ConcatSlices(tail, k - 1);
      assert chunks[..k][1..] == tail[..k - 1];
      assert Offset(chunks, k) == |chunks[0]| + Offset(tail, k - 1);
      assert chunks[k] == tail[k - 1];
      assert buf == chunks[0] + Concat(tail);
    }
  }

  /** `buf` is laid out as the chunks in order: it has their total length
      and holds each one at its offset. */
  ghost predicate PlacesChunks(chunks: seq<seq<Byte>>, buf: seq<Byte>) {
    && |buf| == TotalLength(chunks)
    && forall k :: 0 <= k < |chunks| ==>
      && Offset(chunks, k) + |chunks[k]| <= |buf|
      && buf[Offset(chunks, k)..Offset(chunks, k) + |chunks[k]|] == chunks[k]
  }

  /** A buffer that places every chunk at its offset is the concatenation,
      and the concatenation does: the layout determines the buffer. */
  lemma ConcatIsLayout(chunks: seq<seq<Byte>>, buf: seq<Byte>)
    ensures buf == Concat(chunks) <==> PlacesChunks(chunks, buf)
  {
    forall k | 0 <= k < |chunks|
      ensures Offset(chunks, k) + |chunks[k]| <= |Concat(chunks)|
      ensures Concat(chunks)[Offset(chunks, k)..Offset(chunks, k) + |chunks[k]|] == chunks[k]
    {
      ConcatSlices(chunks, k);
    }
    if PlacesChunks(chunks, buf) {
      LayoutDeterminesBuffer(chunks, buf);
    }
  }

  /** The layout leaves no freedom: only the concatenation satisfies it. */
  lemma {:induction false} LayoutDeterminesBuffer(chunks: seq<seq<Byte>>, buf: seq<Byte>)
    requires PlacesChunks(chunks, buf)
    ensures buf == Concat(chunks)
    decreases |chunks|
  {
    if |chunks| > 0 {
      var tail := chunks[1..];
      var n := |chunks[0]|;
      assert Offset(chunks, 0) == 0 by {
        assert chunks[..0] == [];
      }
      assert buf[..n] == chunks[0];
      var rest := buf[n..];
      forall k | 0 <= k < |tail|
        ensures Offset(tail, k) + |tail[k]| <= |rest|
        ensures rest[Offset(tail, k)..Offset(tail, k) + |tail[k]|] == tail[k]
      {
        assert chunks[..k + 1][1..] == tail[..k];
        assert Offset(chunks, k + 1) == n + Offset(tail, k);
        assert chunks[k + 1] == tail[k];
      }
      LayoutDeterminesBuffer(tail, rest);
      assert buf == buf[..n] + rest;
    }
  }

  /** Concatenation distributes over splitting the chunk list anywhere. */
  lemma {:induction false} ConcatAppend(a: seq<seq<Byte>>, b: seq<seq<Byte>>)
    ensures Concat(a + b) == Concat(a) + Concat(b)
    decreases |a|
  {
    if |a| > 0 {
      assert (a + b)[1..] == a[1..] + b;
      ConcatAppend(a[1..], b);
    } else {
      assert a + b == b;
    }
  }

  /** A single chunk is its own concatenation. */
  lemma ConcatSingle(x: seq<Byte>)
    ensures Concat([x]) == x
  {
    assert [x][1..] == [];
  }

  /** Where the chunk boundaries fall does not matter: cutting one chunk in
      two leaves the buffer unchanged. */
  lemma ConcatSplitChunk(chunks: seq<seq<Byte>>, k: nat, x: seq<Byte>, y: seq<Byte>)
    requires k < |chunks| && chunks[k] == x + y
    ensures Concat(chunks[..k] + [x, y] + chunks[k + 1..]) == Concat(chunks)
  {
    var before, after := chunks[..k], chunks[k + 1..];
    ConcatAppend([x], [y]);
    ConcatSingle(x);
    ConcatSingle(y);
    assert [x] + [y] == [x, y];
    ConcatAppend(before, [x, y]);
    ConcatAppend(before + [x, y], after);
    ConcatSingle(chunks[k]);
    ConcatAppend(before, [chunks[k]]);
    ConcatAppend(before + [chunks[k]], after);
    assert chunks == before + [chunks[k]] + after;
  }

  /** `streamToBuffer`: collects the chunks in arrival order into one
      buffer, appending each to what came before. */
  method StreamToBuffer(chunks: seq<seq<Byte>>) returns (buf: seq<Byte>)
    ensures buf == Concat(chunks)
    ensures |buf| == TotalLength(chunks)
  {
    buf := [];
    var i := 0;
    while i < |chunks|
      invariant 0 <= i <= |chunks|
      invariant buf == Concat(chunks[..i])
    {
      ConcatAppend(chunks[..i], [chunks[i]]);
      ConcatSingle(chunks[i]);
      assert chunks[..i + 1] == chunks[..i] + [chunks[i]];
      buf := buf + chunks[i];
      i := i + 1;
    }
    assert chunks[..i] == chunks;
  }

  /** Two chunks `ab` and `cd` make `abcd`. */
  lemma ConcatExample()
    ensures Concat([[97, 98], [99, 100]]) == [97, 98, 99, 100]
  {
    var c: seq<seq<Byte>> := [[97, 98], [99, 100]];
    assert c[1..] == [[99, 100]];
    assert c[1..][1..] == [];
  }
}
