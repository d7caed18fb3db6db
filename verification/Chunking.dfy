/** How read() cuts a file into payloads. */
module Chunking {
  import opened Arithmetic
  import opened Bytes

  /** What one read() into a buffer of the given size returns. */
  function ReadChunk(unread: seq<byte>, bufferSize: nat): seq<byte> {
    if |unread| < bufferSize then unread else unread[..bufferSize]
  }

  function Chunks(file: seq<byte>, bufferSize: nat): seq<seq<byte>>
    requires bufferSize > 0
  {
    if file == [] then []
    else [ReadChunk(file, bufferSize)] + Chunks(file[|ReadChunk(file, bufferSize)|..], bufferSize)
  }

  function Flatten(chunks: seq<seq<byte>>): seq<byte> {
    if chunks == [] then [] else Flatten(chunks[..|chunks| - 1]) + chunks[|chunks| - 1]
  }

  lemma {:induction false} FlattenCons(first: seq<byte>, rest: seq<seq<byte>>)
    ensures Flatten([first] + rest) == first + Flatten(rest)
    decreases |rest|
  {
    var all := [first] + rest;
    if rest == [] {
      assert all[..0] == [];
      assert Flatten(all) == Flatten(all[..0]) + first;
    } else {
      var front := rest[..|rest| - 1];
      assert all[..|all| - 1] == [first] + front;
      FlattenCons(first, front);
    }
  }

  /** Nothing is lost or repeated between the reads. */
  lemma {:induction false} FlattenChunks(file: seq<byte>, bufferSize: nat)
    requires bufferSize > 0
    ensures Flatten(Chunks(file, bufferSize)) == file
    decreases |file|
  {
    if file != [] {
      var first := ReadChunk(file, bufferSize);
      var rest := file[|first|..];
      FlattenChunks(rest, bufferSize);
      assert file == first + rest;
      assert Chunks(file, bufferSize) == [first] + Chunks(rest, bufferSize);
      hide Chunks, ReadChunk;
      FlattenCons(first, Chunks(rest, bufferSize));
    }
  }

  /** No payload is empty and none is longer than the buffer. */
  lemma {:induction false} ChunkSizes(file: seq<byte>, bufferSize: nat)
    requires bufferSize > 0
    ensures forall k :: 0 <= k < |Chunks(file, bufferSize)| ==> 0 < |Chunks(file, bufferSize)[k]| <= bufferSize
    decreases |file|
  {
    if file != [] {
      var first := ReadChunk(file, bufferSize);
      ChunkSizes(file[|first|..], bufferSize);
    }
  }

  function Min(a: nat, b: nat): nat {
    if a < b then a else b
  }

  /** How many buffers of the given size it takes to hold a file. */
  function ChunkCount(length: nat, bufferSize: nat): nat
    requires bufferSize > 0
  {
    (length + bufferSize - 1) / bufferSize
  }

  lemma ChunkCountStep(length: nat, n: nat)
    requires n > 0 && length >= 1
    ensures length <= n ==> ChunkCount(length, n) == 1
    ensures length >= n ==> ChunkCount(length, n) == 1 + ChunkCount(length - n, n)
  {
    QuotientNext(length - 1, n);
    if length <= n {
      QuotientUnique(length - 1, n, 0, length - 1);
    }
  }

  /** The stretch of n bytes from a on, as far as the file goes. */
  function Stretch(file: seq<byte>, a: nat, n: nat): seq<byte>
    requires a <= |file|
  {
    file[a..Min(a + n, |file|)]
  }

  lemma StretchIs(file: seq<byte>, a: int, n: nat)
    ensures 0 <= a <= |file| ==> Stretch(file, a, n) == file[a..Min(a + n, |file|)]
  {
  }

  lemma StretchShift(file: seq<byte>, n: nat, a: nat)
    requires n + a <= |file|
    ensures Stretch(file[n..], a, n) == Stretch(file, n + a, n)
  {
  }

  lemma StretchNext(file: seq<byte>, n: nat, k: nat)
    requires k >= 1 && n <= |file| && (k - 1) * n < |file| - n
    ensures k * n < |file| && Stretch(file[n..], (k - 1) * n, n) == Stretch(file, k * n, n)
  {
    OneMoreTime(k - 1, n);
    StretchShift(file, n, (k - 1) * n);
  }

  /** Each read() fills the buffer while the file lasts: chunk k is the k-th stretch of that size. */
  lemma {:induction false} ChunksAreStretches(file: seq<byte>, n: nat)
    requires n > 0
    ensures |Chunks(file, n)| == ChunkCount(|file|, n)
    ensures forall k :: 0 <= k < |Chunks(file, n)| ==>
              k * n < |file| && Chunks(file, n)[k] == Stretch(file, k * n, n)
    decreases |file|
  {
    if file == [] {
      QuotientUnique(n - 1, n, 0, n - 1);
    } else {
      hide ChunkCount;
      var first := ReadChunk(file, n);
      var rest := file[|first|..];
      ChunksAreStretches(rest, n);
      ChunkCountStep(|file|, n);
      assert |file| <= n ==> rest == [] && Chunks(rest, n) == [];
      assert Chunks(file, n) == [first] + Chunks(rest, n) && first == Stretch(file, 0, n);
      hide Chunks, ReadChunk, Stretch;
      forall k | 0 <= k < |Chunks(file, n)|
        ensures k * n < |file| && Chunks(file, n)[k] == Stretch(file, k * n, n)
      {
        if k >= 1 {
          StretchNext(file, n, k);
        }
      }
    }
  }

  lemma CountBounds(length: nat, n: nat)
    requires n > 0
    ensures length <= ChunkCount(length, n) * n < length + n
  {
    var sum := length + n - 1;
    assert sum == ChunkCount(length, n) * n + sum % n;
  }

  /** Every chunk but the last is full, and the last holds what is left. */
  lemma OnlyLastShort(file: seq<byte>, n: nat, k: nat)
    requires n > 0 && k < |Chunks(file, n)|
    ensures k * n < |file|
    ensures |Chunks(file, n)[k]| == if k + 1 < |Chunks(file, n)| then n else |file| - k * n
  {
    hide Chunks, ChunkCount;
    ChunksAreStretches(file, n);
    CountBounds(|file|, n);
    OneMoreTime(k, n);
    assert k + 1 < |Chunks(file, n)| ==> (k + 1) * n < |file|;
  }

  /** The first k chunks are the first k * n bytes, as far as the file goes. */
  lemma {:induction false} FirstChunks(file: seq<byte>, n: nat, k: nat)
    requires n > 0 && k <= |Chunks(file, n)|
    ensures k * n >= 0 && Flatten(Chunks(file, n)[..k]) == file[..Min(k * n, |file|)]
  {
    var chunks := Chunks(file, n);
    if k > 0 {
      FirstChunks(file, n, k - 1);
      ChunksAreStretches(file, n);
      OneMoreTime(k - 1, n);
      assert chunks[..k][..k - 1] == chunks[..k - 1];
      var a := (k - 1) * n;
      assert file[..a] + Stretch(file, a, n) == file[..Min(a + n, |file|)];
    } else {
      assert chunks[..0] == [] && file[..0] == [];
    }
  }
}
