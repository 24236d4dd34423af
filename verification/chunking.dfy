/** `_chunked_iterator` of gdmix/util/io_utils.py: cut a stream into consecutive chunks of
    `chuck_size` elements, the last one possibly shorter. The stream is modelled as the
    finite sequence it yields and each chunk as the sequence of its elements. */
module Chunking {
  import opened Results

  /** Concatenation of all chunks. */
  function Flatten<T>(chunks: seq<seq<T>>): seq<T>
  {
    if |chunks| == 0 then [] else chunks[0] + Flatten(chunks[1..])
  }

  /** Chunks of a non-negative size. `islice(iterator, 0)` is empty at once, so a size of
      0 yields no chunk at all, whatever the input. */
  function Chunks<T>(s: seq<T>, size: nat): (chunks: seq<seq<T>>)
    ensures size == 0 || |s| == 0 ==> chunks == []
    ensures size > 0 ==> Flatten(chunks) == s
    ensures forall i :: 0 <= i < |chunks| ==> 0 < |chunks[i]| <= size
    ensures forall i :: 0 <= i < |chunks| - 1 ==> |chunks[i]| == size
    decreases |s|
  {
    if size == 0 || |s| == 0 then []
    else if |s| <= size then
      FlattenCons(s, []);
      [s]
    else
      var rest := Chunks(s[size..], size);
      FlattenCons(s[..size], rest);
      assert s == s[..size] + s[size..];
      [s[..size]] + rest
  }

  /** Flattening a chunk followed by more chunks. */
  lemma FlattenCons<T>(chunk: seq<T>, rest: seq<seq<T>>)
    ensures Flatten([chunk] + rest) == chunk + Flatten(rest)
  {
    assert ([chunk] + rest)[1..] == rest;
  }

  /** `sys.maxsize` on a 64-bit platform, the largest stop `islice` accepts. */
  const MaxSize: int := 0x7fff_ffff_ffff_ffff

  /** `_chunked_iterator(iterator, chuck_size)`: a size outside `0..sys.maxsize` makes
      `islice` raise ValueError on the first step, whatever the input. */
  function ChunkedIterator<T>(s: seq<T>, chuckSize: int): (r: Result<seq<seq<T>>>)
    ensures r.Err? <==> chuckSize < 0 || chuckSize > MaxSize
    ensures 0 < chuckSize <= MaxSize ==> r.Ok? && Flatten(r.value) == s
  {
    if chuckSize < 0 || chuckSize > MaxSize then Err("Stop argument for islice() must be None or an integer: 0 <= x <= sys.maxsize.")
    else Ok(Chunks(s, chuckSize))
  }
}
