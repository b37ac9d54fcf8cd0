/** The in-memory file: a short one is a byte vector, a long one a vector of chunks with holes. */
module MemFiles {
  import opened Common

  const INLINE_LIMIT: nat := 1024 * 1024
  const CHUNK_SIZE: nat := 64 * 1024

  datatype Content =
    | Inline(bytes: seq<Byte>)
    | Chunked(len: nat, chunks: seq<Option<seq<Byte>>>)
  {
    function Len(): nat {
      if Inline? then |bytes| else len
    }

    /** The file as a flat sequence of bytes. */
    function Flat(): seq<Byte> {
      if Inline? then bytes else seq(len, i requires 0 <= i => ChunkByte(chunks, i))
    }

    /** Short files are inline, long ones chunked, and no chunk extends past the end. */
    ghost predicate Valid() {
      if Inline? then |bytes| <= INLINE_LIMIT else len > INLINE_LIMIT && ChunksFit(len, chunks)
    }
  }

  /** The byte at a position: a hole, and the missing end of a chunk, read as zero. */
  function ChunkByte(chunks: seq<Option<seq<Byte>>>, p: nat): Byte {
    var i := p / CHUNK_SIZE;
    if i < |chunks| && chunks[i].Some? && p % CHUNK_SIZE < |chunks[i].value| then chunks[i].value[p % CHUNK_SIZE] else 0
  }

  function ChunkCount(len: nat): nat {
    (len + CHUNK_SIZE - 1) / CHUNK_SIZE
  }

  ghost predicate ChunkFits(len: nat, chunks: seq<Option<seq<Byte>>>, i: nat)
    requires i < |chunks|
  {
    chunks[i].Some? ==> |chunks[i].value| <= CHUNK_SIZE && i * CHUNK_SIZE + |chunks[i].value| <= len
  }

  ghost predicate ChunksFit(len: nat, chunks: seq<Option<seq<Byte>>>) {
    && |chunks| == ChunkCount(len)
    && forall i: nat :: i < |chunks| ==> ChunkFits(len, chunks, i)
  }

  /** The flat file cut to or padded to a length. */
  function Resized(flat: seq<Byte>, n: nat): seq<Byte> {
    if n <= |flat| then flat[..n] else flat + Zeros(n - |flat|)
  }

  /** The flat file after a write, which extends it when it ends later, even when it writes nothing. */
  function Written(flat: seq<Byte>, offset: nat, data: seq<Byte>): seq<Byte> {
    Overlay(Resized(flat, Max(|flat|, offset + |data|)), offset, data)
  }

  // ---------------------------------------------------------------- chunks

  lemma Position(p: nat)
    ensures p == p / CHUNK_SIZE * CHUNK_SIZE + p % CHUNK_SIZE
  {
  }

  lemma CountBounds(len: nat)
    ensures len > 0 ==> (ChunkCount(len) - 1) * CHUNK_SIZE < len <= ChunkCount(len) * CHUNK_SIZE
    ensures len == 0 ==> ChunkCount(len) == 0
    ensures forall p: nat :: p < len ==> p / CHUNK_SIZE < ChunkCount(len)
  {
  }

  /** Positions past the end read as zero: no chunk reaches there. */
  lemma ZeroPastEnd(len: nat, chunks: seq<Option<seq<Byte>>>, p: nat)
    requires ChunksFit(len, chunks) && p >= len
    ensures ChunkByte(chunks, p) == 0
  {
    Position(p);
    var i := p / CHUNK_SIZE;
    if i < |chunks| {
      assert ChunkFits(len, chunks, i);
    }
  }

  /** Replacing one chunk changes only its own positions. */
  lemma ChunkUpdate(chunks: seq<Option<seq<Byte>>>, i: nat, chunk: Option<seq<Byte>>, p: nat)
    requires i < |chunks|
    ensures p / CHUNK_SIZE != i ==> ChunkByte(chunks[i := chunk], p) == ChunkByte(chunks, p)
    ensures p / CHUNK_SIZE == i ==>
              ChunkByte(chunks[i := chunk], p)
              == if chunk.Some? && p % CHUNK_SIZE < |chunk.value| then chunk.value[p % CHUNK_SIZE] else 0
  {
  }

  predicate AllZero(s: seq<Byte>) {
    forall i :: 0 <= i < |s| ==> s[i] == 0
  }

  /** Cutting a byte vector into chunks, with holes for the zero ones. */
  method CutIntoChunks(bytes: seq<Byte>) returns (chunks: seq<Option<seq<Byte>>>)
    ensures ChunksFit(|bytes|, chunks)
    ensures forall p :: 0 <= p < |bytes| ==> ChunkByte(chunks, p) == bytes[p]
  {
    chunks := [];
    var at := 0;
    while at < |bytes|
      invariant at <= |bytes|
      invariant at < |bytes| ==> at == |chunks| * CHUNK_SIZE
      invariant at == |bytes| ==> |chunks| == ChunkCount(|bytes|)
      invariant forall i: nat :: i < |chunks| ==> ChunkFits(|bytes|, chunks, i)
      invariant forall p :: 0 <= p < at ==> ChunkByte(chunks, p) == bytes[p]
    {
      var end := Min(at + CHUNK_SIZE, |bytes|);
      var part := bytes[at..end];
      var piece := if AllZero(part) then None else Some(part);
      AppendPiece(bytes, chunks, at, end, piece);
      chunks := chunks + [piece];
      at := end;
    }
  }

  lemma AppendPiece(bytes: seq<Byte>, chunks: seq<Option<seq<Byte>>>, at: nat, end: nat, piece: Option<seq<Byte>>)
    requires at == |chunks| * CHUNK_SIZE < end <= |bytes| && end == Min(at + CHUNK_SIZE, |bytes|)
    requires (piece == None && AllZero(bytes[at..end])) || piece == Some(bytes[at..end])
    requires forall i: nat :: i < |chunks| ==> ChunkFits(|bytes|, chunks, i)
    requires forall p :: 0 <= p < at ==> ChunkByte(chunks, p) == bytes[p]
    ensures forall i: nat :: i < |chunks| + 1 ==> ChunkFits(|bytes|, chunks + [piece], i)
    ensures forall p :: 0 <= p < end ==> ChunkByte(chunks + [piece], p) == bytes[p]
    ensures end == |bytes| ==> |chunks| + 1 == ChunkCount(|bytes|)
  {
    var longer := chunks + [piece];
    forall i: nat | i < |longer|
      ensures ChunkFits(|bytes|, longer, i)
    {
      assert i < |chunks| ==> ChunkFits(|bytes|, chunks, i);
    }
    forall p | 0 <= p < end
      ensures ChunkByte(longer, p) == bytes[p]
    {
      Position(p);
      if p < at {
        assert ChunkByte(chunks, p) == bytes[p];
      } else {
        assert p / CHUNK_SIZE == |chunks| && bytes[at..end][p - at] == bytes[p];
      }
    }
  }

  // ---------------------------------------------------------------- resizing

  /** The chunk vector cut to or padded to the needed number of chunks. */
  function FitChunks(chunks: seq<Option<seq<Byte>>>, n: nat): (r: seq<Option<seq<Byte>>>)
    ensures |r| == n
  {
    if n <= |chunks| then chunks[..n] else chunks + seq(n - |chunks|, _ => None)
  }

  /** The last chunk cut to the new end of the file. */
  function TrimLast(chunks: seq<Option<seq<Byte>>>, newLen: nat): seq<Option<seq<Byte>>> {
    var n := |chunks|;
    if n > 0 && chunks[n - 1].Some? then
      var start := (n - 1) * CHUNK_SIZE;
      var target := Min(if newLen >= start then newLen - start else 0, CHUNK_SIZE);
      var last := chunks[n - 1].value;
      chunks[n - 1 := Some(if |last| <= target then last else last[..target])]
    else chunks
  }

  /** Cutting loses exactly the bytes past the new end; growing adds zeros. */
  lemma ResizeChunks(len: nat, chunks: seq<Option<seq<Byte>>>, newLen: nat)
    requires ChunksFit(len, chunks)
    ensures var chunks' := TrimLast(FitChunks(chunks, ChunkCount(newLen)), newLen);
            && ChunksFit(newLen, chunks')
            && forall p: nat :: p < newLen ==> ChunkByte(chunks', p) == if p < len then ChunkByte(chunks, p) else 0
  {
    var fitted := FitChunks(chunks, ChunkCount(newLen));
    var chunks' := TrimLast(fitted, newLen);
    CountBounds(newLen);
    forall i: nat | i < |chunks'|
      ensures ChunkFits(newLen, chunks', i)
    {
      assert i < |chunks| ==> ChunkFits(len, chunks, i);
    }
    forall p: nat | p < newLen
      ensures ChunkByte(chunks', p) == if p < len then ChunkByte(chunks, p) else 0
    {
      Position(p);
      var i := p / CHUNK_SIZE;
      assert i < |chunks'|;
      if p >= len {
        ZeroPastEnd(len, chunks, p);
      }
      assert ChunkByte(fitted, p) == ChunkByte(chunks, p);
      if i == |fitted| - 1 && fitted[i].Some? {
        ChunkUpdate(fitted, i, chunks'[i], p);
      }
    }
  }

  // ---------------------------------------------------------------- the file

  class MemFile {
    var content: Content

    constructor (bytes: seq<Byte>)
      ensures content.Valid() && content.Flat() == bytes
    {
      if |bytes| <= INLINE_LIMIT {
        content := Inline(bytes);
      } else {
        var chunks := CutIntoChunks(bytes);
        content := Chunked(|bytes|, chunks);
        assert Chunked(|bytes|, chunks).Flat() == bytes;
      }
    }

    method Clear()
      modifies this
      ensures content.Valid() && content.Flat() == []
    {
      content := Inline([]);
    }

    /** Reads up to the end of the file; the rest of the buffer is left alone. */
    method ReadAt(offset: nat, buf: array<Byte>) returns (n: nat)
      modifies buf
      ensures n == if offset >= content.Len() then 0 else Min(buf.Length, content.Len() - offset)
      ensures n > 0 ==> buf[..] == content.Flat()[offset..offset + n] + old(buf[n..])
      ensures n == 0 ==> buf[..] == old(buf[..])
    {
      var len := content.Len();
      if offset >= len || buf.Length == 0 {
        return 0;
      }
      n := Min(buf.Length, len - offset);
      match content {
        case Inline(bytes) =>
          CopyInto(buf, 0, bytes[offset..offset + n]);
        case Chunked(_, chunks) =>
          ReadChunks(chunks, offset, n, buf);
          FlatRange(len, chunks, offset, n);
      }
    }

    /** The reading loop: zeros first, then the bytes of every chunk in the range. */
    static method ReadChunks(chunks: seq<Option<seq<Byte>>>, offset: nat, n: nat, buf: array<Byte>)
      requires n <= buf.Length
      modifies buf
      ensures buf[..] == RangeBytes(chunks, offset, n) + old(buf[n..])
    {
      ghost var rest := buf[n..];
      CopyInto(buf, 0, Zeros(n));
      var copied := 0;
      while copied < n
        invariant copied <= n
        invariant buf[..] == RangeBytes(chunks, offset, copied) + Zeros(n - copied) + rest
      {
        var m := StepLength(offset + copied, n - copied);
        ReadStep(chunks, offset, copied, n, m, rest);
        ReadPiece(chunks, offset + copied, m, buf, copied);
        copied := copied + m;
      }
    }

    /** One iteration of the reading loop. */
    static method ReadPiece(chunks: seq<Option<seq<Byte>>>, pos: nat, m: nat, buf: array<Byte>, at: nat)
      requires at + m <= buf.Length
      modifies buf
      ensures buf[..] == Overlay(old(buf[..]), at, PieceAt(chunks, pos, m))
    {
      var chunkIdx := pos / CHUNK_SIZE;
      var chunkOff := pos % CHUNK_SIZE;
      if chunkIdx < |chunks| && chunks[chunkIdx].Some? {
        var chunk := chunks[chunkIdx].value;
        if chunkOff < |chunk| {
          var copyLen := Min(m, |chunk| - chunkOff);
          CopyInto(buf, at, chunk[chunkOff..chunkOff + copyLen]);
        }
      }
    }

    /** The file becomes its flat bytes cut to, or padded with zeros to, the new length. */
    method Resize(newLen: nat)
      requires content.Valid()
      modifies this
      ensures content.Valid() && content.Flat() == Resized(old(content.Flat()), newLen)
    {
      match content {
        case Inline(bytes) =>
          if newLen <= INLINE_LIMIT {
            content := Inline(Resized(bytes, newLen));
          } else {
            var chunks := CutIntoChunks(bytes);
            ResizeChunked(|bytes|, chunks, newLen);
            assert RangeBytes(chunks, 0, |bytes|) == bytes;
          }
        case Chunked(len, chunks) =>
          assert RangeBytes(chunks, 0, len) == content.Flat();
          ResizeChunked(len, chunks, newLen);
      }
    }

    /** The chunked branch: fit the vector, trim the last chunk, and go back to a flat vector when short. */
    method ResizeChunked(len: nat, chunks: seq<Option<seq<Byte>>>, newLen: nat)
      requires ChunksFit(len, chunks)
      modifies this
      ensures content.Valid() && content.Flat() == Resized(RangeBytes(chunks, 0, len), newLen)
    {
      var needed := if newLen == 0 then 0 else ChunkCount(newLen);
      CountBounds(newLen);
      var fitted := FitChunks(chunks, needed);
      var trimmed := TrimLast(fitted, newLen);
      ResizeChunks(len, chunks, newLen);
      content := Chunked(newLen, trimmed);
      assert content.Flat() == Resized(RangeBytes(chunks, 0, len), newLen);
      if newLen <= INLINE_LIMIT {
        var flattened := ToVec();
        content := Inline(flattened);
      }
    }

    /** The file becomes its flat bytes with the new ones written over them. */
    method WriteAt(offset: nat, data: seq<Byte>) returns (end: nat)
      requires content.Valid()
      modifies this
      ensures content.Valid() && content.Flat() == Written(old(content.Flat()), offset, data)
      ensures end == offset + |data|
    {
      end := offset + |data|;
      ghost var before := content.Flat();
      KeepLength(before);
      if end > content.Len() {
        Resize(end);
      }
      assert content.Flat() == Resized(before, Max(|before|, end));
      OverwriteBytes(offset, data);
    }

    /** Overwrites bytes inside the file. */
    method OverwriteBytes(offset: nat, data: seq<Byte>)
      requires content.Valid() && offset + |data| <= |content.Flat()|
      modifies this
      ensures content.Valid() && content.Flat() == Overlay(old(content.Flat()), offset, data)
    {
      match content {
        case Inline(bytes) =>
          content := Inline(Overlay(bytes, offset, data));
        case Chunked(len, chunks) =>
          var written := WriteChunks(len, chunks, offset, data);
          FlatOverlay(len, chunks, written, offset, data);
          content := Chunked(len, written);
      }
    }

    /** The writing loop. */
    static method WriteChunks(len: nat, base: seq<Option<seq<Byte>>>, offset: nat, data: seq<Byte>)
      returns (chunks: seq<Option<seq<Byte>>>)
      requires ChunksFit(len, base) && offset + |data| <= len
      ensures ChunksFit(len, chunks)
      ensures forall p: nat :: p < len ==>
                ChunkByte(chunks, p) == if offset <= p < offset + |data| then data[p - offset] else ChunkByte(base, p)
    {
      chunks := base;
      var copied := 0;
      while copied < |data|
        invariant copied <= |data| && ChunksFit(len, chunks)
        invariant forall p: nat :: p < len ==>
                    ChunkByte(chunks, p) == if offset <= p < offset + copied then data[p - offset]
                        else ChunkByte(base, p)
      {
        var n := StepLength(offset + copied, |data| - copied);
        chunks := WritePiece(len, chunks, offset + copied, data[copied..copied + n]);
        copied := copied + n;
      }
    }

    /**
     One iteration of the writing loop: the chunk is made, lengthened with zeros, and patched.
     The file has been resized before, so the vector is never too short for the chunk.
     */
    static method WritePiece(len: nat, base: seq<Option<seq<Byte>>>, pos: nat, piece: seq<Byte>)
      returns (chunks: seq<Option<seq<Byte>>>)
      requires ChunksFit(len, base) && 0 < |piece| <= CHUNK_SIZE - pos % CHUNK_SIZE && pos + |piece| <= len
      ensures ChunksFit(len, chunks)
      ensures forall p: nat :: p < len ==>
                ChunkByte(chunks, p) == if pos <= p < pos + |piece| then piece[p - pos] else ChunkByte(base, p)
    {
      var chunkIdx := pos / CHUNK_SIZE;
      var chunkOff := pos % CHUNK_SIZE;
      CountBounds(len);
      var chunk := if base[chunkIdx].Some? then base[chunkIdx].value else [];
      if |chunk| < chunkOff + |piece| {
        chunk := Resized(chunk, chunkOff + |piece|);
      }
      chunk := Overlay(chunk, chunkOff, piece);
      chunks := base[chunkIdx := Some(chunk)];
      PatchedChunk(len, base, pos, piece);
    }

    method ToVec() returns (out: seq<Byte>)
      ensures out == content.Flat()
    {
      if content.Inline? {
        return content.bytes;
      }
      var buf := new Byte[content.len](_ => 0);
      var n := ReadAt(0, buf);
      out := buf[..];
      assert buf[n..] == [];
    }
  }

  lemma KeepLength(flat: seq<Byte>)
    ensures Resized(flat, |flat|) == flat
  {
  }

  /** Chunks that differ byte by byte as a write says are, flat, the overlay. */
  lemma FlatOverlay(len: nat, base: seq<Option<seq<Byte>>>, chunks: seq<Option<seq<Byte>>>, offset: nat,
                    data: seq<Byte>)
    requires offset + |data| <= len
    requires forall p: nat :: p < len ==>
               ChunkByte(chunks, p) == if offset <= p < offset + |data| then data[p - offset] else ChunkByte(base, p)
    ensures Chunked(len, chunks).Flat() == Overlay(Chunked(len, base).Flat(), offset, data)
  {
    OverlayAt(Chunked(len, base).Flat(), offset, data);
  }

  /** The chunk that holds `pos`, lengthened if needed and with `piece` put at its place. */
  function PatchChunk(chunk: Option<seq<Byte>>, off: nat, piece: seq<Byte>): (r: seq<Byte>)
    ensures |r| == Max(if chunk.Some? then |chunk.value| else 0, off + |piece|)
  {
    var c := if chunk.Some? then chunk.value else [];
    Overlay(if |c| < off + |piece| then Resized(c, off + |piece|) else c, off, piece)
  }

  lemma PatchedChunkAt(chunk: Option<seq<Byte>>, off: nat, piece: seq<Byte>, q: nat)
    ensures var r := PatchChunk(chunk, off, piece);
            (if q < |r| then r[q] else 0)
            == if off <= q < off + |piece| then piece[q - off]
               else if chunk.Some? && q < |chunk.value| then chunk.value[q] else 0
  {
    var c := if chunk.Some? then chunk.value else [];
    OverlayAt(if |c| < off + |piece| then Resized(c, off + |piece|) else c, off, piece);
  }

  /** Patching the chunk changes exactly the positions of the piece. */
  lemma PatchedChunk(len: nat, base: seq<Option<seq<Byte>>>, pos: nat, piece: seq<Byte>)
    requires ChunksFit(len, base) && 0 < |piece| <= CHUNK_SIZE - pos % CHUNK_SIZE && pos + |piece| <= len
    ensures pos / CHUNK_SIZE < |base|
    ensures var i := pos / CHUNK_SIZE;
            var chunks := base[i := Some(PatchChunk(base[i], pos % CHUNK_SIZE, piece))];
            && ChunksFit(len, chunks)
            && forall p: nat :: p < len ==>
                 ChunkByte(chunks, p) == if pos <= p < pos + |piece| then piece[p - pos] else ChunkByte(base, p)
  {
    CountBounds(len);
    Position(pos);
    var i, off := pos / CHUNK_SIZE, pos % CHUNK_SIZE;
    var chunks := base[i := Some(PatchChunk(base[i], off, piece))];
    PatchedFits(len, base, i, off, piece);
    forall p: nat | p < len
      ensures ChunkByte(chunks, p) == if pos <= p < pos + |piece| then piece[p - pos] else ChunkByte(base, p)
    {
      PatchedByte(base, i, off, pos, piece, p);
    }
  }

  lemma PatchedFits(len: nat, base: seq<Option<seq<Byte>>>, i: nat, off: nat, piece: seq<Byte>)
    requires ChunksFit(len, base) && i < |base| && off + |piece| <= CHUNK_SIZE && i * CHUNK_SIZE + off + |piece| <= len
    ensures ChunksFit(len, base[i := Some(PatchChunk(base[i], off, piece))])
  {
    var chunks := base[i := Some(PatchChunk(base[i], off, piece))];
    assert ChunkFits(len, base, i);
    forall j: nat | j < |chunks|
      ensures ChunkFits(len, chunks, j)
    {
      assert ChunkFits(len, base, j);
    }
  }

  lemma PatchedByte(base: seq<Option<seq<Byte>>>, i: nat, off: nat, pos: nat, piece: seq<Byte>, p: nat)
    requires i < |base| && off + |piece| <= CHUNK_SIZE && pos == i * CHUNK_SIZE + off
    ensures ChunkByte(base[i := Some(PatchChunk(base[i], off, piece))], p)
         == if pos <= p < pos + |piece| then piece[p - pos] else ChunkByte(base, p)
  {
    var patch := PatchChunk(base[i], off, piece);
    InsideChunk(p, i, off, |piece|);
    ChunkUpdate(base, i, Some(patch), p);
    if p / CHUNK_SIZE == i {
      PatchedChunkAt(base[i], off, piece, p % CHUNK_SIZE);
    }
  }

  lemma InsideChunk(p: nat, i: nat, off: nat, n: nat)
    requires off + n <= CHUNK_SIZE
    ensures i * CHUNK_SIZE + off <= p < i * CHUNK_SIZE + off + n
       <==> p / CHUNK_SIZE == i && off <= p % CHUNK_SIZE < off + n
    ensures p / CHUNK_SIZE == i ==> p - (i * CHUNK_SIZE + off) == p % CHUNK_SIZE - off
  {
  }

  /** The bytes of a range of positions. */
  function RangeBytes(chunks: seq<Option<seq<Byte>>>, offset: nat, n: nat): seq<Byte> {
    seq(n, i requires 0 <= i => ChunkByte(chunks, offset + i))
  }

  /** How many of the `left` bytes from `pos` on lie in the same chunk. */
  function StepLength(pos: nat, left: nat): (m: nat)
    ensures m <= left && m <= CHUNK_SIZE - pos % CHUNK_SIZE && (left > 0 ==> m > 0)
  {
    Min(left, CHUNK_SIZE - pos % CHUNK_SIZE)
  }

  lemma SameChunk(pos: nat, i: nat)
    requires i < CHUNK_SIZE - pos % CHUNK_SIZE
    ensures (pos + i) / CHUNK_SIZE == pos / CHUNK_SIZE && (pos + i) % CHUNK_SIZE == pos % CHUNK_SIZE + i
  {
  }

  /** What is stored for at most `m` positions of the chunk that holds `pos`. */
  function PieceAt(chunks: seq<Option<seq<Byte>>>, pos: nat, m: nat): (piece: seq<Byte>)
    ensures |piece| <= m
  {
    var i, off := pos / CHUNK_SIZE, pos % CHUNK_SIZE;
    if i < |chunks| && chunks[i].Some? && off < |chunks[i].value|
    then chunks[i].value[off..off + Min(m, |chunks[i].value| - off)]
    else []
  }

  /** Inside one chunk, the range is the stored piece followed by zeros. */
  lemma PieceIsRange(chunks: seq<Option<seq<Byte>>>, offset: nat, copied: nat, m: nat)
    requires m <= CHUNK_SIZE - (offset + copied) % CHUNK_SIZE
    ensures var piece := PieceAt(chunks, offset + copied, m);
            RangeBytes(chunks, offset, copied + m) == RangeBytes(chunks, offset, copied) + (piece + Zeros(m - |piece|))
  {
    var pos := offset + copied;
    var piece := PieceAt(chunks, pos, m);
    var padded := piece + Zeros(m - |piece|);
    var whole := RangeBytes(chunks, offset, copied + m);
    forall i | 0 <= i < m
      ensures whole[copied + i] == padded[i]
    {
      SameChunk(pos, i);
      assert whole[copied + i] == ChunkByte(chunks, pos + i);
    }
    assert whole == RangeBytes(chunks, offset, copied) + whole[copied..];
    assert whole[copied..] == padded;
  }

  /** Copying a piece over the zeros that follow what has been read. */
  lemma PasteOverZeros(done: seq<Byte>, left: nat, rest: seq<Byte>, piece: seq<Byte>, m: nat)
    requires |piece| <= m <= left
    ensures Overlay(done + Zeros(left) + rest, |done|, piece)
              == done + (piece + Zeros(m - |piece|)) + Zeros(left - m) + rest
  {
    OverlayAt(done + Zeros(left) + rest, |done|, piece);
  }

  /** One iteration of the reading loop moves the boundary between the bytes read and the zeros. */
  lemma ReadStep(chunks: seq<Option<seq<Byte>>>, offset: nat, copied: nat, n: nat, m: nat, rest: seq<Byte>)
    requires copied + m <= n && m <= CHUNK_SIZE - (offset + copied) % CHUNK_SIZE
    ensures Overlay(RangeBytes(chunks, offset, copied) + Zeros(n - copied) + rest, copied,
              PieceAt(chunks, offset + copied, m))
         == RangeBytes(chunks, offset, copied + m) + Zeros(n - (copied + m)) + rest
  {
    PieceIsRange(chunks, offset, copied, m);
    PasteOverZeros(RangeBytes(chunks, offset, copied), n - copied, rest, PieceAt(chunks, offset + copied, m), m);
  }

  lemma FlatRange(len: nat, chunks: seq<Option<seq<Byte>>>, offset: nat, n: nat)
    requires offset + n <= len
    ensures Chunked(len, chunks).Flat()[offset..offset + n] == RangeBytes(chunks, offset, n)
  {
  }

  // ---------------------------------------------------------------- what the flat file promises

  /** Bytes cut off by a shrink read as zero after a later growth. */
  lemma CutBytesReadAsZero(flat: seq<Byte>, n: nat, m: nat)
    requires n <= |flat| && n <= m
    ensures Resized(Resized(flat, n), m) == flat[..n] + Zeros(m - n)
  {
    assert flat[..n] + Zeros(0) == flat[..n];
  }

  /** What was written is read back, the rest is kept, and a gap is filled with zeros. */
  lemma WrittenBytes(flat: seq<Byte>, offset: nat, data: seq<Byte>)
    ensures |Written(flat, offset, data)| == Max(|flat|, offset + |data|)
    ensures Written(flat, offset, data)[offset..offset + |data|] == data
    ensures forall i :: 0 <= i < |Written(flat, offset, data)| && !(offset <= i < offset + |data|) ==>
              Written(flat, offset, data)[i] == if i < |flat| then flat[i] else 0
  {
    OverlayAt(Resized(flat, Max(|flat|, offset + |data|)), offset, data);
  }
}
