/** Byte-addressed reads and writes over a device that transfers whole sectors. */
module VirtioBlocks {
  import opened Common

  const SECTOR_SIZE: nat := 512

  /** The buffer `base`, patched with `data`, written back over the span that starts at `a`. */
  function Rewrite(disk: seq<Byte>, a: nat, base: seq<Byte>, offset: nat, data: seq<Byte>): seq<Byte>
    requires a <= offset && offset + |data| <= a + |base| <= |disk|
  {
    Overlay(disk, a, Overlay(base, offset - a, data))
  }

  lemma RewriteBytes(disk: seq<Byte>, a: nat, base: seq<Byte>, offset: nat, data: seq<Byte>)
    requires a <= offset && offset + |data| <= a + |base| <= |disk|
    ensures |Rewrite(disk, a, base, offset, data)| == |disk|
    ensures Rewrite(disk, a, base, offset, data)[offset..offset + |data|] == data
    ensures forall i :: 0 <= i < |disk| && !(offset <= i < offset + |data|) ==>
              Rewrite(disk, a, base, offset, data)[i] == if a <= i < a + |base| then base[i - a] else disk[i]
  {
    var after := Rewrite(disk, a, base, offset, data);
    assert |after| == |disk| by {
      RewriteLength(disk, a, base, offset, data);
    }
    forall i | 0 <= i < |disk|
      ensures after[i] == RewrittenByte(disk, a, base, offset, data, i)
    {
      RewriteAt(disk, a, base, offset, data, i);
    }
    assert forall i :: 0 <= i < |data| ==> after[offset..offset + |data|][i] == after[offset + i] == data[i];
  }

  function RewrittenByte(disk: seq<Byte>, a: nat, base: seq<Byte>, offset: nat, data: seq<Byte>, i: nat): Byte
    requires a <= offset && offset + |data| <= a + |base| <= |disk| && i < |disk|
  {
    if offset <= i < offset + |data| then data[i - offset] else if a <= i < a + |base| then base[i - a] else disk[i]
  }

  lemma RewriteLength(disk: seq<Byte>, a: nat, base: seq<Byte>, offset: nat, data: seq<Byte>)
    requires a <= offset && offset + |data| <= a + |base| <= |disk|
    ensures |Rewrite(disk, a, base, offset, data)| == |disk|
  {
    OverlayAt(base, offset - a, data);
    OverlayAt(disk, a, Overlay(base, offset - a, data));
  }

  lemma RewriteAt(disk: seq<Byte>, a: nat, base: seq<Byte>, offset: nat, data: seq<Byte>, i: nat)
    requires a <= offset && offset + |data| <= a + |base| <= |disk| && i < |disk|
    ensures |Rewrite(disk, a, base, offset, data)| == |disk|
    ensures Rewrite(disk, a, base, offset, data)[i] == RewrittenByte(disk, a, base, offset, data, i)
  {
    var patched := Overlay(base, offset - a, data);
    RewriteLength(disk, a, base, offset, data);
    assert |patched| == |base|;
    OverlayByte(disk, a, patched, i);
    if a <= i < a + |base| {
      OverlayByte(base, offset - a, data, i - a);
    }
  }

  function DivCeil(a: nat, b: nat): nat
    requires b > 0
  {
    (a + b - 1) / b
  }

  /** First byte of the first sector touched, and first byte after the last one. */
  function SpanStart(offset: nat): nat { offset / SECTOR_SIZE * SECTOR_SIZE }

  function SpanEnd(offset: nat, len: nat): nat {
    SpanStart(offset) + DivCeil(offset % SECTOR_SIZE + len, SECTOR_SIZE) * SECTOR_SIZE
  }

  /** The sectors are inside the device exactly when the bytes are. */
  lemma SpanInCapacity(offset: nat, len: nat, capacity: nat)
    requires len > 0 && capacity % SECTOR_SIZE == 0
    ensures SpanEnd(offset, len) <= capacity <==> offset + len <= capacity
  {
    SpanFacts(offset, len);
    if offset + len <= capacity {
      Multiples(SpanEnd(offset, len), capacity);
    }
  }

  /** Multiples of the sector size that are less than a sector apart are in order. */
  lemma Multiples(a: nat, b: nat)
    requires a % SECTOR_SIZE == 0 && b % SECTOR_SIZE == 0 && a < b + SECTOR_SIZE
    ensures a <= b
  {
  }

  lemma SpanFacts(offset: nat, len: nat)
    ensures offset == SpanStart(offset) + offset % SECTOR_SIZE && SpanStart(offset) % SECTOR_SIZE == 0
    ensures offset + len <= SpanEnd(offset, len) < offset + len + SECTOR_SIZE && SpanEnd(offset, len) % SECTOR_SIZE == 0
    ensures (SpanEnd(offset, len) - SpanStart(offset)) % SECTOR_SIZE == 0
    ensures WholeSectors(offset, len) ==> SpanStart(offset) == offset && SpanEnd(offset, len) == offset + len
  {
  }

  /** Whole sectors are written: no read is needed. */
  predicate WholeSectors(offset: nat, len: nat) {
    offset % SECTOR_SIZE == 0 && (offset % SECTOR_SIZE + len) % SECTOR_SIZE == 0
  }

  /** The bytes around the written ones, in the sectors that are rewritten, are zero. */
  ghost predicate ZeroAround(disk: seq<Byte>, offset: nat, len: nat)
    requires SpanEnd(offset, len) <= |disk|
  {
    forall i :: SpanStart(offset) <= i < SpanEnd(offset, len) && !(offset <= i < offset + len) ==> disk[i] == 0
  }

  lemma SliceOfSlice(disk: seq<Byte>, a: nat, e: nat, skip: nat, len: nat)
    requires a <= e <= |disk| && skip + len <= e - a
    ensures disk[a..e][skip..skip + len] == disk[a + skip..a + skip + len]
  {
    var inner, outer := disk[a..e][skip..skip + len], disk[a + skip..a + skip + len];
    assert forall i :: 0 <= i < len ==> inner[i] == outer[i];
  }

  class VirtioBlock {
    /** The sectors of the device, in order. */
    var disk: seq<Byte>

    ghost predicate Valid()
      reads this
    {
      |disk| % SECTOR_SIZE == 0
    }

    /** `read_blocks`: fails past the capacity or when the device does. */
    method ReadBlocks(sector: nat, len: nat, fails: bool) returns (r: Option<seq<Byte>>)
      ensures r.Some? <==> !fails && sector * SECTOR_SIZE + len <= |disk|
      ensures r.Some? ==> r.value == disk[sector * SECTOR_SIZE..sector * SECTOR_SIZE + len]
    {
      var at := sector * SECTOR_SIZE;
      r := if !fails && at + len <= |disk| then Some(disk[at..at + len]) else None;
    }

    /** `write_blocks`: past the capacity nothing happens; a failing device leaves `junk` in the sectors. */
    method WriteBlocks(sector: nat, data: seq<Byte>, fails: bool, junk: seq<Byte>) returns (ok: bool)
      requires |junk| == |data|
      modifies this
      ensures ok <==> !fails && sector * SECTOR_SIZE + |data| <= |disk|
      ensures |disk| == |old(disk)|
      ensures sector * SECTOR_SIZE + |data| > |disk| ==> disk == old(disk)
      ensures sector * SECTOR_SIZE + |data| <= |disk| ==>
                disk == Overlay(old(disk), sector * SECTOR_SIZE, if fails then junk else data)
    {
      var at := sector * SECTOR_SIZE;
      if at + |data| > |disk| {
        return false;
      }
      disk := Overlay(disk, at, if fails then junk else data);
      ok := !fails;
    }

    /** A read returns exactly the addressed bytes, and succeeds for every range inside the device. */
    method ReadPhys(offset: nat, len: nat, fails: bool) returns (r: Option<seq<Byte>>)
      requires Valid()
      ensures r.Some? <==> len == 0 || (!fails && offset + len <= |disk|)
      ensures r.Some? && len > 0 ==> r.value == disk[offset..offset + len]
      ensures r.Some? && len == 0 ==> r.value == []
    {
      if len == 0 {
        return Some([]);
      }
      SpanInCapacity(offset, len, |disk|);
      SpanFacts(offset, len);
      var sector := offset / SECTOR_SIZE;
      var skip := offset % SECTOR_SIZE;
      var needed := DivCeil(skip + len, SECTOR_SIZE);
      var tmp := ReadBlocks(sector, needed * SECTOR_SIZE, fails);
      if tmp.None? {
        return None;
      }
      SliceOfSlice(disk, SpanStart(offset), SpanEnd(offset, len), skip, len);
      r := Some(tmp.value[skip..skip + len]);
    }

    /**
     A write rewrites whole sectors. Inside the device it changes exactly the given bytes,
     unless it had to read a partial sector, the read failed, and bytes around were not zero.
     */
    method WritePhys(offset: nat, data: seq<Byte>, readFails: bool, writeFails: bool, junk: seq<Byte>)
      returns (ok: bool)
      requires Valid() && (data != [] ==> |junk| == SpanEnd(offset, |data|) - SpanStart(offset))
      modifies this
      ensures Valid() && |disk| == |old(disk)|
      ensures ok <==> data == [] || (!writeFails && offset + |data| <= |disk|)
      ensures data == [] || offset + |data| > |disk| ==> disk == old(disk)
      ensures ok && data != [] ==> disk == AfterWrite(old(disk), offset, data, readFails)
      ensures ok && data != [] ==> disk[offset..offset + |data|] == data
      ensures forall i :: 0 <= i < |disk| && (data == [] || !(SpanStart(offset) <= i < SpanEnd(offset, |data|)))
                ==> disk[i] == old(disk)[i]
    {
      if data == [] {
        return true;
      }
      SpanInCapacity(offset, |data|, |disk|);
      SpanFacts(offset, |data|);
      var sector := offset / SECTOR_SIZE;
      var skip := offset % SECTOR_SIZE;
      var tmp := LoadSpan(offset, |data|, readFails);
      tmp := Overlay(tmp, skip, data);
      ok := WriteBlocks(sector, tmp, writeFails, junk);
      if offset + |data| <= |disk| {
        OverlayAt(old(disk), SpanStart(offset), if writeFails then junk else tmp);
        AfterWriteBytes(old(disk), offset, data, readFails);
      }
    }

    /** The buffer of a write before the new bytes are put into it; a failed read is ignored. */
    method LoadSpan(offset: nat, len: nat, readFails: bool) returns (tmp: seq<Byte>)
      requires Valid() && len > 0
      ensures |tmp| == SpanEnd(offset, len) - SpanStart(offset)
      ensures SpanEnd(offset, len) <= |disk| ==> tmp == Base(disk, offset, len, readFails)
    {
      SpanFacts(offset, len);
      var skip := offset % SECTOR_SIZE;
      var end := skip + len;
      tmp := Zeros(DivCeil(end, SECTOR_SIZE) * SECTOR_SIZE);
      if skip != 0 || end % SECTOR_SIZE != 0 {
        var read := ReadPhys(offset / SECTOR_SIZE * SECTOR_SIZE, |tmp|, readFails);
        if read.Some? {
          tmp := read.value;
        }
      }
    }
  }

  /** The buffer that the new bytes are put into: the old sectors if they were read, else zeros. */
  function Base(disk: seq<Byte>, offset: nat, len: nat, readFails: bool): (base: seq<Byte>)
    requires SpanEnd(offset, len) <= |disk|
    ensures |base| == SpanEnd(offset, len) - SpanStart(offset)
  {
    if WholeSectors(offset, len) || readFails then Zeros(SpanEnd(offset, len) - SpanStart(offset))
    else disk[SpanStart(offset)..SpanEnd(offset, len)]
  }

  function AfterWrite(disk: seq<Byte>, offset: nat, data: seq<Byte>, readFails: bool): seq<Byte>
    requires SpanEnd(offset, |data|) <= |disk|
  {
    SpanFacts(offset, |data|);
    Rewrite(disk, SpanStart(offset), Base(disk, offset, |data|, readFails), offset, data)
  }

  lemma AfterWriteBytes(disk: seq<Byte>, offset: nat, data: seq<Byte>, readFails: bool)
    requires SpanEnd(offset, |data|) <= |disk|
    ensures offset + |data| <= |disk| == |AfterWrite(disk, offset, data, readFails)|
    ensures AfterWrite(disk, offset, data, readFails)[offset..offset + |data|] == data
    ensures forall i :: 0 <= i < |disk| && !(offset <= i < offset + |data|) ==>
              AfterWrite(disk, offset, data, readFails)[i]
              == if SpanStart(offset) <= i < SpanEnd(offset, |data|) && !WholeSectors(offset, |data|) && readFails
                 then 0 else disk[i]
  {
    SpanFacts(offset, |data|);
    RewriteBytes(disk, SpanStart(offset), Base(disk, offset, |data|, readFails), offset, data);
  }

  /** The write is exact if and only if no read was needed, or it succeeded, or it would have read zeros. */
  lemma WriteIsExactIff(disk: seq<Byte>, offset: nat, data: seq<Byte>, readFails: bool)
    requires SpanEnd(offset, |data|) <= |disk|
    ensures offset + |data| <= |disk|
    ensures AfterWrite(disk, offset, data, readFails) == Overlay(disk, offset, data)
            <==> WholeSectors(offset, |data|) || !readFails || ZeroAround(disk, offset, |data|)
  {
    AfterWriteBytes(disk, offset, data, readFails);
    OverlayAt(disk, offset, data);
    SameExactlyWhere(AfterWrite(disk, offset, data, readFails), Overlay(disk, offset, data), offset, offset + |data|);
  }

  /** Two sequences that agree on [a, e) are equal exactly when they agree elsewhere. */
  lemma SameExactlyWhere(s: seq<Byte>, t: seq<Byte>, a: nat, e: nat)
    requires |s| == |t| && a <= e <= |s| && s[a..e] == t[a..e]
    ensures s == t <==> forall i :: 0 <= i < |s| && !(a <= i < e) ==> s[i] == t[i]
  {
    assert forall i :: a <= i < e ==> s[i] == s[a..e][i - a] && t[i] == t[a..e][i - a];
  }
}
