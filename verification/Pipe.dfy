/** Pipes and event counters: transfer, would-block conditions and the wakeups that end them. */
module Pipes {
  import opened Common

  const PIPE_CAPACITY: nat := 64 * 1024
  const PIPE_SMALL_COPY: nat := 64
  const U64_MAX: nat := 0xFFFF_FFFF_FFFF_FFFF

  datatype Outcome = Transferred(count: nat) | WouldBlock | BrokenPipe | Invalid

  class Pipe {
    var buf: seq<Byte>
    var readers: nat
    var writers: nat
    /** All bytes ever accepted, and all bytes ever handed to readers. */
    ghost var accepted: seq<Byte>
    ghost var delivered: seq<Byte>

    /** First in, first out: what went in is what came out followed by what is buffered. */
    ghost predicate Valid()
      reads this
    {
      |buf| <= PIPE_CAPACITY && accepted == delivered + buf
    }

    predicate ReadWouldBlock()
      reads this
    {
      buf == [] && writers > 0
    }

    predicate WriteWouldBlock()
      reads this
    {
      readers > 0 && |buf| >= PIPE_CAPACITY
    }

    constructor ()
      ensures Valid() && buf == [] && readers == 1 && writers == 1 && accepted == [] && delivered == []
    {
      buf, readers, writers := [], 1, 1;
      accepted, delivered := [], [];
    }

    /**
     Reads what is there, at most the size of the buffer. `wake` is the wakeup of the writers;
     `split` is the length of the first of the two slices that the ring buffer is stored in.
     */
    method Read(dst: array<Byte>, split: nat) returns (r: Outcome, wake: bool)
      requires Valid() && split <= |buf|
      modifies this`buf, this`delivered, dst
      ensures Valid()
      ensures r == if dst.Length == 0 then Transferred(0)
                   else if old(buf) == [] then (if writers == 0 then Transferred(0) else WouldBlock)
                   else Transferred(Min(dst.Length, |old(buf)|))
      ensures r.WouldBlock? ==> old(ReadWouldBlock())
      ensures r.Transferred? ==> r.count <= dst.Length
                                 && dst[..] == old(buf)[..r.count] + old(dst[..])[r.count..]
                                 && delivered == old(delivered) + old(buf)[..r.count] && buf == old(buf)[r.count..]
      ensures !r.Transferred? ==> buf == old(buf) && delivered == old(delivered) && dst[..] == old(dst[..])
      ensures wake <==> |old(buf)| == PIPE_CAPACITY && |buf| < PIPE_CAPACITY
      ensures old(WriteWouldBlock()) && !WriteWouldBlock() ==> wake
      ensures !old(ReadWouldBlock()) || ReadWouldBlock()
    {
      wake := false;
      if dst.Length == 0 {
        return Transferred(0), false;
      }
      if buf == [] {
        r := if writers == 0 then Transferred(0) else WouldBlock;
        return;
      }
      var wasFull := |buf| == PIPE_CAPACITY;
      var n := ReadBuffer(dst, split);
      r, wake := Transferred(n), wasFull && |buf| < PIPE_CAPACITY;
    }

    /** `pipe_read_buffer`: byte by byte for short reads, slice by slice for long ones. */
    method ReadBuffer(dst: array<Byte>, split: nat) returns (n: nat)
      requires Valid() && split <= |buf|
      modifies this`buf, this`delivered, dst
      ensures Valid() && n == Min(dst.Length, |old(buf)|)
      ensures dst[..] == old(buf)[..n] + old(dst[..])[n..]
      ensures buf == old(buf)[n..] && delivered == old(delivered) + old(buf)[..n]
    {
      n := Min(dst.Length, |buf|);
      ghost var whole := buf;
      if n <= PIPE_SMALL_COPY {
        PopBytes(dst, n);
      } else {
        CopySlices(dst, n, split);
        buf := buf[n..];
      }
      delivered := delivered + whole[..n];
      assert whole == whole[..n] + whole[n..];
    }

    method PopBytes(dst: array<Byte>, n: nat)
      requires n <= dst.Length && n <= |buf|
      modifies this`buf, dst
      ensures dst[..] == old(buf)[..n] + old(dst[..])[n..] && buf == old(buf)[n..]
    {
      ghost var whole, before := buf, dst[..];
      var i := 0;
      while i < n
        invariant i <= n && buf == whole[i..]
        invariant forall j :: 0 <= j < i ==> dst[j] == whole[j]
        invariant forall j :: i <= j < dst.Length ==> dst[j] == before[j]
      {
        dst[i] := buf[0];
        buf := buf[1..];
        i := i + 1;
      }
    }

    /** The two slices of the ring buffer, one after the other. */
    method CopySlices(dst: array<Byte>, n: nat, split: nat)
      requires n <= dst.Length && n <= |buf| && split <= |buf|
      modifies dst
      ensures dst[..] == buf[..n] + old(dst[..])[n..]
    {
      ghost var before := dst[..];
      var front, back := buf[..split], buf[split..];
      var frontLen := Min(n, |front|);
      assert front[..frontLen] == buf[..frontLen];
      CopyInto(dst, 0, front[..frontLen]);
      var backLen := n - frontLen;
      if backLen != 0 {
        CopyInto(dst, frontLen, back[..backLen]);
      }
      Slices(buf, before, split, n);
    }

    /** The first slice, and then a part of the second one if it is needed, are a prefix of the buffer. */
    static lemma Slices(buf: seq<Byte>, before: seq<Byte>, split: nat, n: nat)
      requires n <= |before| && n <= |buf| && split <= |buf|
      ensures n <= split ==> Overlay(before, 0, buf[..n]) == buf[..n] + before[n..]
      ensures split < n ==>
                Overlay(Overlay(before, 0, buf[..split]), split, buf[split..][..n - split]) == buf[..n] + before[n..]
    {
      if split < n {
        assert Overlay(before, 0, buf[..split]) == buf[..split] + before[split..];
        assert buf[split..][..n - split] == buf[split..n] && buf[..n] == buf[..split] + buf[split..n];
      }
    }

    /** Writes as much as fits. `wake` is the wakeup of the readers. */
    method Write(src: seq<Byte>) returns (r: Outcome, wake: bool)
      requires Valid()
      modifies this`buf, this`accepted
      ensures Valid()
      ensures r == if src == [] then Transferred(0)
                   else if readers == 0 then BrokenPipe
                   else if |old(buf)| == PIPE_CAPACITY then WouldBlock
                   else Transferred(Min(|src|, PIPE_CAPACITY - |old(buf)|))
      ensures r.WouldBlock? ==> old(WriteWouldBlock())
      ensures r.Transferred? ==> && r.count <= |src| && buf == old(buf) + src[..r.count]
                                 && accepted == old(accepted) + src[..r.count]
      ensures !r.Transferred? ==> buf == old(buf) && accepted == old(accepted)
      ensures wake <==> old(buf) == [] && buf != []
      ensures old(ReadWouldBlock()) && !ReadWouldBlock() ==> wake
      ensures !old(WriteWouldBlock()) || WriteWouldBlock()
    {
      wake := false;
      if src == [] {
        return Transferred(0), false;
      }
      if readers == 0 {
        return BrokenPipe, false;
      }
      var available := if |buf| >= PIPE_CAPACITY then 0 else PIPE_CAPACITY - |buf|;
      if available == 0 {
        return WouldBlock, false;
      }
      var wasEmpty := buf == [];
      var n := Min(|src|, available);
      if n <= PIPE_SMALL_COPY {
        ghost var before := buf;
        var i := 0;
        while i < n
          invariant i <= n && buf == before + src[..i] && accepted == old(accepted)
        {
          buf := buf + [src[i]];
          i := i + 1;
        }
      } else {
        buf := buf + src[..n];
      }
      assert delivered + old(buf) + src[..n] == delivered + (old(buf) + src[..n]);
      accepted := accepted + src[..n];
      r, wake := Transferred(n), wasEmpty && n != 0;
    }

    /** Cloning an endpoint needs one, and unblocks nobody. */
    method CloneEnd(reading: bool)
      requires Valid() && (if reading then readers > 0 else writers > 0)
      modifies this`readers, this`writers
      ensures Valid()
      ensures readers == old(readers) + (if reading then 1 else 0)
      ensures writers == old(writers) + (if reading then 0 else 1)
      ensures ReadWouldBlock() == old(ReadWouldBlock()) && WriteWouldBlock() == old(WriteWouldBlock())
    {
      if reading {
        readers := readers + 1;
      } else {
        writers := writers + 1;
      }
    }

    /** Dropping an endpoint: the last one of a side wakes both sides, another one its own side. */
    method DropEnd(reading: bool) returns (wakeReaders: bool, wakeWriters: bool)
      requires Valid()
      modifies this`readers, this`writers
      ensures Valid()
      ensures readers == if reading && old(readers) > 0 then old(readers) - 1 else old(readers)
      ensures writers == if !reading && old(writers) > 0 then old(writers) - 1 else old(writers)
      ensures old(ReadWouldBlock()) && !ReadWouldBlock() ==> wakeReaders
      ensures old(WriteWouldBlock()) && !WriteWouldBlock() ==> wakeWriters
      ensures wakeReaders <==> if reading then old(readers) > 0 else old(writers) == 1
      ensures wakeWriters <==> if reading then old(readers) == 1 else old(writers) > 0
    {
      var last := false;
      var closed := false;
      if reading {
        if readers > 0 {
          readers := readers - 1;
          last := readers == 0;
          closed := true;
        }
      } else {
        if writers > 0 {
          writers := writers - 1;
          last := writers == 0;
          closed := true;
        }
      }
      wakeReaders := last || (closed && reading);
      wakeWriters := last || (closed && !reading);
    }
  }

  class EventCounter {
    var counter: nat
    const semaphore: bool
    /** The sums of the values written and of the values read. */
    ghost var added: nat
    ghost var taken: nat

    /** Conservation: the counter is what was added and not yet taken, and never reaches the forbidden value. */
    ghost predicate Valid()
      reads this
    {
      counter < U64_MAX && added == taken + counter
    }

    predicate ReadWouldBlock()
      reads this
    {
      counter == 0
    }

    /** A write of `value` would exceed the largest counter. */
    predicate WriteWouldExceed(value: nat)
      reads this
    {
      counter + value > U64_MAX - 1
    }

    constructor (initial: nat, semaphore: bool)
      requires initial < U64_MAX
      ensures Valid() && counter == initial && added == initial && taken == 0
      ensures this.semaphore == semaphore
    {
      counter := initial;
      this.semaphore := semaphore;
      added, taken := initial, 0;
    }

    method Read(len: nat) returns (r: Outcome, value: nat, wakeWriters: bool)
      requires Valid()
      modifies this`counter, this`taken
      ensures Valid() && taken == old(taken) + value
      ensures r == if len < 8 then Invalid else if old(counter) == 0 then WouldBlock else Transferred(8)
      ensures value == if !r.Transferred? then 0 else if semaphore then 1 else old(counter)
      ensures wakeWriters <==> r.Transferred?
      ensures forall v: nat :: WriteWouldExceed(v) <==> counter + v >= U64_MAX
      ensures forall v: nat :: old(WriteWouldExceed(v)) && !WriteWouldExceed(v) ==> wakeWriters
    {
      value, wakeWriters := 0, false;
      if len < 8 {
        return Invalid, 0, false;
      }
      if counter == 0 {
        return WouldBlock, 0, false;
      }
      if semaphore {
        counter := counter - 1;
        value := 1;
      } else {
        value := counter;
        counter := 0;
      }
      taken := taken + value;
      r, wakeWriters := Transferred(8), true;
    }

    method Write(len: nat, value: nat) returns (r: Outcome, wakeReaders: bool)
      requires Valid() && value <= U64_MAX
      modifies this`counter, this`added
      ensures Valid()
      ensures r == if len < 8 || value == U64_MAX then Invalid
                   else if old(counter) + value >= U64_MAX then WouldBlock
                   else Transferred(8)
      ensures added == if r.Transferred? then old(added) + value else old(added)
      ensures wakeReaders <==> old(counter) == 0 && counter > 0
    {
      wakeReaders := false;
      if len < 8 {
        return Invalid, false;
      }
      if value == U64_MAX {
        return Invalid, false;
      }
      var available := U64_MAX - 1 - counter;
      if value > available {
        return WouldBlock, false;
      }
      var wasEmpty := counter == 0;
      counter := counter + value;
      added := added + value;
      r, wakeReaders := Transferred(8), wasEmpty && value != 0;
    }
  }
}
