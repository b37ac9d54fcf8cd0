/** Small datatypes and functions that several modules share. */
module Common {

  datatype Option<+T> = None | Some(value: T)

  newtype Byte = x: int | 0 <= x < 256

  /**
   Some invariants are guarded: `forall g :: Guard(g, args) ==> Body(args)` says nothing to the
   verifier until a proof mentions `Guard(Key, args)`, which keeps the quantifiers of the body
   out of the methods that only pass the invariant on.
   */
  datatype Guard = Key

  function Min(a: nat, b: nat): nat { if a <= b then a else b }

  function Max(a: nat, b: nat): nat { if a <= b then b else a }

  lemma MinMax(a: nat, b: nat)
    ensures Min(a, b) <= a && Min(a, b) <= b && (Min(a, b) == a || Min(a, b) == b)
    ensures a <= Max(a, b) && b <= Max(a, b) && (Max(a, b) == a || Max(a, b) == b)
  {
  }

  /** The least element of a nonempty set: the first one of an ordered set, the lowest set bit of a mask. */
  function Least(s: set<nat>): (m: nat)
    requires s != {}
    ensures m in s && forall x :: x in s ==> m <= x
  {
    LeastExists(s);
    var m :| m in s && forall x :: x in s ==> m <= x;
    m
  }

  lemma {:induction false} LeastExists(s: set<nat>)
    requires s != {}
    ensures exists m :: m in s && forall x :: x in s ==> m <= x
    decreases s
  {
    var a :| a in s;
    var rest := s - {a};
    assert s == {a} + rest;
    if rest != {} {
      LeastExists(rest);
      var m :| m in rest && forall x :: x in rest ==> m <= x;
      assert Min(a, m) in s && forall x :: x in s ==> Min(a, m) <= x;
    }
  }

  function Zeros(n: nat): seq<Byte> {
    seq(n, _ => 0)
  }

  lemma ZerosAreZero(n: nat)
    ensures |Zeros(n)| == n && forall i :: 0 <= i < n ==> Zeros(n)[i] == 0
  {
  }

  /** `bytes` with the part from `at` on replaced by `data`. */
  function Overlay(bytes: seq<Byte>, at: nat, data: seq<Byte>): seq<Byte>
    requires at + |data| <= |bytes|
  {
    bytes[..at] + data + bytes[at + |data|..]
  }

  lemma OverlayAt(bytes: seq<Byte>, at: nat, data: seq<Byte>)
    requires at + |data| <= |bytes|
    ensures |Overlay(bytes, at, data)| == |bytes|
    ensures Overlay(bytes, at, data)[at..at + |data|] == data
    ensures forall i :: 0 <= i < |bytes| ==>
              Overlay(bytes, at, data)[i] == if at <= i < at + |data| then data[i - at] else bytes[i]
  {
  }

  lemma OverlayByte(bytes: seq<Byte>, at: nat, data: seq<Byte>, i: nat)
    requires at + |data| <= |bytes| && i < |bytes|
    ensures |Overlay(bytes, at, data)| == |bytes|
    ensures Overlay(bytes, at, data)[i] == if at <= i < at + |data| then data[i - at] else bytes[i]
  {
  }

  /** `copy_from_slice` into a part of a buffer. */
  method CopyInto(buf: array<Byte>, at: nat, data: seq<Byte>)
    requires at + |data| <= buf.Length
    modifies buf
    ensures buf[..] == Overlay(old(buf[..]), at, data)
  {
    forall i | 0 <= i < |data| {
      buf[at + i] := data[i];
    }
    OverlayAt(old(buf[..]), at, data);
  }
}
