/** The remote fence that ends a RISC-V shootdown: which harts its SBI calls name. Masks are sets of bit positions. */
module RemoteFences {
  import opened Common

  const USIZE_BITS: nat := 64
  const USIZE_MAX: nat := 0xFFFF_FFFF_FFFF_FFFF

  datatype Call = Call(mask: set<nat>, base: nat)

  /**
   Section 8.2 of the RISC-V SBI Specification 1.0: bit `b` of the mask is the hart with the identifier
   `base + b`; a base of all ones names every available hart whatever the mask.
   */
  ghost function HartsOf(call: Call, available: set<nat>): set<nat> {
    if call.base == USIZE_MAX then available else set b | b in call.mask :: call.base + b
  }

  ghost function HartsOfAll(calls: seq<Call>, available: set<nat>): set<nat> {
    if calls == [] then {} else HartsOfAll(calls[..|calls| - 1], available) + HartsOf(calls[|calls| - 1], available)
  }

  /** `cpu_hardware_id`: all ones marks a CPU without an identifier. */
  function HardwareId(ids: seq<nat>, cpu: nat): (id: Option<nat>)
    ensures id.Some? <==> cpu < |ids| && ids[cpu] != USIZE_MAX
    ensures id.Some? ==> id.value == ids[cpu]
  {
    if cpu < |ids| && ids[cpu] != USIZE_MAX then Some(ids[cpu]) else None
  }

  /** The identifiers of the targets among the first `n` CPUs. */
  ghost function TargetHarts(ids: seq<nat>, targets: set<nat>, n: nat): set<nat> {
    set cpu | 0 <= cpu < n && cpu in targets && cpu < |ids| && ids[cpu] != USIZE_MAX :: ids[cpu]
  }

  lemma TargetHartsStep(ids: seq<nat>, targets: set<nat>, n: nat)
    ensures TargetHarts(ids, targets, n + 1)
         == TargetHarts(ids, targets, n) + (if n in targets
             && HardwareId(ids, n).Some? then {HardwareId(ids, n).value} else {})
  {
    var id := HardwareId(ids, n);
    var before := TargetHarts(ids, targets, n) + (if n in targets && id.Some? then {id.value} else {});
    var after := TargetHarts(ids, targets, n + 1);
    forall h | h in after
      ensures h in before
    {
      var cpu :| 0 <= cpu < n + 1 && cpu in targets && cpu < |ids| && ids[cpu] != USIZE_MAX && ids[cpu] == h;
    }
    forall h | h in before
      ensures h in after
    {
      if h in TargetHarts(ids, targets, n) {
        var cpu :| 0 <= cpu < n && cpu in targets && cpu < |ids| && ids[cpu] != USIZE_MAX && ids[cpu] == h;
      } else {
        assert ids[n] == h;
      }
    }
  }

  /** Some call names the hart by a bit of its mask. */
  ghost predicate Names(calls: seq<Call>, h: nat) {
    exists c, b :: c in calls && b in c.mask && h == c.base + b
  }

  /** The hart is one of the first `n` CPUs that are targets and have an identifier. */
  ghost predicate IsTarget(ids: seq<nat>, targets: set<nat>, n: nat, h: nat) {
    exists cpu :: 0 <= cpu < n && cpu in targets && cpu < |ids| && ids[cpu] != USIZE_MAX && ids[cpu] == h
  }

  lemma {:induction false} HartsAreNamed(calls: seq<Call>, available: set<nat>, h: nat)
    requires forall c :: c in calls ==> c.base != USIZE_MAX
    ensures h in HartsOfAll(calls, available) <==> Names(calls, h)
    decreases |calls|
  {
    if calls != [] {
      var last, rest := calls[|calls| - 1], calls[..|calls| - 1];
      assert calls == rest + [last];
      HartsAreNamed(rest, available, h);
      if h in HartsOf(last, available) {
        var b :| b in last.mask && h == last.base + b;
        assert last in calls;
      } else if Names(calls, h) {
        var c, b :| c in calls && b in c.mask && h == c.base + b;
        assert c in rest;
      }
    }
  }

  /** The smallest identifier among the targets, or all ones. */
  method MaskBase(ids: seq<nat>, targets: set<nat>, cpus: nat) returns (base: nat)
    requires forall cpu :: 0 <= cpu < |ids| ==> ids[cpu] <= USIZE_MAX
    ensures base == USIZE_MAX <==> TargetHarts(ids, targets, cpus) == {}
    ensures base != USIZE_MAX ==> base in TargetHarts(ids, targets, cpus)
    ensures base <= USIZE_MAX && forall h :: h in TargetHarts(ids, targets, cpus) ==> base <= h
  {
    base := USIZE_MAX;
    var cpu := 0;
    while cpu < cpus
      invariant cpu <= cpus && base <= USIZE_MAX
      invariant base == USIZE_MAX <==> TargetHarts(ids, targets, cpu) == {}
      invariant base != USIZE_MAX ==> base in TargetHarts(ids, targets, cpu)
      invariant forall h :: h in TargetHarts(ids, targets, cpu) ==> base <= h
    {
      TargetHartsStep(ids, targets, cpu);
      if cpu in targets {
        var id := HardwareId(ids, cpu);
        if id.Some? {
          base := Min(base, id.value);
        }
      }
      cpu := cpu + 1;
    }
  }

  /** The mask relative to `base`, if every target fits into one word. */
  method MaskFrom(ids: seq<nat>, targets: set<nat>, cpus: nat, base: nat) returns (mask: set<nat>, fits: bool)
    requires base < USIZE_MAX && forall h :: h in TargetHarts(ids, targets, cpus) ==> base <= h
    ensures fits ==> HartsOf(Call(mask, base), {}) == TargetHarts(ids, targets, cpus)
    ensures fits ==> forall b :: b in mask ==> b < USIZE_BITS
    ensures fits <==> forall h :: h in TargetHarts(ids, targets, cpus) ==> h - base < USIZE_BITS
  {
    mask, fits := {}, true;
    var cpu := 0;
    while cpu < cpus
      invariant cpu <= cpus
      invariant HartsOf(Call(mask, base), {}) == TargetHarts(ids, targets, cpu)
      invariant forall b :: b in mask ==> b < USIZE_BITS
    {
      TargetHartsStep(ids, targets, cpu);
      if cpu in targets {
        var id := HardwareId(ids, cpu);
        if id.Some? {
          assert id.value in TargetHarts(ids, targets, cpus);
          var offset := id.value - base;
          if offset >= USIZE_BITS {
            return mask, false;
          }
          AddBit(mask, base, offset);
          mask := mask + {offset};
        }
      }
      cpu := cpu + 1;
    }
    forall h | h in TargetHarts(ids, targets, cpus)
      ensures h - base < USIZE_BITS
    {
      assert h in HartsOf(Call(mask, base), {});
    }
  }

  lemma AddBit(mask: set<nat>, base: nat, offset: nat)
    requires base < USIZE_MAX
    ensures HartsOf(Call(mask + {offset}, base), {}) == HartsOf(Call(mask, base), {}) + {base + offset}
  {
    assert offset in mask + {offset};
    forall h | h in HartsOf(Call(mask, base), {})
      ensures h in HartsOf(Call(mask + {offset}, base), {})
    {
      var b :| b in mask && base + b == h;
      assert b in mask + {offset};
    }
  }

  /** One call per target, with bit 0 at its own identifier. */
  method FenceEach(ids: seq<nat>, targets: set<nat>, cpus: nat, ghost available: set<nat>) returns (calls: seq<Call>)
    ensures HartsOfAll(calls, available) == TargetHarts(ids, targets, cpus)
    ensures forall c :: c in calls ==> c.mask == {0} && c.base != USIZE_MAX
  {
    calls := [];
    var cpu := 0;
    while cpu < cpus
      invariant cpu <= cpus && forall c :: c in calls ==> c.mask == {0} && c.base != USIZE_MAX
      invariant HartsOfAll(calls, available) == TargetHarts(ids, targets, cpu)
    {
      TargetHartsStep(ids, targets, cpu);
      if cpu in targets {
        var id := HardwareId(ids, cpu);
        if id.Some? {
          ghost var before := calls;
          calls := calls + [Call({0}, id.value)];
          assert calls[..|calls| - 1] == before;
          OneHart(id.value, available);
        }
      }
      cpu := cpu + 1;
    }
  }

  lemma OneHart(id: nat, available: set<nat>)
    requires id != USIZE_MAX
    ensures HartsOf(Call({0}, id), available) == {id}
  {
    assert 0 in Call({0}, id).mask;
  }

  /** The fence names exactly the targets that have an identifier, however their identifiers are spread. */
  method Fence(ids: seq<nat>, targets: set<nat>, cpus: nat, ghost available: set<nat>) returns (calls: seq<Call>)
    requires forall cpu :: 0 <= cpu < |ids| ==> ids[cpu] <= USIZE_MAX
    ensures HartsOfAll(calls, available) == TargetHarts(ids, targets, cpus)
    ensures forall h :: Names(calls, h) <==> IsTarget(ids, targets, cpus, h)
    ensures forall c :: c in calls ==> c.base != USIZE_MAX && forall b :: b in c.mask ==> b < USIZE_BITS
    ensures TargetHarts(ids, targets, cpus) == {} ==> calls == []
  {
    calls := [];
    var base := MaskBase(ids, targets, cpus);
    if base != USIZE_MAX {
      var mask, fits := MaskFrom(ids, targets, cpus, base);
      if fits {
        calls := [Call(mask, base)];
        assert calls[..0] == [];
      } else {
        calls := FenceEach(ids, targets, cpus, available);
      }
    }
    forall h
      ensures Names(calls, h) <==> IsTarget(ids, targets, cpus, h)
    {
      HartsAreNamed(calls, available, h);
    }
  }
}
