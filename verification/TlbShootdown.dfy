/**
 Deferred and synchronous TLB invalidation. Every atomic access of the source is one step of
 a sequentially consistent machine with any number of CPUs and of shootdowns in flight.
 */
module TlbCpus {

  /** A cached translation: the address space it belongs to and the version of its page table. */
  datatype Entry = Entry(root: nat, version: nat)

  /**
   Where a CPU is in `mark_current_address_space`: `Off` after a clear (or at boot), then the
   active root is published, the request is loaded, the two generations are compared, the TLB
   is flushed, the acknowledgement is stored, and user translations may be used. LoongArch
   passes through `Activating`, where the whole local TLB is flushed once the new root is written.
   */
  datatype MarkPc =
    | Off
    | Published(root: nat)
    | Loaded(root: nat, request: nat)
    | MustFlush(root: nat, request: nat)
    | Flushed(root: nat, request: nat)
    | Activating(root: nat)
    | Running(root: nat)
  {
    /** The value of ACTIVE_ADDRESS_SPACE while the CPU is here. */
    function Active(): nat {
      if Off? then 0 else root
    }
  }

  /** The per-CPU atomics, the control state, the cached translations, and two time stamps. */
  datatype Cpu = Cpu(active: nat, request: nat, ack: nat, pc: MarkPc, tlb: set<Entry>,
                     requestedAt: nat, flushedAt: nat)

  const BootCpu := Cpu(0, 0, 0, Off, {}, 0, 0)

  ghost predicate Stale(c: Cpu, root: nat, version: nat) {
    exists e :: e in c.tlb && e.root == root && e.version < version
  }
}

/** The RISC-V shootdown: requests for every other CPU, then a remote fence for the active ones. */
module RiscvShootdown {
  import opened TlbCpus

  /**
   Where a shooter is in `tlb_shootdown_inner`: the loop that stores the request at every
   target, the loop that drops the targets with another root, the remote fence, the return.
   */
  datatype ShootPc =
    | Requesting(next: nat)
    | Checking(next: nat, targets: set<nat>)
    | Fencing(remaining: set<nat>)
    | Done

  /** A shootdown of `root` from CPU `cpu`, begun when the page table had the version `version`. */
  datatype Shooter = Shooter(cpu: nat, root: nat, version: nat, generation: nat, pc: ShootPc)

  datatype State = State(cpus: seq<Cpu>, shooters: seq<Shooter>, versions: map<nat, nat>,
                         generation: nat, clock: nat)

  datatype Step =
    | Mark(cpu: nat, root: nat)
    | LoadRequest(cpu: nat)
    | Compare(cpu: nat)
    | FlushAll(cpu: nat)
    | StoreAck(cpu: nat)
    | Clear(cpu: nat)
    | Fill(cpu: nat)
    | ChangePageTable(root: nat)
    | Shoot(cpu: nat, root: nat)
    | StoreRequest(shooter: nat)
    | CheckActive(shooter: nat)
    | Fence(shooter: nat, cpu: nat)
    | Return(shooter: nat)

  function Version(s: State, root: nat): nat {
    if root in s.versions then s.versions[root] else 0
  }

  /** `online & !(1 << cpu)` with every CPU online. */
  function Others(s: State, cpu: nat): set<nat> {
    set c: nat | c < |s.cpus| && Other(s, cpu, c)
  }

  predicate Other(s: State, cpu: nat, c: nat) {
    c < |s.cpus| && c != cpu
  }

  ghost predicate Enabled(s: State, step: Step) {
    match step
    case Mark(c, root) => c < |s.cpus| && root != 0 && (s.cpus[c].pc.Off? || s.cpus[c].pc.Running?)
    case LoadRequest(c) => c < |s.cpus| && s.cpus[c].pc.Published?
    case Compare(c) => c < |s.cpus| && s.cpus[c].pc.Loaded?
    case FlushAll(c) => c < |s.cpus| && s.cpus[c].pc.MustFlush?
    case StoreAck(c) => c < |s.cpus| && s.cpus[c].pc.Flushed?
    case Clear(c) => c < |s.cpus| && s.cpus[c].pc.Running?
    case Fill(c) => c < |s.cpus| && s.cpus[c].pc.Running?
    case ChangePageTable(root) => true
    case Shoot(c, root) => c < |s.cpus|
    case StoreRequest(i) => i < |s.shooters| && s.shooters[i].pc.Requesting?
    case CheckActive(i) => i < |s.shooters| && s.shooters[i].pc.Checking?
    case Fence(i, c) => i < |s.shooters| && s.shooters[i].pc.Fencing? && c in s.shooters[i].pc.remaining && c < |s.cpus|
    case Return(i) => i < |s.shooters| && s.shooters[i].pc == Fencing({})
  }

  function SetCpu(s: State, c: nat, cpu: Cpu): State
    requires c < |s.cpus|
  {
    s.(cpus := s.cpus[c := cpu], clock := s.clock + 1)
  }

  function SetPc(s: State, i: nat, pc: ShootPc): State
    requires i < |s.shooters|
  {
    s.(shooters := s.shooters[i := s.shooters[i].(pc := pc)], clock := s.clock + 1)
  }

  /** The effect of one step. */
  function Apply(s: State, step: Step): State
    requires Enabled(s, step)
  {
    match step
    case Mark(c, root) =>
      SetCpu(s, c, s.cpus[c].(active := root, pc := Published(root)))
    case LoadRequest(c) =>
      SetCpu(s, c, s.cpus[c].(pc := Loaded(s.cpus[c].pc.root, s.cpus[c].request)))
    case Compare(c) =>
      var pc := s.cpus[c].pc;
      SetCpu(s, c, s.cpus[c].(pc := if s.cpus[c].ack != pc.request then MustFlush(pc.root, pc.request)
                                    else Running(pc.root)))
    case FlushAll(c) =>
      var pc := s.cpus[c].pc;
      SetCpu(s, c, s.cpus[c].(tlb := {}, flushedAt := s.clock + 1, pc := Flushed(pc.root, pc.request)))
    case StoreAck(c) =>
      var pc := s.cpus[c].pc;
      SetCpu(s, c, s.cpus[c].(ack := pc.request, pc := Running(pc.root)))
    case Clear(c) =>
      SetCpu(s, c, s.cpus[c].(active := 0, pc := Off))
    case Fill(c) =>
      var root := s.cpus[c].pc.root;
      SetCpu(s, c, s.cpus[c].(tlb := s.cpus[c].tlb + {Entry(root, Version(s, root))}))
    case ChangePageTable(root) =>
      s.(versions := s.versions[root := Version(s, root) + 1], clock := s.clock + 1)
    case Shoot(c, root) =>
      if root == 0 then
        s.(shooters := s.shooters + [Shooter(c, root, Version(s, root), 0, Done)], clock := s.clock + 1)
      else
        s.(shooters := s.shooters + [Shooter(c, root, Version(s, root), s.generation + 1, Requesting(0))],
           generation := s.generation + 1, clock := s.clock + 1)
    case StoreRequest(i) =>
      var sh := s.shooters[i];
      var c := sh.pc.next;
      if c >= |s.cpus| then SetPc(s, i, Checking(0, Others(s, sh.cpu)))
      else if c == sh.cpu then SetPc(s, i, Requesting(c + 1))
      else
        var s' := SetPc(s, i, Requesting(c + 1));
        s'.(cpus := s'.cpus[c := s'.cpus[c].(request := sh.generation, requestedAt := s.clock + 1)])
    case CheckActive(i) =>
      var sh := s.shooters[i];
      var c := sh.pc.next;
      if c >= |s.cpus| then SetPc(s, i, Fencing(sh.pc.targets))
      else if c in sh.pc.targets && s.cpus[c].active != sh.root then
        SetPc(s, i, Checking(c + 1, sh.pc.targets - {c}))
      else SetPc(s, i, Checking(c + 1, sh.pc.targets))
    case Fence(i, c) =>
      var s' := SetPc(s, i, Fencing(s.shooters[i].pc.remaining - {c}));
      s'.(cpus := s'.cpus[c := s'.cpus[c].(tlb := {}, flushedAt := s.clock + 1)])
    case Return(i) =>
      SetPc(s, i, Done)
  }

  function Boot(cpus: nat): State {
    State(seq(cpus, _ => BootCpu), [], map[], 0, 0)
  }

  ghost predicate IsRun(s: State, steps: seq<Step>, t: State)
    decreases |steps|
  {
    if steps == [] then s == t
    else Enabled(s, steps[0]) && IsRun(Apply(s, steps[0]), steps[1..], t)
  }

  // ---------------------------------------------------------------- the invariant

  /** The shooter has stored its request at CPU `c`. */
  predicate Stored(sh: Shooter, c: nat) {
    c != sh.cpu && sh.root != 0 && (sh.pc.Requesting? ==> c < sh.pc.next)
  }

  /** The shooter may still fence CPU `c`. */
  predicate Unfinished(sh: Shooter, c: nat) {
    match sh.pc
    case Requesting(_) => true
    case Checking(next, targets) => c in targets
    case Fencing(remaining) => c in remaining
    case Done => false
  }

  /** The CPU is on a path to user mode on which it will not flush. */
  predicate PastTheFlush(c: Cpu) {
    c.pc.Running? || (c.pc.Loaded? && c.pc.request == c.ack)
  }

  /** A CPU that still caches what the shooter must remove has a flush or a fence ahead. */
  ghost predicate Covered(c: Cpu, sh: Shooter, i: nat) {
    Stale(c, sh.root, sh.version) && Stored(sh, i) ==>
      && c.request != c.ack
      && (PastTheFlush(c) && c.pc.root == sh.root ==> Unfinished(sh, i))
  }

  /** The generations a CPU holds were stored at it before. */
  ghost predicate Seen(c: Cpu, sh: Shooter, i: nat) {
    sh.root != 0 && !Stored(sh, i) ==>
      && c.request != sh.generation && c.ack != sh.generation
      && (c.pc.Loaded? || c.pc.MustFlush? || c.pc.Flushed? ==> c.pc.request != sh.generation)
  }

  ghost predicate CpuInv(c: Cpu, s: State) {
    && c.active == c.pc.Active()
    && (!c.pc.Off? ==> c.pc.root != 0)
    && (c.pc.Flushed? ==> c.tlb == {})
    && c.request <= s.generation && c.ack <= s.generation
    && (c.pc.Loaded? || c.pc.MustFlush? || c.pc.Flushed? ==> c.pc.request <= s.generation)
    && (forall e :: e in c.tlb ==> e.version <= Version(s, e.root))
  }

  /** Time stamps: a CPU whose two generations agree flushed after the last request store. */
  ghost predicate Stamped(c: Cpu, s: State) {
    && c.requestedAt <= s.clock && c.flushedAt <= s.clock
    && (c.request == c.ack && c.request != 0 ==> c.requestedAt < c.flushedAt)
    && (c.pc.Flushed? && c.pc.request == c.request ==> c.requestedAt < c.flushedAt)
  }

  ghost predicate ShooterInv(sh: Shooter, s: State) {
    && sh.cpu < |s.cpus|
    && sh.generation <= s.generation
    && sh.version <= Version(s, sh.root)
    && (sh.root == 0 ==> sh.pc.Done?)
    && (sh.root != 0 ==> sh.generation > 0)
    && (sh.pc.Requesting? || sh.pc.Checking? ==> sh.pc.next <= |s.cpus|)
    && (sh.pc.Checking? ==> forall c :: c in sh.pc.targets ==> c < |s.cpus|)
    && (sh.pc.Fencing? ==> forall c :: c in sh.pc.remaining ==> c < |s.cpus|)
  }

  ghost predicate Inv(s: State) {
    && (forall c :: 0 <= c < |s.cpus| ==> CpuInv(s.cpus[c], s) && Stamped(s.cpus[c], s))
    && (forall i :: 0 <= i < |s.shooters| ==> ShooterInv(s.shooters[i], s))
    && (forall i, j :: 0 <= i < j < |s.shooters| && s.shooters[i].root != 0 && s.shooters[j].root != 0 ==>
          s.shooters[i].generation != s.shooters[j].generation)
    && (forall c, i :: 0 <= c < |s.cpus| && 0 <= i < |s.shooters| ==>
          Covered(s.cpus[c], s.shooters[i], c) && Seen(s.cpus[c], s.shooters[i], c))
  }

  // ---------------------------------------------------------------- every step keeps it

  /** Same time base, so the invariant of a CPU carries over. */
  ghost predicate Later(s: State, t: State) {
    && s.generation <= t.generation && s.clock <= t.clock
    && forall root: nat :: Version(s, root) <= Version(t, root)
  }

  lemma CpuInvLater(c: Cpu, s: State, t: State)
    requires CpuInv(c, s) && Stamped(c, s) && Later(s, t)
    ensures CpuInv(c, t) && Stamped(c, t)
  {
  }

  /** A step of CPU `c` alone. */
  lemma CpuStepKeeps(s: State, c: nat, cpu: Cpu)
    requires Inv(s) && c < |s.cpus|
    requires CpuInv(cpu, SetCpu(s, c, cpu)) && Stamped(cpu, SetCpu(s, c, cpu))
    requires forall i :: 0 <= i < |s.shooters| ==> Covered(cpu, s.shooters[i], c) && Seen(cpu, s.shooters[i], c)
    ensures Inv(SetCpu(s, c, cpu))
  {
    var t := SetCpu(s, c, cpu);
    forall d | 0 <= d < |t.cpus|
      ensures CpuInv(t.cpus[d], t) && Stamped(t.cpus[d], t)
    {
      if d != c {
        CpuInvLater(s.cpus[d], s, t);
      }
    }
    assert forall i :: 0 <= i < |t.shooters| ==> ShooterInv(s.shooters[i], s);
  }

  lemma CpuStepsKeep(s: State, step: Step)
    requires Inv(s) && Enabled(s, step)
    requires step.Mark? || step.LoadRequest? || step.Compare? || step.FlushAll? || step.StoreAck? || step.Clear?
              || step.Fill?
    ensures Inv(Apply(s, step))
  {
    var c := step.cpu;
    var cpu := Apply(s, step).cpus[c];
    assert CpuInv(s.cpus[c], s) && Stamped(s.cpus[c], s);
    forall i | 0 <= i < |s.shooters|
      ensures Covered(cpu, s.shooters[i], c) && Seen(cpu, s.shooters[i], c)
    {
      assert ShooterInv(s.shooters[i], s);
      assert Covered(s.cpus[c], s.shooters[i], c) && Seen(s.cpus[c], s.shooters[i], c);
    }
    CpuStepKeeps(s, c, cpu);
  }

  lemma ShootKeeps(s: State, step: Step)
    requires Inv(s) && Enabled(s, step) && (step.Shoot? || step.ChangePageTable?)
    ensures Inv(Apply(s, step))
  {
    var t := Apply(s, step);
    forall c | 0 <= c < |t.cpus|
      ensures CpuInv(t.cpus[c], t) && Stamped(t.cpus[c], t)
    {
      CpuInvLater(s.cpus[c], s, t);
    }
    forall i | 0 <= i < |t.shooters|
      ensures ShooterInv(t.shooters[i], t)
    {
      if i < |s.shooters| {
        assert ShooterInv(s.shooters[i], s);
      }
    }
    forall c, i | 0 <= c < |t.cpus| && 0 <= i < |t.shooters|
      ensures Covered(t.cpus[c], t.shooters[i], c) && Seen(t.cpus[c], t.shooters[i], c)
    {
      assert CpuInv(s.cpus[c], s);
      if i < |s.shooters| {
        assert Covered(s.cpus[c], s.shooters[i], c) && Seen(s.cpus[c], s.shooters[i], c);
      }
    }
    forall i, j | 0 <= i < j < |t.shooters| && t.shooters[i].root != 0 && t.shooters[j].root != 0
      ensures t.shooters[i].generation != t.shooters[j].generation
    {
      assert ShooterInv(s.shooters[i], s);
    }
  }

  /** A step of shooter `i` that changes at most CPU `c`. */
  lemma ShooterStepKeeps(s: State, i: nat, pc: ShootPc, c: nat, cpu: Cpu, t: State)
    requires Inv(s) && i < |s.shooters| && c < |s.cpus|
    requires t == SetPc(s, i, pc).(cpus := s.cpus[c := cpu])
    requires ShooterInv(t.shooters[i], t)
    requires CpuInv(cpu, t) && Stamped(cpu, t)
    requires forall d :: 0 <= d < |t.cpus| ==> Covered(t.cpus[d], t.shooters[i], d) && Seen(t.cpus[d], t.shooters[i], d)
    requires forall j :: 0 <= j < |s.shooters| && j != i ==>
               Covered(cpu, s.shooters[j], c) && Seen(cpu, s.shooters[j], c)
    ensures Inv(t)
  {
    forall d | 0 <= d < |t.cpus|
      ensures CpuInv(t.cpus[d], t) && Stamped(t.cpus[d], t)
    {
      if d != c {
        CpuInvLater(s.cpus[d], s, t);
      }
    }
    forall j | 0 <= j < |t.shooters|
      ensures ShooterInv(t.shooters[j], t)
    {
      assert ShooterInv(s.shooters[j], s);
    }
    forall d, j | 0 <= d < |t.cpus| && 0 <= j < |t.shooters|
      ensures Covered(t.cpus[d], t.shooters[j], d) && Seen(t.cpus[d], t.shooters[j], d)
    {
      if j != i && d != c {
        assert Covered(s.cpus[d], s.shooters[j], d) && Seen(s.cpus[d], s.shooters[j], d);
      }
    }
  }

  /** A step of shooter `i` that changes no CPU. */
  lemma QuietShooterStepKeeps(s: State, i: nat, pc: ShootPc)
    requires Inv(s) && i < |s.shooters|
    requires ShooterInv(s.shooters[i].(pc := pc), SetPc(s, i, pc))
    requires forall d :: 0 <= d < |s.cpus| ==>
               Covered(s.cpus[d], s.shooters[i].(pc := pc), d) && Seen(s.cpus[d], s.shooters[i].(pc := pc), d)
    ensures Inv(SetPc(s, i, pc))
  {
    var t := SetPc(s, i, pc);
    var c := s.shooters[i].cpu;
    assert ShooterInv(s.shooters[i], s);
    assert CpuInv(s.cpus[c], s) && Stamped(s.cpus[c], s);
    CpuInvLater(s.cpus[c], s, t);
    assert forall j :: 0 <= j < |s.shooters| && j != i ==>
             Covered(s.cpus[c], s.shooters[j], c) && Seen(s.cpus[c], s.shooters[j], c);
    assert t == SetPc(s, i, pc).(cpus := s.cpus[c := s.cpus[c]]);
    ShooterStepKeeps(s, i, pc, c, s.cpus[c], t);
  }

  lemma StoreRequestKeeps(s: State, i: nat)
    requires Inv(s) && Enabled(s, StoreRequest(i))
    ensures Inv(Apply(s, StoreRequest(i)))
  {
    var sh := s.shooters[i];
    var c := sh.pc.next;
    assert ShooterInv(sh, s);
    if c < |s.cpus| && c != sh.cpu {
      StoreRequestAtKeeps(s, i, c);
    } else {
      var pc := Apply(s, StoreRequest(i)).shooters[i].pc;
      forall d | 0 <= d < |s.cpus|
        ensures Covered(s.cpus[d], sh.(pc := pc), d) && Seen(s.cpus[d], sh.(pc := pc), d)
      {
        assert Covered(s.cpus[d], sh, d) && Seen(s.cpus[d], sh, d);
        assert d != sh.cpu ==> Other(s, sh.cpu, d);
      }
      QuietShooterStepKeeps(s, i, pc);
    }
  }

  lemma StoreRequestAtKeeps(s: State, i: nat, c: nat)
    requires Inv(s) && Enabled(s, StoreRequest(i))
    requires c == s.shooters[i].pc.next && c < |s.cpus| && c != s.shooters[i].cpu
    ensures Inv(Apply(s, StoreRequest(i)))
  {
    var t := Apply(s, StoreRequest(i));
    var sh := s.shooters[i];
    assert ShooterInv(sh, s) && CpuInv(s.cpus[c], s) && Stamped(s.cpus[c], s);
    assert Covered(s.cpus[c], sh, c) && Seen(s.cpus[c], sh, c);
    forall d | 0 <= d < |t.cpus|
      ensures Covered(t.cpus[d], t.shooters[i], d) && Seen(t.cpus[d], t.shooters[i], d)
    {
      assert Covered(s.cpus[d], sh, d) && Seen(s.cpus[d], sh, d);
    }
    forall j | 0 <= j < |s.shooters| && j != i
      ensures Covered(t.cpus[c], s.shooters[j], c) && Seen(t.cpus[c], s.shooters[j], c)
    {
      assert Covered(s.cpus[c], s.shooters[j], c) && Seen(s.cpus[c], s.shooters[j], c);
    }
    ShooterStepKeeps(s, i, t.shooters[i].pc, c, t.cpus[c], t);
  }

  /** Dropping a target with another root, and returning. */
  lemma CheckActiveKeeps(s: State, step: Step)
    requires Inv(s) && Enabled(s, step) && (step.CheckActive? || step.Return?)
    ensures Inv(Apply(s, step))
  {
    var i := step.shooter;
    var sh := s.shooters[i];
    assert ShooterInv(sh, s);
    var pc := Apply(s, step).shooters[i].pc;
    forall d | 0 <= d < |s.cpus|
      ensures Covered(s.cpus[d], sh.(pc := pc), d) && Seen(s.cpus[d], sh.(pc := pc), d)
    {
      assert Covered(s.cpus[d], sh, d) && Seen(s.cpus[d], sh, d) && CpuInv(s.cpus[d], s);
    }
    QuietShooterStepKeeps(s, i, pc);
  }

  lemma FenceKeeps(s: State, i: nat, c: nat)
    requires Inv(s) && Enabled(s, Fence(i, c))
    ensures Inv(Apply(s, Fence(i, c)))
  {
    var t := Apply(s, Fence(i, c));
    var sh := s.shooters[i];
    assert ShooterInv(sh, s) && CpuInv(s.cpus[c], s) && Stamped(s.cpus[c], s);
    forall d | 0 <= d < |t.cpus|
      ensures Covered(t.cpus[d], t.shooters[i], d) && Seen(t.cpus[d], t.shooters[i], d)
    {
      assert Covered(s.cpus[d], sh, d) && Seen(s.cpus[d], sh, d);
    }
    forall j | 0 <= j < |s.shooters| && j != i
      ensures Covered(t.cpus[c], s.shooters[j], c) && Seen(t.cpus[c], s.shooters[j], c)
    {
      assert Seen(s.cpus[c], s.shooters[j], c);
    }
    ShooterStepKeeps(s, i, t.shooters[i].pc, c, t.cpus[c], t);
  }

  lemma StepKeeps(s: State, step: Step)
    requires Inv(s) && Enabled(s, step)
    ensures Inv(Apply(s, step))
  {
    match step
    case Shoot(_, _) => ShootKeeps(s, step);
    case ChangePageTable(_) => ShootKeeps(s, step);
    case StoreRequest(i) => StoreRequestKeeps(s, i);
    case CheckActive(_) => CheckActiveKeeps(s, step);
    case Fence(i, c) => FenceKeeps(s, i, c);
    case Return(_) => CheckActiveKeeps(s, step);
    case _ => CpuStepsKeep(s, step);
  }

  lemma {:induction false} RunKeeps(s: State, steps: seq<Step>, t: State)
    requires Inv(s) && IsRun(s, steps, t)
    ensures Inv(t)
    decreases |steps|
  {
    if steps != [] {
      StepKeeps(s, steps[0]);
      RunKeeps(Apply(s, steps[0]), steps[1..], t);
    }
  }

  // ---------------------------------------------------------------- traces

  ghost predicate StepOf(trace: seq<State>, steps: seq<Step>, n: nat)
    requires |trace| == |steps| + 1 && n < |steps|
  {
    Enabled(trace[n], steps[n]) && trace[n + 1] == Apply(trace[n], steps[n])
  }

  /** The states of a run from boot, one more than its steps. */
  ghost predicate IsTrace(cpus: nat, trace: seq<State>, steps: seq<Step>) {
    && |trace| == |steps| + 1 && trace[0] == Boot(cpus)
    && forall n: nat :: n < |steps| ==> StepOf(trace, steps, n)
  }

  lemma {:induction false} TraceInv(cpus: nat, trace: seq<State>, steps: seq<Step>, n: nat)
    requires IsTrace(cpus, trace, steps) && n <= |steps|
    ensures Inv(trace[n]) && |trace[n].cpus| == cpus && trace[n].clock == n
  {
    if n > 0 {
      TraceInv(cpus, trace, steps, n - 1);
      assert StepOf(trace, steps, n - 1);
      StepKeeps(trace[n - 1], steps[n - 1]);
    }
  }

  /** The call of a shootdown stays what it was: its CPU, its root and the page table at the call. */
  lemma {:induction false} CallIsRecorded(cpus: nat, trace: seq<State>, steps: seq<Step>, k: nat, n: nat)
    requires IsTrace(cpus, trace, steps) && k < n <= |steps| && steps[k].Shoot?
    ensures |trace[k].shooters| < |trace[n].shooters|
    ensures var sh := trace[n].shooters[|trace[k].shooters|];
            sh.cpu == steps[k].cpu && sh.root == steps[k].root && sh.version == Version(trace[k], steps[k].root)
  {
    assert StepOf(trace, steps, n - 1);
    if n > k + 1 {
      CallIsRecorded(cpus, trace, steps, k, n - 1);
    }
  }

  /** The page table only moves forward. */
  lemma {:induction false} VersionsGrow(cpus: nat, trace: seq<State>, steps: seq<Step>, m: nat, n: nat, root: nat)
    requires IsTrace(cpus, trace, steps) && m <= n <= |steps|
    ensures Version(trace[m], root) <= Version(trace[n], root)
  {
    if m < n {
      VersionsGrow(cpus, trace, steps, m, n - 1, root);
      assert StepOf(trace, steps, n - 1);
    }
  }

  /** The step empties the TLB of CPU `c`. */
  predicate Flushes(step: Step, c: nat) {
    step == FlushAll(c) || (step.Fence? && step.cpu == c)
  }

  /** Without a flush a translation stays cached. */
  lemma {:induction false} StaysCached(cpus: nat, trace: seq<State>, steps: seq<Step>, m: nat, n: nat, c: nat, e: Entry)
    requires IsTrace(cpus, trace, steps) && m <= n <= |steps| && c < |trace[m].cpus| && e in trace[m].cpus[c].tlb
    requires forall g: nat :: m <= g < n ==> !Flushes(steps[g], c)
    ensures c < |trace[n].cpus| && e in trace[n].cpus[c].tlb
  {
    if m < n {
      StaysCached(cpus, trace, steps, m, n - 1, c, e);
      assert StepOf(trace, steps, n - 1);
      assert !Flushes(steps[n - 1], c);
    }
  }

  // ---------------------------------------------------------------- the main results

  /**
   Safety of the shootdown called at step `k`: whatever the interleaving, in every later state in which the call has
   returned, no other CPU that runs the address space caches a translation older than the page table at the call.
   */
  lemma ShootdownIsSafe(cpus: nat, trace: seq<State>, steps: seq<Step>, k: nat, n: nat, c: nat)
    requires IsTrace(cpus, trace, steps) && k < n <= |steps| && steps[k].Shoot?
    requires |trace[k].shooters| < |trace[n].shooters| && trace[n].shooters[|trace[k].shooters|].pc.Done?
    requires c < cpus == |trace[n].cpus| && c != steps[k].cpu && trace[n].cpus[c].pc == Running(steps[k].root)
    ensures !Stale(trace[n].cpus[c], steps[k].root, Version(trace[k], steps[k].root))
  {
    TraceInv(cpus, trace, steps, n);
    CallIsRecorded(cpus, trace, steps, k, n);
    var i := |trace[k].shooters|;
    assert CpuInv(trace[n].cpus[c], trace[n]) && Covered(trace[n].cpus[c], trace[n].shooters[i], c);
  }

  /**
   The same said of the steps alone: a translation of the root that CPU `c` filled before a change of the page table,
   which came before the call, has been flushed once the call has returned and the CPU runs the root.
   */
  lemma OldTranslationsAreFlushed(cpus: nat, trace: seq<State>, steps: seq<Step>, f: nat, p: nat, k: nat, n: nat,
                                  c: nat)
    returns (g: nat)
    requires IsTrace(cpus, trace, steps) && f < p < k < n <= |steps|
    requires steps[f] == Fill(c) && steps[k].Shoot? && steps[p] == ChangePageTable(steps[k].root)
    requires c < |trace[f].cpus| && trace[f].cpus[c].pc == Running(steps[k].root)
    requires |trace[k].shooters| < |trace[n].shooters| && trace[n].shooters[|trace[k].shooters|].pc.Done?
    requires c < cpus == |trace[n].cpus| && c != steps[k].cpu && trace[n].cpus[c].pc == Running(steps[k].root)
    ensures f < g < n && Flushes(steps[g], c)
  {
    if h: nat :| f < h < n && Flushes(steps[h], c) {
      g := h;
    } else {
      var root := steps[k].root;
      var e := Entry(root, Version(trace[f], root));
      TraceInv(cpus, trace, steps, f + 1);
      assert StepOf(trace, steps, f) && StepOf(trace, steps, p);
      StaysCached(cpus, trace, steps, f + 1, n, c, e);
      VersionsGrow(cpus, trace, steps, f, p, root);
      VersionsGrow(cpus, trace, steps, p + 1, k, root);
      ShootdownIsSafe(cpus, trace, steps, k, n, c);
      assert false;
    }
  }

  /** The time stamps are what they say: the last flush, and a store no older than the last one. */
  lemma {:induction false} StampsAreSteps(cpus: nat, trace: seq<State>, steps: seq<Step>, n: nat, c: nat)
    requires IsTrace(cpus, trace, steps) && n <= |steps| && c < cpus == |trace[n].cpus|
    ensures var at := trace[n].cpus[c].flushedAt; at <= n && (at > 0 ==> Flushes(steps[at - 1], c))
  {
    TraceInv(cpus, trace, steps, n);
    if n > 0 {
      TraceInv(cpus, trace, steps, n - 1);
      StampsAreSteps(cpus, trace, steps, n - 1, c);
      assert StepOf(trace, steps, n - 1);
    }
  }

  /** The step stores a request at CPU `c`. */
  ghost predicate StoresAt(s: State, step: Step, c: nat) {
    && step.StoreRequest? && step.shooter < |s.shooters| && s.shooters[step.shooter].pc == Requesting(c)
    && c < |s.cpus| && c != s.shooters[step.shooter].cpu
  }

  lemma {:induction false} StoreIsStamped(cpus: nat, trace: seq<State>, steps: seq<Step>, m: nat, n: nat, c: nat)
    requires IsTrace(cpus, trace, steps) && m < n <= |steps| && c < cpus == |trace[n].cpus|
    requires StoresAt(trace[m], steps[m], c)
    ensures trace[n].cpus[c].requestedAt > m && trace[n].cpus[c].request != 0
  {
    TraceInv(cpus, trace, steps, m);
    TraceInv(cpus, trace, steps, n - 1);
    assert StepOf(trace, steps, n - 1) && StepOf(trace, steps, m);
    assert ShooterInv(trace[m].shooters[steps[m].shooter], trace[m]);
    if n > m + 1 {
      StoreIsStamped(cpus, trace, steps, m, n - 1, c);
      if steps[n - 1].StoreRequest? {
        assert ShooterInv(trace[n - 1].shooters[steps[n - 1].shooter], trace[n - 1]);
      }
    }
  }

  /** The deferred flush: equal generations mean that the CPU has flushed after every request store so far. */
  lemma EqualGenerationsMeanFlushed(cpus: nat, trace: seq<State>, steps: seq<Step>, m: nat, n: nat, c: nat)
    returns (g: nat)
    requires IsTrace(cpus, trace, steps) && m < n <= |steps| && c < cpus == |trace[n].cpus|
    requires StoresAt(trace[m], steps[m], c) && trace[n].cpus[c].request == trace[n].cpus[c].ack
    ensures m < g < n && Flushes(steps[g], c)
  {
    TraceInv(cpus, trace, steps, n);
    StoreIsStamped(cpus, trace, steps, m, n, c);
    StampsAreSteps(cpus, trace, steps, n, c);
    assert Stamped(trace[n].cpus[c], trace[n]);
    g := trace[n].cpus[c].flushedAt - 1;
  }

  /** How far a shootdown is from its return: the phase, and what is left of it. */
  function Phase(pc: ShootPc): nat {
    match pc
    case Requesting(_) => 3
    case Checking(_, _) => 2
    case Fencing(_) => 1
    case Done => 0
  }

  function Left(pc: ShootPc, cpus: nat): int {
    match pc
    case Requesting(next) => cpus - next
    case Checking(next, _) => cpus - next
    case Fencing(remaining) => |remaining|
    case Done => 0
  }

  /** A shootdown waits for nobody: until it has returned it has a step of its own, and each brings it nearer. */
  lemma ShootdownAdvances(s: State, i: nat) returns (step: Step)
    requires Inv(s) && i < |s.shooters| && !s.shooters[i].pc.Done?
    ensures (step.StoreRequest? || step.CheckActive? || step.Fence? || step.Return?) && step.shooter == i
    ensures Enabled(s, step)
    ensures var before, after := s.shooters[i].pc, Apply(s, step).shooters[i].pc;
            || Phase(after) < Phase(before)
            || (Phase(after) == Phase(before) && 0 <= Left(after, |s.cpus|) < Left(before, |s.cpus|))
  {
    var pc := s.shooters[i].pc;
    assert ShooterInv(s.shooters[i], s);
    match pc {
      case Requesting(_) => step := StoreRequest(i);
      case Checking(_, _) => step := CheckActive(i);
      case Fencing(remaining) =>
        if remaining == {} {
          step := Return(i);
        } else {
          var c :| c in remaining;
          step := Fence(i, c);
          assert |remaining - {c}| == |remaining| - 1;
        }
    }
  }
}

/**
 The LoongArch shootdown: under a lock, a request and an interrupt for the CPUs that are
 active in the root, then a wait for each of them.
 */
module LoongarchShootdown {
  import opened TlbCpus

  /** The interrupt handler flushes, then loads the request, then stores the acknowledgement. */
  datatype HandlerPc = NoInterrupt | HandlerEntered | HandlerFlushed | HandlerLoaded(request: nat)

  datatype LaCpu = LaCpu(core: Cpu, handler: HandlerPc, online: bool)

  /** The unlocked scan, the lock, the scan under the lock, the sending loop, the waiting loop. */
  datatype ShootPc =
    | PreScan(next: nat, found: set<nat>)
    | WaitLock
    | Scan(next: nat, targets: set<nat>)
    | Sending(next: nat, targets: set<nat>)
    | WaitAck(next: nat, targets: set<nat>)
    | WaitRoot(next: nat, targets: set<nat>)
    | WaitOnline(next: nat, targets: set<nat>)
    | Done

  /** `generation` is 0 until the shooter has drawn one. */
  datatype Shooter = Shooter(cpu: nat, root: nat, version: nat, generation: nat, pc: ShootPc)

  datatype Lock = Free | HeldBy(shooter: nat)

  datatype State = State(cpus: seq<LaCpu>, shooters: seq<Shooter>, versions: map<nat, nat>,
                         generation: nat, lock: Lock)

  datatype Step =
    | Mark(cpu: nat, root: nat)
    | LoadRequest(cpu: nat)
    | Compare(cpu: nat)
    | FlushAll(cpu: nat)
    | StoreAck(cpu: nat)
    | Activate(cpu: nat)
    | Clear(cpu: nat)
    | Fill(cpu: nat)
    | Interrupt(cpu: nat)
    | HandlerFlush(cpu: nat)
    | HandlerLoad(cpu: nat)
    | HandlerAck(cpu: nat)
    | GoOffline(cpu: nat)
    | ChangePageTable(root: nat)
    | Shoot(cpu: nat, root: nat)
    | ScanOne(shooter: nat)
    | TakeLock(shooter: nat)
    | SendOne(shooter: nat)
    | LookAtAck(shooter: nat)
    | LookAtRoot(shooter: nat)
    | LookAtOnline(shooter: nat)

  predicate CpuStep(step: Step) {
    step.Mark? || step.LoadRequest? || step.Compare? || step.FlushAll? || step.StoreAck? || step.Activate?
    || step.Clear? || step.Fill? || step.Interrupt? || step.HandlerFlush? || step.HandlerLoad? || step.HandlerAck?
    || step.GoOffline?
  }

  function Version(s: State, root: nat): nat {
    if root in s.versions then s.versions[root] else 0
  }

  /** CPU `c` is online and not inside the interrupt handler. */
  predicate Uninterrupted(s: State, c: nat) {
    c < |s.cpus| && s.cpus[c].online && s.cpus[c].handler.NoInterrupt?
  }

  predicate InHandler(s: State, c: nat) {
    c < |s.cpus| && s.cpus[c].online && !s.cpus[c].handler.NoInterrupt?
  }

  predicate Enabled(s: State, step: Step) {
    match step
    case Mark(c, root) => Uninterrupted(s, c) && root != 0 && (s.cpus[c].core.pc.Off? || s.cpus[c].core.pc.Running?)
    case LoadRequest(c) => Uninterrupted(s, c) && s.cpus[c].core.pc.Published?
    case Compare(c) => Uninterrupted(s, c) && s.cpus[c].core.pc.Loaded?
    case FlushAll(c) => Uninterrupted(s, c) && s.cpus[c].core.pc.MustFlush?
    case StoreAck(c) => Uninterrupted(s, c) && s.cpus[c].core.pc.Flushed?
    case Activate(c) => Uninterrupted(s, c) && s.cpus[c].core.pc.Activating?
    case Clear(c) => Uninterrupted(s, c) && s.cpus[c].core.pc.Running?
    case Fill(c) => Uninterrupted(s, c) && s.cpus[c].core.pc.Running?
    case Interrupt(c) => Uninterrupted(s, c)
    case HandlerFlush(c) => InHandler(s, c) && s.cpus[c].handler.HandlerEntered?
    case HandlerLoad(c) => InHandler(s, c) && s.cpus[c].handler.HandlerFlushed?
    case HandlerAck(c) => InHandler(s, c) && s.cpus[c].handler.HandlerLoaded?
    case GoOffline(c) => c < |s.cpus|
    case ChangePageTable(_) => true
    case Shoot(c, root) => c < |s.cpus|
    case ScanOne(i) => i < |s.shooters| && (s.shooters[i].pc.PreScan? || s.shooters[i].pc.Scan?)
    case TakeLock(i) => i < |s.shooters| && s.shooters[i].pc.WaitLock? && s.lock.Free?
    case SendOne(i) => i < |s.shooters| && s.shooters[i].pc.Sending?
    case LookAtAck(i) => i < |s.shooters| && s.shooters[i].pc.WaitAck?
    case LookAtRoot(i) => i < |s.shooters| && s.shooters[i].pc.WaitRoot? && s.shooters[i].pc.next < |s.cpus|
    case LookAtOnline(i) => i < |s.shooters| && s.shooters[i].pc.WaitOnline? && s.shooters[i].pc.next < |s.cpus|
  }

  /** What a step of a CPU does to it. */
  function CpuAfter(s: State, step: Step): LaCpu
    requires CpuStep(step) && Enabled(s, step)
  {
    var c := s.cpus[step.cpu];
    var pc := c.core.pc;
    match step
    case Mark(_, root) => c.(core := c.core.(active := root, pc := Published(root)))
    case LoadRequest(_) => c.(core := c.core.(pc := Loaded(pc.root, c.core.request)))
    case Compare(_) =>
      c.(core := c.core.(pc := if c.core.ack != pc.request then MustFlush(pc.root, pc.request)
          else Activating(pc.root)))
    case FlushAll(_) => c.(core := c.core.(tlb := {}, pc := Flushed(pc.root, pc.request)))
    case StoreAck(_) => c.(core := c.core.(ack := pc.request, pc := Activating(pc.root)))
    case Activate(_) => c.(core := c.core.(tlb := {}, pc := Running(pc.root)))
    case Clear(_) => c.(core := c.core.(active := 0, pc := Off))
    case Fill(_) => c.(core := c.core.(tlb := c.core.tlb + {Entry(pc.root, Version(s, pc.root))}))
    case Interrupt(_) => c.(handler := HandlerEntered)
    case HandlerFlush(_) => c.(core := c.core.(tlb := {}), handler := HandlerFlushed)
    case HandlerLoad(_) => c.(handler := HandlerLoaded(c.core.request))
    case HandlerAck(_) => c.(core := c.core.(ack := c.handler.request), handler := NoInterrupt)
    case GoOffline(_) => c.(online := false)
  }

  function SetPc(s: State, i: nat, pc: ShootPc): State
    requires i < |s.shooters|
  {
    s.(shooters := s.shooters[i := s.shooters[i].(pc := pc)])
  }

  /** CPU `c` is kept by a scan of shooter `sh`. */
  predicate Kept(s: State, sh: Shooter, c: nat)
    requires c < |s.cpus|
  {
    c != sh.cpu && s.cpus[c].online && s.cpus[c].core.active == sh.root
  }

  function Apply(s: State, step: Step): State
    requires Enabled(s, step)
  {
    match step
    case ChangePageTable(root) => s.(versions := s.versions[root := Version(s, root) + 1])
    case Shoot(c, root) =>
      var pc := if root == 0 then Done else PreScan(0, {});
      s.(shooters := s.shooters + [Shooter(c, root, Version(s, root), 0, pc)])
    case ScanOne(i) =>
      var sh := s.shooters[i];
      var c := sh.pc.next;
      if sh.pc.PreScan? then
        if c < |s.cpus| then SetPc(s, i, PreScan(c + 1, if Kept(s, sh, c) then sh.pc.found + {c} else sh.pc.found))
        else SetPc(s, i, if sh.pc.found == {} then Done else WaitLock)
      else
        if c < |s.cpus| then SetPc(s, i, Scan(c + 1, if Kept(s, sh, c) then sh.pc.targets + {c} else sh.pc.targets))
        else if sh.pc.targets == {} then SetPc(s, i, Done).(lock := Free)
        else
          s.(shooters := s.shooters[i := sh.(generation := s.generation + 1, pc := Sending(0, sh.pc.targets))],
             generation := s.generation + 1)
    case TakeLock(i) => SetPc(s, i, Scan(0, {})).(lock := HeldBy(i))
    case SendOne(i) =>
      var sh := s.shooters[i];
      var c := sh.pc.next;
      if c >= |s.cpus| then SetPc(s, i, WaitAck(0, sh.pc.targets))
      else if c !in sh.pc.targets then SetPc(s, i, Sending(c + 1, sh.pc.targets))
      else
        var t := SetPc(s, i, Sending(c + 1, sh.pc.targets));
        t.(cpus := t.cpus[c := t.cpus[c].(core := t.cpus[c].core.(request := sh.generation))])
    case LookAtAck(i) =>
      var sh := s.shooters[i];
      var c := sh.pc.next;
      if c >= |s.cpus| then SetPc(s, i, Done).(lock := Free)
      else if c !in sh.pc.targets || s.cpus[c].core.ack == sh.generation then SetPc(s, i, WaitAck(c + 1, sh.pc.targets))
      else SetPc(s, i, WaitRoot(c, sh.pc.targets))
    case LookAtRoot(i) =>
      var sh := s.shooters[i];
      if s.cpus[sh.pc.next].core.active != sh.root then SetPc(s, i, WaitAck(sh.pc.next + 1, sh.pc.targets))
      else SetPc(s, i, WaitOnline(sh.pc.next, sh.pc.targets))
    case LookAtOnline(i) =>
      var sh := s.shooters[i];
      if !s.cpus[sh.pc.next].online then SetPc(s, i, WaitAck(sh.pc.next + 1, sh.pc.targets))
      else SetPc(s, i, WaitAck(sh.pc.next, sh.pc.targets))
    case _ => s.(cpus := s.cpus[step.cpu := CpuAfter(s, step)])
  }

  function Boot(cpus: nat): State {
    State(seq(cpus, _ => LaCpu(BootCpu, NoInterrupt, true)), [], map[], 0, Free)
  }

  ghost predicate IsRun(s: State, steps: seq<Step>, t: State)
    decreases |steps|
  {
    if steps == [] then s == t
    else Enabled(s, steps[0]) && IsRun(Apply(s, steps[0]), steps[1..], t)
  }

  // ---------------------------------------------------------------- the invariant

  /** The shooter has yet to look at CPU `c`, or it waits for it. */
  predicate Pending(sh: Shooter, c: nat) {
    match sh.pc
    case PreScan(next, found) => c >= next || c in found
    case WaitLock => true
    case Scan(next, targets) => c >= next || c in targets
    case Sending(_, targets) => c in targets
    case WaitAck(next, targets) => c in targets && c >= next
    case WaitRoot(next, targets) => c in targets && c >= next
    case WaitOnline(next, targets) => c in targets && c >= next
    case Done => false
  }

  /** The shooter has stored its request at CPU `c` and waits or will wait for it. */
  predicate Waiting(sh: Shooter, c: nat) {
    match sh.pc
    case Sending(next, targets) => c in targets && c < next
    case WaitAck(next, targets) => c in targets
    case WaitRoot(next, targets) => c in targets
    case WaitOnline(next, targets) => c in targets
    case _ => false
  }

  ghost predicate CpuInv(c: LaCpu, s: State) {
    && c.core.active == c.core.pc.Active()
    && (!c.core.pc.Off? ==> c.core.pc.root != 0)
    && (c.core.pc.Flushed? || c.handler.HandlerFlushed? || c.handler.HandlerLoaded? ==> c.core.tlb == {})
    && c.core.ack <= s.generation && c.core.request <= s.generation
    && (c.handler.HandlerLoaded? ==> c.handler.request <= s.generation)
    && (c.core.pc.Loaded? || c.core.pc.MustFlush? || c.core.pc.Flushed? ==> c.core.pc.request <= s.generation)
  }

  ghost predicate ShooterInv(i: nat, sh: Shooter, s: State) {
    && sh.cpu < |s.cpus| && sh.generation <= s.generation && sh.version <= Version(s, sh.root)
    && (sh.root == 0 ==> sh.pc.Done?)
    && (sh.pc.Scan? || sh.pc.Sending? || sh.pc.WaitAck? || sh.pc.WaitRoot? || sh.pc.WaitOnline? ==> s.lock == HeldBy(i))
    && (sh.pc.Sending? || sh.pc.WaitAck? || sh.pc.WaitRoot? || sh.pc.WaitOnline? ==> sh.generation > 0)
  }

  /** What the two sides know of each other. */
  ghost predicate PairInv(c: LaCpu, sh: Shooter, i: nat) {
    && (c.online && c.core.pc == Running(sh.root) && i != sh.cpu && Stale(c.core, sh.root, sh.version)
        ==> Pending(sh, i))
    && (sh.generation > 0 && c.core.ack == sh.generation ==> !Stale(c.core, sh.root, sh.version))
    && (Waiting(sh, i) ==> c.core.request == sh.generation)
  }

  ghost predicate Inv(s: State) {
    && (forall c :: 0 <= c < |s.cpus| ==> CpuInv(s.cpus[c], s))
    && (forall i :: 0 <= i < |s.shooters| ==> ShooterInv(i, s.shooters[i], s))
    && (forall c, i :: 0 <= c < |s.cpus| && 0 <= i < |s.shooters| ==> PairInv(s.cpus[c], s.shooters[i], c))
  }

  lemma CpuStepKeeps(s: State, step: Step)
    requires Inv(s) && Enabled(s, step) && CpuStep(step)
    ensures Inv(Apply(s, step))
  {
    var t := Apply(s, step);
    var c := step.cpu;
    assert CpuInv(s.cpus[c], s);
    forall i | 0 <= i < |t.shooters|
      ensures PairInv(t.cpus[c], t.shooters[i], c) && ShooterInv(i, t.shooters[i], t)
    {
      assert ShooterInv(i, s.shooters[i], s) && PairInv(s.cpus[c], s.shooters[i], c);
    }
    forall d, i | 0 <= d < |t.cpus| && 0 <= i < |t.shooters|
      ensures PairInv(t.cpus[d], t.shooters[i], d)
    {
      if d != c {
        assert PairInv(s.cpus[d], s.shooters[i], d);
      }
    }
    assert CpuInv(t.cpus[c], t);
    assert forall d :: 0 <= d < |t.cpus| && d != c ==> CpuInv(s.cpus[d], s);
  }

  lemma BeginKeeps(s: State, step: Step)
    requires Inv(s) && Enabled(s, step) && (step.Shoot? || step.ChangePageTable?)
    ensures Inv(Apply(s, step))
  {
    var t := Apply(s, step);
    forall c | 0 <= c < |t.cpus|
      ensures CpuInv(t.cpus[c], t)
    {
      assert CpuInv(s.cpus[c], s);
    }
    forall i | 0 <= i < |t.shooters|
      ensures ShooterInv(i, t.shooters[i], t)
    {
      if i < |s.shooters| {
        assert ShooterInv(i, s.shooters[i], s);
      }
    }
    forall c, i | 0 <= c < |t.cpus| && 0 <= i < |t.shooters|
      ensures PairInv(t.cpus[c], t.shooters[i], c)
    {
      assert CpuInv(s.cpus[c], s);
      if i < |s.shooters| {
        assert PairInv(s.cpus[c], s.shooters[i], c);
      }
    }
  }

  /** A shooter step: the stepping shooter's own facts are enough, provided the others keep their lock. */
  lemma ShooterStepKeeps(s: State, i: nat, t: State)
    requires Inv(s) && i < |s.shooters| && |t.cpus| == |s.cpus| && |t.shooters| == |s.shooters|
    requires t.versions == s.versions && t.generation >= s.generation
    requires forall j :: 0 <= j < |s.shooters| && j != i ==> t.shooters[j] == s.shooters[j]
    requires t.lock == s.lock || s.lock == HeldBy(i) || s.lock.Free?
    requires ShooterInv(i, t.shooters[i], t)
    requires forall c :: 0 <= c < |t.cpus| ==>
               && t.cpus[c] == s.cpus[c].(core := s.cpus[c].core.(request := t.cpus[c].core.request))
               && (t.cpus[c].core.request == s.cpus[c].core.request
                   || (s.lock == HeldBy(i) && t.cpus[c].core.request == s.shooters[i].generation))
               && PairInv(t.cpus[c], t.shooters[i], c)
    ensures Inv(t)
  {
    assert ShooterInv(i, s.shooters[i], s);
    forall c | 0 <= c < |t.cpus|
      ensures CpuInv(t.cpus[c], t)
    {
      assert CpuInv(s.cpus[c], s);
    }
    forall j | 0 <= j < |t.shooters|
      ensures ShooterInv(j, t.shooters[j], t)
    {
      assert ShooterInv(j, s.shooters[j], s);
    }
    forall c, j | 0 <= c < |t.cpus| && 0 <= j < |t.shooters|
      ensures PairInv(t.cpus[c], t.shooters[j], c)
    {
      if j != i {
        assert PairInv(s.cpus[c], s.shooters[j], c) && ShooterInv(j, s.shooters[j], s);
      }
    }
  }

  lemma ScanKeeps(s: State, i: nat)
    requires Inv(s) && Enabled(s, ScanOne(i))
    ensures Inv(Apply(s, ScanOne(i)))
  {
    var t := Apply(s, ScanOne(i));
    assert ShooterInv(i, s.shooters[i], s);
    forall c | 0 <= c < |t.cpus|
      ensures PairInv(t.cpus[c], t.shooters[i], c)
    {
      assert PairInv(s.cpus[c], s.shooters[i], c) && CpuInv(s.cpus[c], s);
    }
    ShooterStepKeeps(s, i, t);
  }

  lemma TakeLockKeeps(s: State, i: nat)
    requires Inv(s) && Enabled(s, TakeLock(i))
    ensures Inv(Apply(s, TakeLock(i)))
  {
    var t := Apply(s, TakeLock(i));
    assert ShooterInv(i, s.shooters[i], s);
    forall c | 0 <= c < |t.cpus|
      ensures PairInv(t.cpus[c], t.shooters[i], c)
    {
      assert PairInv(s.cpus[c], s.shooters[i], c) && CpuInv(s.cpus[c], s);
    }
    ShooterStepKeeps(s, i, t);
  }

  lemma SendKeeps(s: State, i: nat)
    requires Inv(s) && Enabled(s, SendOne(i))
    ensures Inv(Apply(s, SendOne(i)))
  {
    var t := Apply(s, SendOne(i));
    assert ShooterInv(i, s.shooters[i], s);
    forall c | 0 <= c < |t.cpus|
      ensures PairInv(t.cpus[c], t.shooters[i], c)
    {
      assert PairInv(s.cpus[c], s.shooters[i], c);
    }
    ShooterStepKeeps(s, i, t);
  }

  lemma LookAtAckKeeps(s: State, i: nat)
    requires Inv(s) && Enabled(s, LookAtAck(i))
    ensures Inv(Apply(s, LookAtAck(i)))
  {
    var t := Apply(s, LookAtAck(i));
    assert ShooterInv(i, s.shooters[i], s);
    forall c | 0 <= c < |t.cpus|
      ensures PairInv(t.cpus[c], t.shooters[i], c)
    {
      assert PairInv(s.cpus[c], s.shooters[i], c);
    }
    ShooterStepKeeps(s, i, t);
  }

  lemma LookAgainKeeps(s: State, step: Step)
    requires Inv(s) && Enabled(s, step) && (step.LookAtRoot? || step.LookAtOnline?)
    ensures Inv(Apply(s, step))
  {
    var t := Apply(s, step);
    var i := step.shooter;
    assert ShooterInv(i, s.shooters[i], s);
    forall c | 0 <= c < |t.cpus|
      ensures PairInv(t.cpus[c], t.shooters[i], c)
    {
      assert PairInv(s.cpus[c], s.shooters[i], c) && CpuInv(s.cpus[c], s);
    }
    ShooterStepKeeps(s, i, t);
  }

  lemma StepKeeps(s: State, step: Step)
    requires Inv(s) && Enabled(s, step)
    ensures Inv(Apply(s, step))
  {
    match step
    case ChangePageTable(_) => BeginKeeps(s, step);
    case Shoot(_, _) => BeginKeeps(s, step);
    case ScanOne(i) => ScanKeeps(s, i);
    case TakeLock(i) => TakeLockKeeps(s, i);
    case SendOne(i) => SendKeeps(s, i);
    case LookAtAck(i) => LookAtAckKeeps(s, i);
    case LookAtRoot(_) => LookAgainKeeps(s, step);
    case LookAtOnline(_) => LookAgainKeeps(s, step);
    case _ => CpuStepKeeps(s, step);
  }

  lemma {:induction false} RunKeeps(s: State, steps: seq<Step>, t: State)
    requires Inv(s) && IsRun(s, steps, t)
    ensures Inv(t)
    decreases |steps|
  {
    if steps != [] {
      StepKeeps(s, steps[0]);
      RunKeeps(Apply(s, steps[0]), steps[1..], t);
    }
  }

  // ---------------------------------------------------------------- traces

  ghost predicate StepOf(trace: seq<State>, steps: seq<Step>, n: nat)
    requires |trace| == |steps| + 1 && n < |steps|
  {
    Enabled(trace[n], steps[n]) && trace[n + 1] == Apply(trace[n], steps[n])
  }

  /** The states of a run from boot, one more than its steps. */
  ghost predicate IsTrace(cpus: nat, trace: seq<State>, steps: seq<Step>) {
    && |trace| == |steps| + 1 && trace[0] == Boot(cpus)
    && forall n: nat :: n < |steps| ==> StepOf(trace, steps, n)
  }

  lemma {:induction false} TraceInv(cpus: nat, trace: seq<State>, steps: seq<Step>, n: nat)
    requires IsTrace(cpus, trace, steps) && n <= |steps|
    ensures Inv(trace[n]) && |trace[n].cpus| == cpus
  {
    if n > 0 {
      TraceInv(cpus, trace, steps, n - 1);
      assert StepOf(trace, steps, n - 1);
      StepKeeps(trace[n - 1], steps[n - 1]);
    }
  }

  /** The call of a shootdown stays what it was: its CPU, its root and the page table at the call. */
  lemma {:induction false} CallIsRecorded(cpus: nat, trace: seq<State>, steps: seq<Step>, k: nat, n: nat)
    requires IsTrace(cpus, trace, steps) && k < n <= |steps| && steps[k].Shoot?
    ensures |trace[k].shooters| < |trace[n].shooters|
    ensures var sh := trace[n].shooters[|trace[k].shooters|];
            sh.cpu == steps[k].cpu && sh.root == steps[k].root && sh.version == Version(trace[k], steps[k].root)
  {
    assert StepOf(trace, steps, n - 1);
    if n > k + 1 {
      CallIsRecorded(cpus, trace, steps, k, n - 1);
    }
  }

  /** The page table only moves forward. */
  lemma {:induction false} VersionsGrow(cpus: nat, trace: seq<State>, steps: seq<Step>, m: nat, n: nat, root: nat)
    requires IsTrace(cpus, trace, steps) && m <= n <= |steps|
    ensures Version(trace[m], root) <= Version(trace[n], root)
  {
    if m < n {
      VersionsGrow(cpus, trace, steps, m, n - 1, root);
      assert StepOf(trace, steps, n - 1);
    }
  }

  /** The step empties the TLB of CPU `c`. */
  predicate Flushes(step: Step, c: nat) {
    step == FlushAll(c) || step == Activate(c) || step == HandlerFlush(c)
  }

  /** Without a flush a translation stays cached. */
  lemma {:induction false} StaysCached(cpus: nat, trace: seq<State>, steps: seq<Step>, m: nat, n: nat, c: nat, e: Entry)
    requires IsTrace(cpus, trace, steps) && m <= n <= |steps| && c < |trace[m].cpus| && e in trace[m].cpus[c].core.tlb
    requires forall g: nat :: m <= g < n ==> !Flushes(steps[g], c)
    ensures c < |trace[n].cpus| && e in trace[n].cpus[c].core.tlb
  {
    if m < n {
      StaysCached(cpus, trace, steps, m, n - 1, c, e);
      assert StepOf(trace, steps, n - 1);
      assert !Flushes(steps[n - 1], c);
    }
  }

  // ---------------------------------------------------------------- the main results

  /**
   Safety of the shootdown called at step `k`: in every later state in which the call has returned, no other online CPU
   that runs the root caches a translation older than the page table at the call.
   */
  lemma ShootdownIsSafe(cpus: nat, trace: seq<State>, steps: seq<Step>, k: nat, n: nat, c: nat)
    requires IsTrace(cpus, trace, steps) && k < n <= |steps| && steps[k].Shoot?
    requires |trace[k].shooters| < |trace[n].shooters| && trace[n].shooters[|trace[k].shooters|].pc.Done?
    requires c < cpus == |trace[n].cpus| && c != steps[k].cpu && trace[n].cpus[c].online
    requires trace[n].cpus[c].core.pc == Running(steps[k].root)
    ensures !Stale(trace[n].cpus[c].core, steps[k].root, Version(trace[k], steps[k].root))
  {
    TraceInv(cpus, trace, steps, n);
    CallIsRecorded(cpus, trace, steps, k, n);
    assert PairInv(trace[n].cpus[c], trace[n].shooters[|trace[k].shooters|], c);
  }

  /**
   The same said of the steps alone: a translation of the root that CPU `c` filled before a change of the page table,
   which came before the call, has been flushed once the call has returned and the CPU runs the root.
   */
  lemma OldTranslationsAreFlushed(cpus: nat, trace: seq<State>, steps: seq<Step>, f: nat, p: nat, k: nat, n: nat,
                                  c: nat)
    returns (g: nat)
    requires IsTrace(cpus, trace, steps) && f < p < k < n <= |steps|
    requires steps[f] == Fill(c) && steps[k].Shoot? && steps[p] == ChangePageTable(steps[k].root)
    requires c < |trace[f].cpus| && trace[f].cpus[c].core.pc == Running(steps[k].root)
    requires |trace[k].shooters| < |trace[n].shooters| && trace[n].shooters[|trace[k].shooters|].pc.Done?
    requires c < cpus == |trace[n].cpus| && c != steps[k].cpu && trace[n].cpus[c].online
    requires trace[n].cpus[c].core.pc == Running(steps[k].root)
    ensures f < g < n && Flushes(steps[g], c)
  {
    if h: nat :| f < h < n && Flushes(steps[h], c) {
      g := h;
    } else {
      var root := steps[k].root;
      var e := Entry(root, Version(trace[f], root));
      TraceInv(cpus, trace, steps, f + 1);
      assert StepOf(trace, steps, f) && StepOf(trace, steps, p);
      StaysCached(cpus, trace, steps, f + 1, n, c, e);
      VersionsGrow(cpus, trace, steps, f, p, root);
      VersionsGrow(cpus, trace, steps, p + 1, k, root);
      ShootdownIsSafe(cpus, trace, steps, k, n, c);
      assert false;
    }
  }

  /** The step ends the wait of shooter `i` for its target `c`. */
  predicate EndsWait(s: State, step: Step, i: nat, c: nat)
    requires Enabled(s, step)
  {
    && (step == LookAtAck(i) || step == LookAtRoot(i) || step == LookAtOnline(i))
    && c < |s.cpus| && s.shooters[i].pc.next == c && c in s.shooters[i].pc.targets
    && Apply(s, step).shooters[i].pc == WaitAck(c + 1, s.shooters[i].pc.targets)
  }

  /**
   When the wait of the call of step `k` for a target ends, the target caches nothing of the root older than the call,
   or it is offline, or it has left the root with its request unequal to its acknowledgement.
   */
  lemma WaitEndsSafely(cpus: nat, trace: seq<State>, steps: seq<Step>, k: nat, n: nat, c: nat)
    requires IsTrace(cpus, trace, steps) && k < n < |steps| && steps[k].Shoot? && Enabled(trace[n], steps[n])
    requires c < cpus && EndsWait(trace[n], steps[n], |trace[k].shooters|, c)
    ensures var cpu, root := trace[n].cpus[c], steps[k].root;
            || !Stale(cpu.core, root, Version(trace[k], root))
            || !cpu.online
            || (cpu.core.active != root && cpu.core.request != cpu.core.ack)
  {
    TraceInv(cpus, trace, steps, n);
    CallIsRecorded(cpus, trace, steps, k, n);
    var i := |trace[k].shooters|;
    assert PairInv(trace[n].cpus[c], trace[n].shooters[i], c) && ShooterInv(i, trace[n].shooters[i], trace[n]);
  }
}
