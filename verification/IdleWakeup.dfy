/**
 The idle protocol: a CPU publishes its idle bit, looks at the ready queue and sleeps; a
 publisher enqueues a task, claims the idle bit of one eligible CPU and interrupts it.
 */
module IdleWakeup {
  import opened Common

  /**
   `Running` a task; `Looking` for one; `Idling` after finding none; `Prepared` after `prepare_idle`; `Armed` after the
   second look found nothing, with interrupts enabled and the wait instruction still ahead; `Asleep` in the wait
   instruction; `Woken` on the way to `finish_idle`.
   */
  datatype CpuPc = Running | Looking | Idling | Prepared | Armed | Asleep | Woken

  datatype Cpu = Cpu(pc: CpuPc, ipi: bool)

  /**
   The publisher in `notify_runnable_for`: about to load the mask; holding a loaded mask; having
   claimed a bit; returned, with the CPU it interrupted if any.
   */
  datatype NotifyPc = Trying | Loaded(mask: set<nat>) | Claimed(cpu: nat) | Returned(claim: Option<nat>)

  datatype Task = Task(publisher: nat, eligible: set<nat>, notify: NotifyPc, waiting: bool) {
    /** `eligible_mask & online_cpu_mask() & !(1 << current)` with every CPU online. */
    function Allowed(): set<nat> { eligible - {publisher} }

    predicate Decided() { notify.Claimed? || notify.Returned? }

    /** The CPU claimed for the task. */
    function Claim(): Option<nat> {
      match notify
      case Claimed(c) => Some(c)
      case Returned(claim) => claim
      case _ => None
    }
  }

  datatype State = State(cpus: seq<Cpu>, idle: set<nat>, tasks: seq<Task>)

  datatype Step =
    | Publish(cpu: nat, eligible: set<nat>)
    | LoadMask(task: nat)
    | CompareExchange(task: nat)
    | SpuriousFailure(task: nat)
    | SendIpi(task: nat)
    | Dispatch(cpu: nat, task: nat)
    | Yield(cpu: nat)
    | FindNothing(cpu: nat)
    | PrepareIdle(cpu: nat)
    | SecondLook(cpu: nat)
    | Wait(cpu: nat)
    | WakeUp(cpu: nat)
    | FinishIdle(cpu: nat)
    | TakeIpi(cpu: nat)

  ghost predicate Runnable(s: State, c: nat, t: nat) {
    t < |s.tasks| && s.tasks[t].waiting && c in s.tasks[t].eligible
  }

  /** `has_task`: some waiting task may run on the CPU. */
  ghost predicate HasTask(s: State, c: nat) {
    exists t: nat :: Runnable(s, c, t)
  }

  /** The CPU is not in the middle of a notification of its own. */
  ghost predicate NotNotifying(s: State, c: nat) {
    forall t :: 0 <= t < |s.tasks| && s.tasks[t].publisher == c ==> s.tasks[t].notify.Returned?
  }

  /** Where code that publishes can be executed: by a task, by the idle loop, or by a timer interrupt. */
  predicate MayPublish(pc: CpuPc) {
    pc.Running? || pc.Looking? || pc.Armed? || pc.Woken?
  }

  ghost predicate Enabled(s: State, step: Step) {
    match step
    case Publish(c, eligible) =>
      c < |s.cpus| && MayPublish(s.cpus[c].pc) && NotNotifying(s, c) && forall d :: d in eligible ==> d < |s.cpus|
    case LoadMask(t) => t < |s.tasks| && s.tasks[t].notify.Trying?
    case CompareExchange(t) => t < |s.tasks| && s.tasks[t].notify.Loaded?
    case SpuriousFailure(t) => t < |s.tasks| && s.tasks[t].notify.Loaded?
    case SendIpi(t) => t < |s.tasks| && s.tasks[t].notify.Claimed? && s.tasks[t].notify.cpu < |s.cpus|
    case Dispatch(c, t) => c < |s.cpus| && s.cpus[c].pc.Looking? && NotNotifying(s, c) && Runnable(s, c, t)
    case Yield(c) => c < |s.cpus| && s.cpus[c].pc.Running? && NotNotifying(s, c)
    case FindNothing(c) => c < |s.cpus| && s.cpus[c].pc.Looking? && NotNotifying(s, c) && !HasTask(s, c)
    case PrepareIdle(c) => c < |s.cpus| && s.cpus[c].pc.Idling?
    case SecondLook(c) => c < |s.cpus| && s.cpus[c].pc.Prepared?
    case Wait(c) => c < |s.cpus| && s.cpus[c].pc.Armed? && NotNotifying(s, c)
    case WakeUp(c) => c < |s.cpus| && s.cpus[c].pc.Asleep?
    case FinishIdle(c) => c < |s.cpus| && s.cpus[c].pc.Woken? && NotNotifying(s, c)
    case TakeIpi(c) => c < |s.cpus| && s.cpus[c].ipi && MayPublish(s.cpus[c].pc)
  }

  ghost function SetPc(s: State, c: nat, pc: CpuPc): State
    requires c < |s.cpus|
  {
    s.(cpus := s.cpus[c := s.cpus[c].(pc := pc)])
  }

  ghost function SetNotify(s: State, t: nat, n: NotifyPc): State
    requires t < |s.tasks|
  {
    s.(tasks := s.tasks[t := s.tasks[t].(notify := n)])
  }

  ghost function Apply(s: State, step: Step): State
    requires Enabled(s, step)
  {
    match step
    case Publish(c, eligible) => s.(tasks := s.tasks + [Task(c, eligible, Trying, true)])
    case LoadMask(t) =>
      if s.idle * s.tasks[t].Allowed() == {} then SetNotify(s, t, Returned(None))
      else SetNotify(s, t, Loaded(s.idle))
    case CompareExchange(t) =>
      var mask := s.tasks[t].notify.mask;
      if s.idle == mask && mask * s.tasks[t].Allowed() != {} then
        var c := Least(mask * s.tasks[t].Allowed());
        SetNotify(s, t, Claimed(c)).(idle := s.idle - {c})
      else SetNotify(s, t, Trying)
    case SpuriousFailure(t) => SetNotify(s, t, Trying)
    case SendIpi(t) =>
      var c := s.tasks[t].notify.cpu;
      SetNotify(s, t, Returned(Some(c))).(cpus := s.cpus[c := s.cpus[c].(ipi := true)])
    case Dispatch(c, t) => SetPc(s, c, Running).(tasks := s.tasks[t := s.tasks[t].(waiting := false)])
    case Yield(c) => SetPc(s, c, Looking)
    case FindNothing(c) => SetPc(s, c, Idling)
    case PrepareIdle(c) => SetPc(s, c, Prepared).(idle := s.idle + {c})
    case SecondLook(c) => SetPc(s, c, if HasTask(s, c) then Woken else Armed)
    case Wait(c) => SetPc(s, c, Asleep)
    case WakeUp(c) => s.(cpus := s.cpus[c := Cpu(Woken, false)])
    case FinishIdle(c) => SetPc(s, c, Looking).(idle := s.idle - {c})
    case TakeIpi(c) => s.(cpus := s.cpus[c := s.cpus[c].(ipi := false)])
  }

  /** CPU 0 runs, the others look for work. */
  function Boot(cpus: nat): State {
    State(seq(cpus, i => Cpu(if i == 0 then Running else Looking, false)), {}, [])
  }

  ghost predicate IsRun(s: State, steps: seq<Step>, t: State)
    decreases |steps|
  {
    if steps == [] then s == t
    else Enabled(s, steps[0]) && IsRun(Apply(s, steps[0]), steps[1..], t)
  }

  /** The publications of a run, in order: the task with index `t` is the one of the `t`-th. */
  function Publications(steps: seq<Step>): (p: seq<Step>)
    ensures forall t :: 0 <= t < |p| ==> p[t].Publish?
  {
    if steps == [] then []
    else if steps[0].Publish? then [steps[0]] + Publications(steps[1..])
    else Publications(steps[1..])
  }

  /** Some CPU has taken the task from the queue. */
  ghost predicate Dispatched(steps: seq<Step>, t: nat) {
    exists j :: 0 <= j < |steps| && IsDispatch(steps[j], t)
  }

  predicate IsDispatch(step: Step, t: nat) { step.Dispatch? && step.task == t }

  /** What a run makes of the task with index `t`: only a dispatch ends its waiting. */
  ghost predicate TaskRecord(s: State, steps: seq<Step>, t: State, i: nat) {
    i < |t.tasks| &&
    if i < |s.tasks|
    then && t.tasks[i].publisher == s.tasks[i].publisher && t.tasks[i].eligible == s.tasks[i].eligible
         && (t.tasks[i].waiting <==> s.tasks[i].waiting && !Dispatched(steps, i))
    else && i - |s.tasks| < |Publications(steps)|
         && t.tasks[i].publisher == Publications(steps)[i - |s.tasks|].cpu
         && t.tasks[i].eligible == Publications(steps)[i - |s.tasks|].eligible
         && (t.tasks[i].waiting <==> !Dispatched(steps, i))
  }

  /** The tasks are those that were published, and wait exactly until they are dispatched. */
  lemma {:induction false} TasksArePublications(s: State, steps: seq<Step>, t: State)
    requires IsRun(s, steps, t)
    ensures |t.tasks| == |s.tasks| + |Publications(steps)|
    ensures forall i: nat :: i < |t.tasks| ==> TaskRecord(s, steps, t, i)
    decreases |steps|
  {
    if steps != [] {
      var u := Apply(s, steps[0]);
      TasksArePublications(u, steps[1..], t);
      forall i: nat | i < |t.tasks|
        ensures TaskRecord(s, steps, t, i)
      {
        assert TaskRecord(u, steps[1..], t, i);
        DispatchedCons(steps, i);
        RecordBefore(s, steps, t, i);
      }
    }
  }

  lemma DispatchedCons(steps: seq<Step>, i: nat)
    requires steps != []
    ensures Dispatched(steps, i) <==> IsDispatch(steps[0], i) || Dispatched(steps[1..], i)
  {
    if j :| 0 <= j < |steps| && IsDispatch(steps[j], i) {
      assert j > 0 ==> IsDispatch(steps[1..][j - 1], i);
    }
    if j :| 0 <= j < |steps| - 1 && IsDispatch(steps[1..][j], i) {
      assert IsDispatch(steps[j + 1], i);
    }
  }

  /** What the first step makes of a task, before the others. */
  lemma RecordBefore(s: State, steps: seq<Step>, t: State, i: nat)
    requires steps != [] && Enabled(s, steps[0]) && TaskRecord(Apply(s, steps[0]), steps[1..], t, i)
    requires Dispatched(steps, i) <==> IsDispatch(steps[0], i) || Dispatched(steps[1..], i)
    ensures TaskRecord(s, steps, t, i)
  {
  }

  /** No task is dispatched twice, and only a CPU on which it may run dispatches it. */
  lemma {:induction false} DispatchedOnce(cpus: nat, steps: seq<Step>, t: State, j: nat)
    requires IsRun(Boot(cpus), steps, t) && j < |steps| && steps[j].Dispatch?
    ensures steps[j].task < |Publications(steps[..j])| && !Dispatched(steps[..j], steps[j].task)
    ensures steps[j].cpu in Publications(steps[..j])[steps[j].task].eligible
  {
    var u := RunSplits(Boot(cpus), steps, t, j);
    TasksArePublications(Boot(cpus), steps[..j], u);
    assert Runnable(u, steps[j].cpu, steps[j].task);
    assert TaskRecord(Boot(cpus), steps[..j], u, steps[j].task);
  }

  /** The state in which the step `j` is taken. */
  lemma {:induction false} RunSplits(s: State, steps: seq<Step>, t: State, j: nat) returns (u: State)
    requires IsRun(s, steps, t) && j < |steps|
    ensures IsRun(s, steps[..j], u) && Enabled(u, steps[j]) && IsRun(Apply(u, steps[j]), steps[j + 1..], t)
    decreases j
  {
    if j == 0 {
      u := s;
    } else {
      u := RunSplits(Apply(s, steps[0]), steps[1..], t, j - 1);
      assert steps[..j][1..] == steps[1..][..j - 1] && steps[1..][j..] == steps[j + 1..];
    }
  }

  // ---------------------------------------------------------------- the invariant

  ghost predicate ClaimedFor(s: State, c: nat, t: nat) {
    t < |s.tasks| && s.tasks[t].notify == Claimed(c)
  }

  /** An interrupt for the CPU is pending, or a publisher is about to send one. */
  ghost predicate Notified(s: State, c: nat) {
    c < |s.cpus| && (s.cpus[c].ipi || exists t: nat :: ClaimedFor(s, c, t))
  }

  /** The CPU has decided to sleep, or sleeps, and nothing is on its way to wake it. */
  ghost predicate Sleeper(s: State, c: nat) {
    c < |s.cpus| && (s.cpus[c].pc.Armed? || s.cpus[c].pc.Asleep?) && !Notified(s, c)
  }

  /** Between publishing the idle bit and waking up. */
  predicate Dozing(pc: CpuPc) {
    pc.Prepared? || pc.Armed? || pc.Asleep?
  }

  ghost predicate CpuInv(s: State, c: nat) {
    && (c in s.idle ==> c < |s.cpus| && (Dozing(s.cpus[c].pc) || s.cpus[c].pc.Woken?))
    && (c < |s.cpus| && Dozing(s.cpus[c].pc) ==> c in s.idle || Notified(s, c))
  }

  /** A waiting task whose publisher has decided: nobody sleeps, or an eligible CPU was claimed that does not sleep. */
  ghost predicate TaskInv(s: State, t: nat)
    requires t < |s.tasks|
  {
    var task := s.tasks[t];
    && task.publisher < |s.cpus|
    && (forall d :: d in task.eligible ==> d < |s.cpus|)
    && (!task.notify.Returned? ==> MayPublish(s.cpus[task.publisher].pc))
    && (task.waiting && task.Decided() ==>
          match task.Claim()
          case None => forall c :: c in task.eligible ==> !Sleeper(s, c)
          case Some(d) => d in task.eligible && !Sleeper(s, d))
    && (task.notify.Claimed? ==> task.notify.cpu < |s.cpus|)
  }

  ghost predicate Inv(s: State) {
    && (forall c: nat :: CpuInv(s, c))
    && (forall t: nat :: t < |s.tasks| ==> TaskInv(s, t))
  }

  // ---------------------------------------------------------------- exactly which steps keep it

  ghost predicate HasClaim(s: State, c: nat) {
    exists t: nat :: ClaimedFor(s, c, t)
  }

  /** A waiting task that relies on the CPU: its publisher claimed the CPU, or nobody because nobody slept. */
  ghost predicate ReliesOn(s: State, t: nat, c: nat) {
    && t < |s.tasks| && s.tasks[t].waiting && s.tasks[t].Decided() && c in s.tasks[t].eligible
    && (s.tasks[t].Claim().None? || s.tasks[t].Claim() == Some(c))
  }

  /**
   The two steps that lose a wakeup. Between enabling interrupts and the wait instruction a CPU takes an interrupt that
   was its only notification, although its idle bit is gone or a task relies on it; or a timer interrupt taken there
   has published a task that this CPU may run, and finds nobody else idle.
   */
  ghost predicate LosesWakeup(s: State, step: Step) {
    match step
    case TakeIpi(c) =>
      && c < |s.cpus| && s.cpus[c].pc.Armed? && !HasClaim(s, c)
      && (c !in s.idle || exists t: nat :: ReliesOn(s, t, c))
    case LoadMask(t) =>
      && t < |s.tasks| && s.tasks[t].waiting && s.idle * s.tasks[t].Allowed() == {}
      && s.tasks[t].publisher in s.tasks[t].eligible && Sleeper(s, s.tasks[t].publisher)
    case _ => false
  }


  /** The same claims and pending interrupts notify the same CPUs. */
  lemma NotifiedSame(s: State, t: State, c: nat)
    requires |s.cpus| == |t.cpus| && (c < |s.cpus| ==> s.cpus[c].ipi == t.cpus[c].ipi)
    requires forall i: nat :: ClaimedFor(s, c, i) <==> ClaimedFor(t, c, i)
    ensures Notified(s, c) <==> Notified(t, c)
  {
  }

  /** Steps of one CPU that touch neither claims nor interrupts nor tasks. */
  lemma CpuStepKeeps(s: State, step: Step)
    requires Inv(s) && Enabled(s, step)
    requires step.Yield? || step.FindNothing? || step.PrepareIdle? || step.SecondLook? || step.Wait? || step.FinishIdle?
    ensures Inv(Apply(s, step))
  {
    var t := Apply(s, step);
    forall c: nat
      ensures (Notified(s, c) <==> Notified(t, c)) && CpuInv(t, c)
    {
      assert forall i: nat :: ClaimedFor(s, c, i) <==> ClaimedFor(t, c, i);
      NotifiedSame(s, t, c);
      assert CpuInv(s, c);
    }
    forall i: nat | i < |t.tasks|
      ensures TaskInv(t, i)
    {
      assert TaskInv(s, i);
      assert forall c: nat :: Sleeper(t, c) && !Sleeper(s, c) ==> c == step.cpu && step.SecondLook?;
      assert step.SecondLook? && !HasTask(s, step.cpu) ==> !Runnable(s, step.cpu, i);
    }
  }

  lemma WakeUpKeeps(s: State, d: nat)
    requires Inv(s) && Enabled(s, WakeUp(d))
    ensures Inv(Apply(s, WakeUp(d)))
  {
    var t := Apply(s, WakeUp(d));
    forall c: nat
      ensures c != d ==> (Notified(s, c) <==> Notified(t, c))
      ensures CpuInv(t, c)
    {
      assert forall i: nat :: ClaimedFor(s, c, i) <==> ClaimedFor(t, c, i);
      if c != d {
        NotifiedSame(s, t, c);
      }
      assert CpuInv(s, c);
    }
    forall i: nat | i < |t.tasks|
      ensures TaskInv(t, i)
    {
      assert TaskInv(s, i);
      assert forall c: nat :: Sleeper(t, c) ==> Sleeper(s, c);
    }
  }

  /** What taking an interrupt changes: the CPU is no longer notified unless another publisher has claimed it. */
  lemma TakeIpiChanges(s: State, d: nat, c: nat)
    requires Enabled(s, TakeIpi(d))
    ensures var t := Apply(s, TakeIpi(d));
      && (HasClaim(t, c) <==> HasClaim(s, c))
      && (c != d ==> (Notified(t, c) <==> Notified(s, c)) && (Sleeper(t, c) <==> Sleeper(s, c)))
      && (Notified(t, d) <==> HasClaim(s, d)) && (Sleeper(t, d) <==> s.cpus[d].pc.Armed? && !HasClaim(s, d))
      && Notified(s, d) && !Sleeper(s, d)
  {
    var t := Apply(s, TakeIpi(d));
    assert forall e: nat, i: nat :: ClaimedFor(s, e, i) <==> ClaimedFor(t, e, i);
    if c != d {
      NotifiedSame(s, t, c);
    }
  }

  /** Taking an interrupt keeps the invariant exactly when it loses no wakeup. */
  lemma TakeIpiKeepsIff(s: State, d: nat)
    requires Inv(s) && Enabled(s, TakeIpi(d))
    ensures Inv(Apply(s, TakeIpi(d))) <==> !LosesWakeup(s, TakeIpi(d))
  {
    var t := Apply(s, TakeIpi(d));
    TakeIpiChanges(s, d, d);
    if LosesWakeup(s, TakeIpi(d)) {
      if d !in s.idle {
        assert !CpuInv(t, d);
      } else {
        var i: nat :| ReliesOn(s, i, d);
        assert t.tasks[i] == s.tasks[i] && !TaskInv(t, i);
      }
    } else {
      TakeIpiKeeps(s, d);
    }
  }

  lemma TakeIpiKeeps(s: State, d: nat)
    requires Inv(s) && Enabled(s, TakeIpi(d)) && !LosesWakeup(s, TakeIpi(d))
    ensures Inv(Apply(s, TakeIpi(d)))
  {
    var t := Apply(s, TakeIpi(d));
    forall c: nat
      ensures CpuInv(t, c)
    {
      TakeIpiChanges(s, d, c);
      assert CpuInv(s, c);
    }
    forall i: nat | i < |t.tasks|
      ensures TaskInv(t, i)
    {
      assert TaskInv(s, i);
      forall c: nat | Sleeper(t, c) && !Sleeper(s, c)
        ensures c == d && !ReliesOn(s, i, d)
      {
        TakeIpiChanges(s, d, c);
      }
    }
  }

  lemma TaskStepKeeps(s: State, step: Step)
    requires Inv(s) && Enabled(s, step) && (step.Publish? || step.Dispatch? || step.SpuriousFailure?)
    ensures Inv(Apply(s, step))
  {
    var t := Apply(s, step);
    forall c: nat
      ensures (Notified(s, c) <==> Notified(t, c)) && CpuInv(t, c)
    {
      assert forall i: nat :: ClaimedFor(s, c, i) <==> ClaimedFor(t, c, i);
      NotifiedSame(s, t, c);
      assert CpuInv(s, c);
    }
    forall i: nat | i < |t.tasks|
      ensures TaskInv(t, i)
    {
      if i < |s.tasks| {
        assert TaskInv(s, i);
      }
      assert forall c: nat :: Sleeper(t, c) ==> Sleeper(s, c);
    }
  }

  /** Loading the mask keeps the invariant exactly when it loses no wakeup. */
  lemma LoadMaskKeepsIff(s: State, k: nat)
    requires Inv(s) && Enabled(s, LoadMask(k))
    ensures Inv(Apply(s, LoadMask(k))) <==> !LosesWakeup(s, LoadMask(k))
  {
    var t := Apply(s, LoadMask(k));
    assert TaskInv(s, k);
    forall c: nat
      ensures (Notified(s, c) <==> Notified(t, c)) && CpuInv(t, c)
      ensures Sleeper(s, c) ==> c in s.idle
    {
      assert forall i: nat :: ClaimedFor(s, c, i) <==> ClaimedFor(t, c, i);
      NotifiedSame(s, t, c);
      assert CpuInv(s, c);
    }
    assert forall c: nat :: Sleeper(t, c) <==> Sleeper(s, c);
    assert forall c: nat :: c in s.idle && c in s.tasks[k].Allowed() ==> c in s.idle * s.tasks[k].Allowed();
    if LosesWakeup(s, LoadMask(k)) {
      assert Sleeper(t, s.tasks[k].publisher) && !TaskInv(t, k);
    } else {
      forall i: nat | i < |t.tasks|
        ensures TaskInv(t, i)
      {
        assert TaskInv(s, i);
      }
    }
  }

  lemma CompareExchangeKeeps(s: State, k: nat)
    requires Inv(s) && Enabled(s, CompareExchange(k))
    ensures Inv(Apply(s, CompareExchange(k)))
  {
    var t := Apply(s, CompareExchange(k));
    assert TaskInv(s, k);
    if t.tasks[k].notify.Claimed? {
      var d := t.tasks[k].notify.cpu;
      assert d in s.idle && d in s.tasks[k].eligible;
      assert ClaimedFor(t, d, k);
      assert CpuInv(s, d);
      forall c: nat
        ensures Notified(s, c) ==> Notified(t, c)
        ensures CpuInv(t, c)
      {
        assert CpuInv(s, c);
        assert forall i: nat :: ClaimedFor(s, c, i) ==> ClaimedFor(t, c, i);
      }
    } else {
      forall c: nat
        ensures (Notified(s, c) <==> Notified(t, c)) && CpuInv(t, c)
      {
        assert forall i: nat :: ClaimedFor(s, c, i) <==> ClaimedFor(t, c, i);
        NotifiedSame(s, t, c);
        assert CpuInv(s, c);
      }
    }
    forall i: nat | i < |t.tasks|
      ensures TaskInv(t, i)
    {
      assert TaskInv(s, i);
      assert forall c: nat :: Sleeper(t, c) ==> Sleeper(s, c);
    }
  }

  lemma SendIpiKeeps(s: State, k: nat)
    requires Inv(s) && Enabled(s, SendIpi(k))
    ensures Inv(Apply(s, SendIpi(k)))
  {
    var t := Apply(s, SendIpi(k));
    var d := s.tasks[k].notify.cpu;
    forall c: nat
      ensures Notified(s, c) ==> Notified(t, c)
      ensures CpuInv(t, c)
    {
      assert CpuInv(s, c);
      assert c != d ==> forall i: nat :: ClaimedFor(s, c, i) ==> ClaimedFor(t, c, i);
    }
    forall i: nat | i < |t.tasks|
      ensures TaskInv(t, i)
    {
      assert TaskInv(s, i);
      assert forall c: nat :: Sleeper(t, c) ==> Sleeper(s, c);
    }
  }

  /** A step keeps the invariant if and only if it is none of the two that lose a wakeup. */
  lemma StepKeepsIff(s: State, step: Step)
    requires Inv(s) && Enabled(s, step)
    ensures Inv(Apply(s, step)) <==> !LosesWakeup(s, step)
  {
    match step
    case Publish(_, _) => TaskStepKeeps(s, step);
    case Dispatch(_, _) => TaskStepKeeps(s, step);
    case SpuriousFailure(_) => TaskStepKeeps(s, step);
    case LoadMask(k) => LoadMaskKeepsIff(s, k);
    case CompareExchange(k) => CompareExchangeKeeps(s, k);
    case SendIpi(k) => SendIpiKeeps(s, k);
    case WakeUp(d) => WakeUpKeeps(s, d);
    case TakeIpi(d) => TakeIpiKeepsIff(s, d);
    case _ => CpuStepKeeps(s, step);
  }

  /** A run in which no step loses a wakeup. */
  ghost predicate IsWatchfulRun(s: State, steps: seq<Step>, t: State)
    decreases |steps|
  {
    if steps == [] then s == t
    else Enabled(s, steps[0]) && !LosesWakeup(s, steps[0]) && IsWatchfulRun(Apply(s, steps[0]), steps[1..], t)
  }

  lemma {:induction false} RunKeeps(s: State, steps: seq<Step>, t: State)
    requires Inv(s) && IsWatchfulRun(s, steps, t)
    ensures Inv(t)
    decreases |steps|
  {
    if steps != [] {
      StepKeepsIff(s, steps[0]);
      RunKeeps(Apply(s, steps[0]), steps[1..], t);
    }
  }

  /** The first step of a run that breaks the invariant is one that loses a wakeup. */
  lemma {:induction false} BrokenByALostWakeup(s: State, steps: seq<Step>, t: State) returns (n: nat, u: State)
    requires Inv(s) && IsRun(s, steps, t) && !Inv(t)
    ensures n < |steps| && IsRun(s, steps[..n], u) && Inv(u) && Enabled(u, steps[n]) && LosesWakeup(u, steps[n])
    decreases |steps|
  {
    StepKeepsIff(s, steps[0]);
    if LosesWakeup(s, steps[0]) {
      n, u := 0, s;
    } else {
      n, u := BrokenByALostWakeup(Apply(s, steps[0]), steps[1..], t);
      n := n + 1;
      assert steps[..n][1..] == steps[1..][..n - 1];
    }
  }

  // ---------------------------------------------------------------- what is guaranteed

  lemma {:induction false} WatchfulIsRun(s: State, steps: seq<Step>, t: State)
    requires IsWatchfulRun(s, steps, t)
    ensures IsRun(s, steps, t)
    decreases |steps|
  {
    if steps != [] {
      WatchfulIsRun(Apply(s, steps[0]), steps[1..], t);
    }
  }

  /**
   No notification is lost on any run without such a step. Take the `t`-th publication of the run, for a task that no
   CPU has taken yet: if its publisher has decided, and a CPU on which the task may run sleeps unnotified, then the
   publisher claimed another such CPU, and that one is awake or is being woken, so it looks at the queue after the
   task was put there.
   */
  lemma NoLostNotification(cpus: nat, steps: seq<Step>, s: State, t: nat, c: nat)
    requires IsWatchfulRun(Boot(cpus), steps, s)
    requires t < |Publications(steps)| && !Dispatched(steps, t) && c in Publications(steps)[t].eligible
    requires t < |s.tasks| ==> s.tasks[t].Decided()
    requires Sleeper(s, c)
    ensures t < |s.tasks| && s.tasks[t].Claim().Some?
    ensures var d := s.tasks[t].Claim().value;
            d != c && d in Publications(steps)[t].eligible && !Sleeper(s, d)
  {
    assert Inv(Boot(cpus));
    RunKeeps(Boot(cpus), steps, s);
    WatchfulIsRun(Boot(cpus), steps, s);
    TasksArePublications(Boot(cpus), steps, s);
    assert TaskRecord(Boot(cpus), steps, s, t);
    assert TaskInv(s, t);
  }

  /**
   A notification that nothing interrupts returns: with no other idle CPU on which the task may run it claims nobody,
   otherwise it clears the idle bit of the lowest one and interrupts it.
   */
  lemma NotifyAlone(s: State, t: nat) returns (steps: seq<Step>, u: State)
    requires Inv(s) && t < |s.tasks| && s.tasks[t].notify.Trying?
    ensures IsRun(s, steps, u) && |u.tasks| == |s.tasks| && u.tasks[t].notify.Returned?
    ensures (forall c :: c in s.idle && c in s.tasks[t].eligible ==> c == s.tasks[t].publisher) ==>
              u.tasks[t].Claim() == None && u.idle == s.idle && u.cpus == s.cpus
    ensures forall c :: c in s.idle && c in s.tasks[t].eligible && c != s.tasks[t].publisher ==>
              && u.tasks[t].Claim().Some?
              && var d := u.tasks[t].Claim().value;
                 && d <= c && d in s.idle && d in s.tasks[t].eligible && d != s.tasks[t].publisher
                 && u.idle == s.idle - {d} && d < |s.cpus| == |u.cpus| && u.cpus[d].ipi
  {
    var s1, found := Apply(s, LoadMask(t)), s.idle * s.tasks[t].Allowed();
    if found == {} {
      steps, u := [LoadMask(t)], s1;
      assert forall c :: c in s.idle && c in s.tasks[t].eligible && c != s.tasks[t].publisher ==> c in found;
      assert steps[1..] == [];
    } else {
      assert TaskInv(s, t);
      var d := Least(found);
      var s2 := Apply(s1, CompareExchange(t));
      assert s2.tasks[t].notify == Claimed(d);
      steps, u := [LoadMask(t), CompareExchange(t), SendIpi(t)], Apply(s2, SendIpi(t));
      assert d in s.tasks[t].eligible;
      assert steps[1..] == [CompareExchange(t), SendIpi(t)] && steps[1..][1..] == [SendIpi(t)];
      assert steps[1..][1..][1..] == [];
      assert IsRun(s2, [SendIpi(t)], u);
      assert IsRun(s1, steps[1..], u);
      assert forall c :: c in s.idle && c in s.tasks[t].eligible && c != s.tasks[t].publisher ==> c in found;
    }
  }

  /** The CPU is not running a task and will look at the queue before it sleeps on. */
  ghost predicate Attentive(s: State, c: nat) {
    c < |s.cpus| && !s.cpus[c].pc.Running? && !Sleeper(s, c)
  }

  ghost predicate Attended(s: State, t: nat)
    requires t < |s.tasks|
  {
    exists d :: d in s.tasks[t].eligible && Attentive(s, d)
  }

  ghost predicate Overlooked(s: State, t: nat, c: nat) {
    t < |s.tasks| && s.tasks[t].waiting && s.tasks[t].Decided() && c in s.tasks[t].eligible && Sleeper(s, c)
  }

  /** The stronger claim: as long as an eligible CPU sleeps, some eligible CPU is about to look. */
  ghost predicate Prompt(s: State) {
    forall t: nat, c: nat :: Overlooked(s, t, c) ==> Attended(s, t)
  }

  /** The dispatcher is the only attentive CPU of another waiting task for which a CPU sleeps. */
  ghost predicate LeavesBehind(s: State, d: nat, taken: nat) {
    exists t: nat, c: nat :: Overlooked(s, t, c) && t != taken
                             && forall e :: e in s.tasks[t].eligible && e != d ==> !Attentive(s, e)
  }

  /** A dispatch keeps the stronger claim exactly when it leaves no such task behind. */
  lemma DispatchKeepsPromptIff(s: State, d: nat, taken: nat)
    requires Inv(s) && Prompt(s) && Enabled(s, Dispatch(d, taken))
    ensures Prompt(Apply(s, Dispatch(d, taken))) <==> !LeavesBehind(s, d, taken)
  {
    var t := Apply(s, Dispatch(d, taken));
    forall c: nat
      ensures Sleeper(s, c) <==> Sleeper(t, c)
      ensures Attentive(t, c) <==> Attentive(s, c) && c != d
    {
      assert forall i: nat :: ClaimedFor(s, c, i) <==> ClaimedFor(t, c, i);
      NotifiedSame(s, t, c);
    }
    forall i: nat, c: nat
      ensures Overlooked(t, i, c) <==> Overlooked(s, i, c) && i != taken
    {
    }
    if !LeavesBehind(s, d, taken) {
      forall i: nat, c: nat | Overlooked(t, i, c)
        ensures Attended(t, i)
      {
        assert Overlooked(s, i, c) && i != taken;
        var e :| e in s.tasks[i].eligible && e != d && Attentive(s, e);
        assert e in t.tasks[i].eligible && Attentive(t, e);
      }
    } else {
      var i: nat, c: nat :| Overlooked(s, i, c) && i != taken
                            && forall e :: e in s.tasks[i].eligible && e != d ==> !Attentive(s, e);
      assert Overlooked(t, i, c) && !Attended(t, i);
    }
  }

  /** A waiting task for which the CPU would be a sleeper beside others, with no other attentive CPU. */
  ghost predicate Abandons(s: State, d: nat, t: nat, c: nat) {
    && t < |s.tasks| && s.tasks[t].waiting && s.tasks[t].Decided() && c in s.tasks[t].eligible
    && (Sleeper(s, c) || c == d)
    && forall e :: e in s.tasks[t].eligible && e != d ==> !Attentive(s, e)
  }

  /** Between enabling interrupts and the wait instruction the CPU loses its only notification, and abandons a task. */
  ghost predicate AbandonsInGap(s: State, d: nat) {
    d < |s.cpus| && s.cpus[d].pc.Armed? && !HasClaim(s, d) && exists t: nat, c: nat :: Abandons(s, d, t, c)
  }

  /** An interrupt keeps the stronger claim exactly when it abandons no task. */
  lemma TakeIpiKeepsPromptIff(s: State, d: nat)
    requires Prompt(s) && Enabled(s, TakeIpi(d))
    ensures Prompt(Apply(s, TakeIpi(d))) <==> !AbandonsInGap(s, d)
  {
    var t := Apply(s, TakeIpi(d));
    forall c: nat
      ensures Sleeper(t, c) <==> Sleeper(s, c) || (c == d && s.cpus[d].pc.Armed? && !HasClaim(s, d))
      ensures Attentive(t, c) <==> Attentive(s, c) && !(c == d && s.cpus[d].pc.Armed? && !HasClaim(s, d))
    {
      TakeIpiChanges(s, d, c);
    }
    if s.cpus[d].pc.Armed? && !HasClaim(s, d) {
      if i: nat, c: nat :| Abandons(s, d, i, c) {
        assert Overlooked(t, i, c) && !Attended(t, i);
      } else {
        forall i: nat, c: nat | Overlooked(t, i, c)
          ensures Attended(t, i)
        {
          assert !Abandons(s, d, i, c);
          var e :| e in s.tasks[i].eligible && e != d && Attentive(s, e);
          assert e in t.tasks[i].eligible && Attentive(t, e);
        }
      }
    } else {
      forall i: nat, c: nat | Overlooked(t, i, c)
        ensures Attended(t, i)
      {
        assert Overlooked(s, i, c);
        var e :| e in s.tasks[i].eligible && Attentive(s, e);
        assert e in t.tasks[i].eligible && Attentive(t, e);
      }
    }
  }

  /** An attentive CPU stays attentive for a waiting task until it dispatches. */
  lemma AttentiveStays(s: State, step: Step, d: nat, t: nat)
    requires Inv(s) && Enabled(s, step) && !step.Dispatch? && !step.TakeIpi? && Attentive(s, d)
    requires Runnable(s, d, t)
    ensures Attentive(Apply(s, step), d)
  {
    var u := Apply(s, step);
    if u.cpus[d].pc.Armed? || u.cpus[d].pc.Asleep? {
      assert s.cpus[d].pc.Armed? || s.cpus[d].pc.Asleep?;
      assert Notified(s, d);
      if !u.cpus[d].ipi {
        assert !s.cpus[d].ipi;
        var i: nat :| ClaimedFor(s, d, i);
        assert ClaimedFor(u, d, i);
      }
    }
  }

  /** A CPU falls asleep unnotified only when no waiting task may run on it. */
  lemma NewSleeper(s: State, step: Step, c: nat, t: nat)
    requires Inv(s) && Enabled(s, step) && !step.TakeIpi? && Sleeper(Apply(s, step), c) && Runnable(s, c, t)
    ensures Sleeper(s, c)
  {
    var u := Apply(s, step);
    if Notified(s, c) && !s.cpus[c].ipi {
      var i: nat :| ClaimedFor(s, c, i);
      assert !u.cpus[c].ipi ==> ClaimedFor(u, c, i);
    }
  }

  /** A claim is for a CPU that has not yet left its idle phase. */
  lemma FreshDecision(s: State, step: Step, t: nat, c: nat)
    requires Inv(s) && Enabled(s, step) && !LosesWakeup(s, step) && t < |s.tasks| && !s.tasks[t].Decided()
    requires Overlooked(Apply(s, step), t, c)
    ensures Attended(Apply(s, step), t)
  {
    var u := Apply(s, step);
    StepKeepsIff(s, step);
    assert TaskInv(u, t);
    assert step == CompareExchange(t);
    var d := u.tasks[t].notify.cpu;
    assert d in s.idle && CpuInv(s, d);
    assert ClaimedFor(u, d, t);
    assert d in u.tasks[t].eligible && Attentive(u, d);
  }

  /** Every other step that loses no wakeup keeps the stronger claim. */
  lemma OtherStepsKeepPrompt(s: State, step: Step)
    requires Inv(s) && Prompt(s) && Enabled(s, step) && !step.Dispatch? && !step.TakeIpi? && !LosesWakeup(s, step)
    ensures Prompt(Apply(s, step))
  {
    var u := Apply(s, step);
    forall t: nat, c: nat | Overlooked(u, t, c)
      ensures Attended(u, t)
    {
      assert t < |s.tasks|;
      if s.tasks[t].Decided() {
        assert Runnable(s, c, t);
        NewSleeper(s, step, c, t);
        assert Overlooked(s, t, c);
        var d :| d in s.tasks[t].eligible && Attentive(s, d);
        assert Runnable(s, d, t);
        AttentiveStays(s, step, d, t);
        assert d in u.tasks[t].eligible;
      } else {
        FreshDecision(s, step, t, c);
      }
    }
  }

  /** A run in which no step loses a wakeup, leaves a task behind or abandons one. */
  ghost predicate IsCarefulRun(s: State, steps: seq<Step>, t: State)
    decreases |steps|
  {
    if steps == [] then s == t
    else
      && Enabled(s, steps[0]) && !LosesWakeup(s, steps[0])
      && (steps[0].TakeIpi? ==> !AbandonsInGap(s, steps[0].cpu))
      && (steps[0].Dispatch? ==> !LeavesBehind(s, steps[0].cpu, steps[0].task))
      && IsCarefulRun(Apply(s, steps[0]), steps[1..], t)
  }

  lemma {:induction false} CarefulRunsStayPrompt(s: State, steps: seq<Step>, t: State)
    requires Inv(s) && Prompt(s) && IsCarefulRun(s, steps, t)
    ensures Inv(t) && Prompt(t)
    decreases |steps|
  {
    if steps != [] {
      StepKeepsIff(s, steps[0]);
      if steps[0].Dispatch? {
        DispatchKeepsPromptIff(s, steps[0].cpu, steps[0].task);
      } else if steps[0].TakeIpi? {
        TakeIpiKeepsPromptIff(s, steps[0].cpu);
      } else {
        OtherStepsKeepPrompt(s, steps[0]);
      }
      CarefulRunsStayPrompt(Apply(s, steps[0]), steps[1..], t);
    }
  }

  // ---------------------------------------------------------------- what is not guaranteed

  lemma {:induction false} Extend(s: State, steps: seq<Step>, t: State, step: Step)
    requires IsRun(s, steps, t) && Enabled(t, step)
    ensures IsRun(s, steps + [step], Apply(t, step))
    decreases |steps|
  {
    if steps == [] {
      assert [step][1..] == [];
    } else {
      Extend(Apply(s, steps[0]), steps[1..], t, step);
      assert (steps + [step])[1..] == steps[1..] + [step];
    }
  }

  /** Some run leads from `s` to `t`. */
  ghost predicate Reaches(s: State, t: State) {
    exists steps :: IsRun(s, steps, t)
  }

  lemma Then(s: State, t: State, step: Step, u: State)
    requires Reaches(s, t) && Enabled(t, step) && u == Apply(t, step)
    ensures Reaches(s, u)
  {
    var steps :| IsRun(s, steps, t);
    Extend(s, steps, t, step);
  }

  /** The CPU goes from looking for work to sleep. */
  lemma FallAsleep(boot: State, s: State, c: nat)
    requires Reaches(boot, s) && c < |s.cpus| && s.cpus[c].pc.Looking? && s.tasks == []
    ensures Reaches(boot, SetPc(s, c, Asleep).(idle := s.idle + {c}))
  {
    assert !HasTask(s, c);
    var s1 := SetPc(s, c, Idling);
    Then(boot, s, FindNothing(c), s1);
    var s2 := SetPc(s, c, Prepared).(idle := s.idle + {c});
    Then(boot, s1, PrepareIdle(c), s2);
    assert !HasTask(s2, c);
    var s3 := SetPc(s, c, Armed).(idle := s.idle + {c});
    Then(boot, s2, SecondLook(c), s3);
    Then(boot, s3, Wait(c), SetPc(s, c, Asleep).(idle := s.idle + {c}));
  }

  /**
   CPUs 1 and 2 sleep. A task for both claims CPU 1; a task for CPU 1 alone finds nobody idle.
   CPU 1 wakes up and takes the second task: the first one waits while CPU 2 sleeps on.
   */
  lemma DispatchCanLeaveBehind()
    ensures exists s :: Reaches(Boot(3), s) && !Prompt(s)
  {
    var b := Boot(3);
    assert IsRun(b, [], b);
    FallAsleep(b, b, 1);
    var s1 := SetPc(b, 1, Asleep).(idle := b.idle + {1});
    FallAsleep(b, s1, 2);
    var idle3 := [Cpu(Running, false), Cpu(Asleep, false), Cpu(Asleep, false)];
    var s2 := State(idle3, {1, 2}, []);
    assert s2 == SetPc(s1, 2, Asleep).(idle := s1.idle + {2});
    FirstTaskClaims(b, s2);
  }

  lemma FirstTaskClaims(b: State, s2: State)
    requires s2 == State([Cpu(Running, false), Cpu(Asleep, false), Cpu(Asleep, false)], {1, 2}, [])
    requires Reaches(b, s2)
    ensures exists s :: Reaches(b, s) && !Prompt(s)
  {
    var idle3 := s2.cpus;
    var s3 := State(idle3, {1, 2}, [Task(0, {1, 2}, Trying, true)]);
    Then(b, s2, Publish(0, {1, 2}), s3);
    assert 1 in s3.idle * s3.tasks[0].Allowed();
    var s4 := State(idle3, {1, 2}, [Task(0, {1, 2}, Loaded({1, 2}), true)]);
    Then(b, s3, LoadMask(0), s4);
    assert 1 in {1, 2} * s4.tasks[0].Allowed();
    var s5 := State(idle3, {2}, [Task(0, {1, 2}, Claimed(1), true)]);
    Then(b, s4, CompareExchange(0), s5);
    var first := Task(0, {1, 2}, Returned(Some(1)), true);
    var s6 := State([Cpu(Running, false), Cpu(Asleep, true), Cpu(Asleep, false)], {2}, [first]);
    Then(b, s5, SendIpi(0), s6);
    SecondTaskOvertakes(b, s6);
  }

  lemma SecondTaskOvertakes(b: State, s6: State)
    requires s6 == State([Cpu(Running, false), Cpu(Asleep, true), Cpu(Asleep, false)], {2},
                         [Task(0, {1, 2}, Returned(Some(1)), true)])
    requires Reaches(b, s6)
    ensures exists s :: Reaches(b, s) && !Prompt(s)
  {
    var first := s6.tasks[0];
    var s7 := s6.(tasks := [first, Task(0, {1}, Trying, true)]);
    Then(b, s6, Publish(0, {1}), s7);
    var s8 := s6.(tasks := [first, Task(0, {1}, Returned(None), true)]);
    Then(b, s7, LoadMask(1), s8);
    var s9 := s8.(cpus := [Cpu(Running, false), Cpu(Woken, false), Cpu(Asleep, false)]);
    Then(b, s8, WakeUp(1), s9);
    var s10 := s8.(cpus := [Cpu(Running, false), Cpu(Looking, false), Cpu(Asleep, false)]);
    Then(b, s9, FinishIdle(1), s10);
    var s11 := State([Cpu(Running, false), Cpu(Running, false), Cpu(Asleep, false)], {2},
                     [first, Task(0, {1}, Returned(None), false)]);
    Then(b, s10, Dispatch(1, 1), s11);
    assert forall i: nat :: !ClaimedFor(s11, 2, i);
    assert Overlooked(s11, 0, 2) && !Attended(s11, 0);
  }

  /**
   An interrupt taken between enabling interrupts and the wait instruction: the claimed CPU itself sleeps on with its
   notification consumed.
   */
  lemma GapLosesTheNotification()
    ensures exists s :: Reaches(Boot(2), s) && Overlooked(s, 0, 1) && s.tasks[0].Claim() == Some(1)
  {
    var b := Boot(2);
    assert IsRun(b, [], b);
    assert !HasTask(b, 1);
    var s1 := State([Cpu(Running, false), Cpu(Idling, false)], {}, []);
    Then(b, b, FindNothing(1), s1);
    var s2 := State([Cpu(Running, false), Cpu(Prepared, false)], {1}, []);
    Then(b, s1, PrepareIdle(1), s2);
    var armed := [Cpu(Running, false), Cpu(Armed, false)];
    var s3 := State(armed, {1}, []);
    Then(b, s2, SecondLook(1), s3);
    NotificationArrives(b, s3);
  }

  lemma NotificationArrives(b: State, s3: State)
    requires s3 == State([Cpu(Running, false), Cpu(Armed, false)], {1}, []) && Reaches(b, s3)
    ensures exists s :: Reaches(b, s) && Overlooked(s, 0, 1) && s.tasks[0].Claim() == Some(1)
  {
    var armed := s3.cpus;
    var s4 := State(armed, {1}, [Task(0, {1}, Trying, true)]);
    Then(b, s3, Publish(0, {1}), s4);
    assert 1 in s4.idle * s4.tasks[0].Allowed();
    var s5 := State(armed, {1}, [Task(0, {1}, Loaded({1}), true)]);
    Then(b, s4, LoadMask(0), s5);
    NotificationConsumed(b, s5);
  }

  lemma NotificationConsumed(b: State, s5: State)
    requires s5 == State([Cpu(Running, false), Cpu(Armed, false)], {1}, [Task(0, {1}, Loaded({1}), true)])
    requires Reaches(b, s5)
    ensures exists s :: Reaches(b, s) && Overlooked(s, 0, 1) && s.tasks[0].Claim() == Some(1)
  {
    assert 1 in {1} * s5.tasks[0].Allowed();
    var s6 := State(s5.cpus, {}, [Task(0, {1}, Claimed(1), true)]);
    Then(b, s5, CompareExchange(0), s6);
    var done := [Task(0, {1}, Returned(Some(1)), true)];
    var s7 := State([Cpu(Running, false), Cpu(Armed, true)], {}, done);
    Then(b, s6, SendIpi(0), s7);
    var s8 := State(s5.cpus, {}, done);
    Then(b, s7, TakeIpi(1), s8);
    var s9 := State([Cpu(Running, false), Cpu(Asleep, false)], {}, done);
    Then(b, s8, Wait(1), s9);
    assert forall i: nat :: !ClaimedFor(s9, 1, i);
    assert Overlooked(s9, 0, 1);
  }
}
