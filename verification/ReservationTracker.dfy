/**
 The tracker of large anonymous reservations: sixteen slots, each locked by the low bit of its state,
 shared by any number of threads that publish reservations and report unmappings. Every access to a shared
 word is one step; a run interleaves the steps of all threads in any order.
 */
module ReservationTracker {
  import opened Common

  const SLOTS: nat := 16

  datatype Range = Range(start: nat, end: nat)

  /**
   `state` to `trims` are the program's words. The rest is bookkeeping of the proof: the holder of the lock, whether
   the slot is counted as active and visible, and of the last reservation published in it the sequence number, the
   range and the ranges whose reports have cut it since.
   */
  datatype Slot = Slot(state: nat, start: nat, end: nat, trims: nat, owner: Option<nat>, counted: bool, visible: bool,
                       sequence: nat, original: Range, cuts: seq<Range>)

  datatype Counters = Counters(nextSequence: nat, attempts: int, selectEnomem: int, commitFailures: int,
                               successes: int, active: int, evictions: int, trimFirst: int, trimSecond: int,
                               trimExtra: int, trimPrefix: int, trimSuffix: int, fullRelease: int,
                               munmapUnmatched: int)

  /** An attempt and the publication of its reservation; the name says what the next step does. */
  datatype Publisher =
    | CountAttempt
    | Decide
    | LoadState(range: Range)
    | TryLock(range: Range, previous: nat, left: nat)
    | CountEviction
    | CountActive(range: Range, previous: nat)
    | StoreStart(range: Range)
    | StoreEnd(range: Range)
    | StoreTrims(range: Range)
    | Publish(range: Range)
    | SetPending
    | CountSuccess

  /** The report of an unmapping while it looks for the slot. */
  datatype Search =
    | Scan
    | Lock(state: nat)
    | ReadStart(state: nat)
    | ReadEnd(state: nat, start: nat)
    | Unlock(state: nat)

  /** The report of an unmapping once it has found the slot. */
  datatype Change =
    | ClearFull
    | SubtractFull
    | ZeroFull
    | CountFull
    | Cut(state: nat, prefix: bool, at: nat)
    | CountSide(state: nat, prefix: bool)
    | AddTrim(state: nat)
    | CountTrim(state: nat, prior: nat)
    | UnlockTrimmed(state: nat)
    | ClearTrimmed
    | SubtractTrimmed
    | ZeroTrimmed

  datatype Thread =
    | Idle
    | Publishing(sequence: nat, publisher: Publisher)
    | Searching(range: Range, pending: set<nat>, index: nat, search: Search)
    | Changing(index: nat, range: Range, change: Change)
    | LoadingAttempts
    | CountingUnmatched

  /** What an idle thread or an attempt in progress does next. */
  datatype Input = Begin | SelectFails | CommitFails | Succeed(mapped: Range) | Unmap(unmapped: Range)

  /** How many calls began and ended in which way, and what happened to the words of the slots. */
  datatype Tally = Tally(begun: int, selectFailed: int, commitFailed: int, succeeded: int, reported: int, silent: int,
                         overwritten: int, lost: int, released: int, firstTrims: int, secondTrims: int,
                         prefixCuts: int, suffixCuts: int)

  /** A slot was emptied: the reports that cut its reservation, and what was left of it if the last one was a trim. */
  datatype Ending = Ending(sequence: nat, original: Range, parts: seq<Range>, rest: Option<Range>)

  /** The ranges that calls have reported as mapped, with their sequence numbers, and as unmapped. */
  datatype Log = Log(mapped: set<(nat, Range)>, unmapped: set<Range>, ended: set<Ending>)

  /** The program's threads, slots, counters and mask, and what the proof has observed of the run. */
  datatype State = State(threads: seq<Thread>, slots: seq<Slot>, counters: Counters, pending: set<nat>, tally: Tally,
                         log: Log)

  datatype Effect = Effect(thread: Thread, slot: Slot, counters: Counters, pending: set<nat>)

  // ---------------------------------------------------------------- the steps

  function SlotIndex(sequence: nat): (k: nat)
    ensures k < SLOTS
  {
    if sequence == 0 then 0 else (sequence - 1) % SLOTS
  }

  /** The slot that a thread's next step may touch. */
  function Touches(t: Thread): (k: nat)
    ensures k < SLOTS
  {
    match t
    case Idle => 0
    case Publishing(n, _) => SlotIndex(n)
    case Searching(_, _, k, _) => if k < SLOTS then k else 0
    case Changing(k, _, _) => if k < SLOTS then k else 0
    case LoadingAttempts => 0
    case CountingUnmatched => 0
  }

  predicate Locked(state: nat) { state % 2 == 1 }

  function Acquire(slot: Slot, i: nat): Slot {
    slot.(state := slot.state + 1, owner := Some(i))
  }

  function Release(slot: Slot, state: nat): Slot {
    slot.(state := state, owner := None)
  }

  function ActPublishing(n: nat, p: Publisher, i: nat, slot: Slot, c: Counters, pending: set<nat>,
                         input: Input): Effect {
    match p
    case CountAttempt => Effect(Publishing(n, Decide), slot, c.(attempts := c.attempts + 1), pending)
    case Decide => (
      match input
      case SelectFails => Effect(Idle, slot, c.(selectEnomem := c.selectEnomem + 1), pending)
      case CommitFails => Effect(Idle, slot, c.(commitFailures := c.commitFailures + 1), pending)
      case Succeed(range) =>
        Effect(if range.start < range.end then Publishing(n, LoadState(range)) else Publishing(n, p), slot, c, pending)
      case _ => Effect(Publishing(n, p), slot, c, pending))
    case LoadState(range) => Effect(Publishing(n, TryLock(range, slot.state, 4)), slot, c, pending)
    case TryLock(range, previous, left) =>
      if left == 0 then Effect(Publishing(n, CountEviction), slot, c, pending)
      else if Locked(previous) || slot.state != previous then
        Effect(Publishing(n, TryLock(range, slot.state, left - 1)), slot, c, pending)
      else Effect(Publishing(n, CountActive(range, previous)), Acquire(slot, i).(visible := false), c, pending)
    case CountEviction => Effect(Publishing(n, CountSuccess), slot, c.(evictions := c.evictions + 1), pending)
    case CountActive(range, previous) =>
      if previous == 0 then Effect(Publishing(n, StoreStart(range)), slot.(counted := true),
          c.(active := c.active + 1), pending)
      else Effect(Publishing(n, StoreStart(range)), slot, c.(evictions := c.evictions + 1), pending)
    case StoreStart(range) => Effect(Publishing(n, StoreEnd(range)), slot.(start := range.start), c, pending)
    case StoreEnd(range) => Effect(Publishing(n, StoreTrims(range)), slot.(end := range.end), c, pending)
    case StoreTrims(range) => Effect(Publishing(n, Publish(range)), slot.(trims := 0), c, pending)
    case Publish(range) =>
      Effect(Publishing(n, SetPending),
             Release(slot, 2 * n).(visible := true, sequence := n, original := range, cuts := []), c, pending)
    case SetPending => Effect(Publishing(n, CountSuccess), slot, c, pending + {SlotIndex(n)})
    case CountSuccess => Effect(Idle, slot, c.(successes := c.successes + 1), pending)
  }

  function ActSearching(range: Range, seen: set<nat>, k: nat, at: Search, i: nat, slot: Slot, c: Counters,
                        pending: set<nat>): Effect {
    match at
    case Scan =>
      if k >= SLOTS then Effect(CountingUnmatched, slot, c, pending)
      else if k !in seen || slot.state == 0 || Locked(slot.state)
          then Effect(Searching(range, seen, k + 1, Scan), slot, c, pending)
      else Effect(Searching(range, seen, k, Lock(slot.state)), slot, c, pending)
    case Lock(state) =>
      if slot.state != state then Effect(Searching(range, seen, k + 1, Scan), slot, c, pending)
      else Effect(Searching(range, seen, k, ReadStart(state)), Acquire(slot, i), c, pending)
    case ReadStart(state) => Effect(Searching(range, seen, k, ReadEnd(state, slot.start)), slot, c, pending)
    case ReadEnd(state, start) =>
      if range == Range(start, slot.end) then Effect(Changing(k, range, ClearFull), slot, c, pending)
      else if range.start == start && range.start < range.end < slot.end then
        Effect(Changing(k, range, Cut(state, true, range.end)), slot, c, pending)
      else if range.end == slot.end && start < range.start < range.end then
        Effect(Changing(k, range, Cut(state, false, range.start)), slot, c, pending)
      else Effect(Searching(range, seen, k, Unlock(state)), slot, c, pending)
    case Unlock(state) => Effect(Searching(range, seen, k + 1, Scan), Release(slot, state), c, pending)
  }

  function ActChanging(k: nat, range: Range, at: Change, slot: Slot, c: Counters, pending: set<nat>): Effect {
    match at
    case ClearFull => Effect(Changing(k, range, SubtractFull), slot.(visible := false), c, pending - {k})
    case SubtractFull =>
      Effect(Changing(k, range, ZeroFull), slot.(counted := false), c.(active := c.active - 1), pending)
    case ZeroFull => Effect(Changing(k, range, CountFull), Release(slot, 0), c, pending)
    case CountFull => Effect(Idle, slot, c.(fullRelease := c.fullRelease + 1), pending)
    case Cut(state, prefix, cut) =>
      Effect(Changing(k, range, CountSide(state, prefix)),
             (if prefix then slot.(start := cut) else slot.(end := cut)).(cuts := slot.cuts + [range]), c, pending)
    case CountSide(state, prefix) =>
      Effect(Changing(k, range, AddTrim(state)), slot,
             if prefix then c.(trimPrefix := c.trimPrefix + 1) else c.(trimSuffix := c.trimSuffix + 1), pending)
    case AddTrim(state) =>
      Effect(Changing(k, range, CountTrim(state, slot.trims)), slot.(trims := slot.trims + 1), c, pending)
    case CountTrim(state, prior) =>
      if prior == 0 then
        Effect(Changing(k, range, UnlockTrimmed(state)), slot, c.(trimFirst := c.trimFirst + 1), pending)
      else if prior == 1 then
        Effect(Changing(k, range, ClearTrimmed), slot, c.(trimSecond := c.trimSecond + 1), pending)
      else Effect(Changing(k, range, ClearTrimmed), slot, c.(trimExtra := c.trimExtra + 1), pending)
    case UnlockTrimmed(state) => Effect(Idle, Release(slot, state), c, pending)
    case ClearTrimmed => Effect(Changing(k, range, SubtractTrimmed), slot.(visible := false), c, pending - {k})
    case SubtractTrimmed =>
      Effect(Changing(k, range, ZeroTrimmed), slot.(counted := false), c.(active := c.active - 1), pending)
    case ZeroTrimmed => Effect(Idle, Release(slot, 0), c, pending)
  }

  /** The next step of thread `i`, which sees one slot, the counters and the mask. */
  function Act(t: Thread, i: nat, slot: Slot, c: Counters, pending: set<nat>, input: Input): Effect {
    match t
    case Idle => (
      match input
      case Begin =>
        Effect(Publishing(c.nextSequence + 1, CountAttempt), slot, c.(nextSequence := c.nextSequence + 1), pending)
      case Unmap(range) =>
        Effect(if pending == {} then LoadingAttempts else Searching(range, pending, 0, Scan), slot, c, pending)
      case _ => Effect(t, slot, c, pending))
    case Publishing(n, p) => ActPublishing(n, p, i, slot, c, pending, input)
    case Searching(range, seen, k, at) => ActSearching(range, seen, k, at, i, slot, c, pending)
    case Changing(k, range, at) => ActChanging(k, range, at, slot, c, pending)
    case LoadingAttempts => Effect(if c.attempts != 0 then CountingUnmatched else Idle, slot, c, pending)
    case CountingUnmatched => Effect(Idle, slot, c.(munmapUnmatched := c.munmapUnmatched + 1), pending)
  }

  function One(b: bool): int { if b then 1 else 0 }

  predicate Deciding(t: Thread) { t.Publishing? && t.publisher.Decide? }

  /** The step stores a zero state into a slot that was not empty. */
  predicate Empties(t: Thread, slot: Slot, e: Effect) { t.Changing? && slot.state != 0 && e.slot.state == 0 }

  /** What a step adds to the tally, read off its input and the words it changes. */
  function Observe(y: Tally, t: Thread, slot: Slot, e: Effect, input: Input): Tally {
    Tally(y.begun + One(t.Idle? && input.Begin?),
          y.selectFailed + One(Deciding(t) && input.SelectFails?),
          y.commitFailed + One(Deciding(t) && input.CommitFails?),
          y.succeeded + One(Deciding(t) && input.Succeed? && input.mapped.start < input.mapped.end),
          y.reported + One(t.Idle? && input.Unmap?),
          y.silent + One(t.LoadingAttempts? && e.thread.Idle?),
          y.overwritten + One(t.Publishing? && !Locked(slot.state) && slot.state != 0 && Locked(e.slot.state)),
          y.lost + One(t.Publishing? && t.publisher.TryLock? && t.publisher.left == 0),
          y.released + One(Empties(t, slot, e) && t.range == Range(slot.start, slot.end)),
          y.firstTrims + One(t.Changing? && Locked(slot.state) && !Locked(e.slot.state) && e.slot.state != 0),
          y.secondTrims + One(Empties(t, slot, e) && t.range != Range(slot.start, slot.end)),
          y.prefixCuts + One(t.Changing? && e.slot.start != slot.start),
          y.suffixCuts + One(t.Changing? && e.slot.end != slot.end))
  }

  function EndingOf(t: Thread, slot: Slot): Ending
    requires t.Changing?
  {
    if t.range == Range(slot.start, slot.end) then Ending(slot.sequence, slot.original, slot.cuts + [t.range], None)
    else Ending(slot.sequence, slot.original, slot.cuts, Some(Range(slot.start, slot.end)))
  }

  function Record(l: Log, t: Thread, slot: Slot, e: Effect, input: Input): Log {
    Log(if Deciding(t) && input.Succeed? && input.mapped.start < input.mapped.end
        then l.mapped + {(t.sequence, input.mapped)} else l.mapped,
        if t.Idle? && input.Unmap? then l.unmapped + {input.unmapped} else l.unmapped,
        if Empties(t, slot, e) then l.ended + {EndingOf(t, slot)} else l.ended)
  }

  function Step(s: State, i: nat, input: Input): (s': State)
    requires i < |s.threads| && |s.slots| == SLOTS
    ensures |s'.slots| == SLOTS && |s'.threads| == |s.threads|
  {
    var t := s.threads[i];
    var k := Touches(t);
    var slot := s.slots[k];
    var e := Act(t, i, slot, s.counters, s.pending, input);
    State(s.threads[i := e.thread], s.slots[k := e.slot], e.counters, e.pending,
          Observe(s.tally, t, slot, e, input), Record(s.log, t, slot, e, input))
  }

  /** Any number of threads, all idle, and empty slots. */
  function Boot(n: nat): State {
    State(seq(n, _ => Idle),
          seq(SLOTS, _ => Slot(0, 0, 0, 0, None, false, false, 0, Range(0, 0), [])),
          Counters(0, 0, 0, 0, 0, 0, 0, 0, 0, 0, 0, 0, 0, 0), {},
          Tally(0, 0, 0, 0, 0, 0, 0, 0, 0, 0, 0, 0, 0), Log({}, {}, {}))
  }

  function Run(s: State, schedule: seq<(nat, Input)>): (s': State)
    requires |s.slots| == SLOTS && forall j :: 0 <= j < |schedule| ==> schedule[j].0 < |s.threads|
    ensures |s'.slots| == SLOTS && |s'.threads| == |s.threads|
    decreases |schedule|
  {
    if schedule == [] then s else Run(Step(s, schedule[0].0, schedule[0].1), schedule[1..])
  }

  // ---------------------------------------------------------------- what holds of one thread and one slot

  /** The thread has set the low bit of the slot it touches and not yet stored an even state. */
  predicate Holding(t: Thread) {
    match t
    case Idle => false
    case Publishing(_, p) => p.CountActive? || p.StoreStart? || p.StoreEnd? || p.StoreTrims? || p.Publish?
    case Searching(_, _, _, at) => !at.Scan? && !at.Lock?
    case Changing(_, _, at) => !at.CountFull?
    case LoadingAttempts => false
    case CountingUnmatched => false
  }

  /** The range before `cut` was taken off one end of it. */
  function Rejoined(rest: Range, cut: Range): Range {
    if cut.end == rest.start then Range(cut.start, rest.end) else Range(rest.start, cut.end)
  }

  /** Taking the nonempty cuts off the ends of `whole`, one after the other, leaves the nonempty `rest`. */
  predicate CutsTo(whole: Range, cuts: seq<Range>, rest: Range) {
    && rest.start < rest.end
    && if cuts == [] then rest == whole
       else var cut := cuts[|cuts| - 1];
            && cut.start < cut.end && (cut.end == rest.start || cut.start == rest.end)
            && CutsTo(whole, cuts[..|cuts| - 1], Rejoined(rest, cut))
  }

  lemma CutsToMore(whole: Range, cuts: seq<Range>, rest: Range, cut: Range, less: Range)
    requires CutsTo(whole, cuts, rest)
    requires rest.start < rest.end && cut.start < cut.end && less.start < less.end
    requires (cut.start == rest.start && less == Range(cut.end, rest.end))
             || (cut.end == rest.end && less == Range(rest.start, cut.start))
    ensures CutsTo(whole, cuts + [cut], less)
  {
    assert (cuts + [cut])[..|cuts|] == cuts;
  }

  predicate In(x: int, r: Range) { r.start <= x < r.end }

  /** Every address of `whole` is in exactly one of the pieces, and no other address is. */
  ghost predicate Partition(whole: Range, pieces: seq<Range>) {
    && (forall x :: In(x, whole) <==> exists j :: 0 <= j < |pieces| && In(x, pieces[j]))
    && (forall x, j, l :: 0 <= j < l < |pieces| ==> !(In(x, pieces[j]) && In(x, pieces[l])))
  }

  /** The cuts and what they leave partition the whole. */
  lemma {:induction false} CutsPartition(whole: Range, cuts: seq<Range>, rest: Range)
    requires CutsTo(whole, cuts, rest)
    ensures Partition(whole, cuts + [rest])
    decreases |cuts|
  {
    if cuts == [] {
      assert (cuts + [rest])[0] == rest;
    } else {
      var last := |cuts| - 1;
      CutsPartition(whole, cuts[..last], Rejoined(rest, cuts[last]));
      PartitionSplits(whole, cuts[..last], cuts[last], rest);
      assert cuts[..last] + [cuts[last], rest] == cuts + [rest];
    }
  }

  /** Splitting the last piece in two keeps a partition. */
  lemma PartitionSplits(whole: Range, pieces: seq<Range>, cut: Range, rest: Range)
    requires Partition(whole, pieces + [Rejoined(rest, cut)])
    requires cut.start < cut.end && rest.start < rest.end && (cut.end == rest.start || cut.start == rest.end)
    ensures Partition(whole, pieces + [cut, rest])
  {
    var before, after, n := pieces + [Rejoined(rest, cut)], pieces + [cut, rest], |pieces|;
    assert before[n] == Rejoined(rest, cut) && after[n] == cut && after[n + 1] == rest;
    forall x
      ensures In(x, before[n]) <==> In(x, cut) || In(x, rest)
      ensures !(In(x, cut) && In(x, rest))
    {
    }
    forall x
      ensures In(x, whole) <==> exists j :: 0 <= j < |after| && In(x, after[j])
    {
      if j :| 0 <= j < |before| && In(x, before[j]) {
        if j < n {
          assert In(x, after[j]);
        } else {
          assert In(x, after[n]) || In(x, after[n + 1]);
        }
      }
      if j :| 0 <= j < |after| && In(x, after[j]) {
        assert In(x, before[if j < n then j else n]);
      }
    }
    forall x, j, l | 0 <= j < l < |after|
      ensures !(In(x, after[j]) && In(x, after[l]))
    {
      if j < n {
        assert !(In(x, before[j]) && In(x, before[if l < n then l else n]));
      }
    }
  }

  function Tracked(slot: Slot): Range { Range(slot.start, slot.end) }

  /** The cuts reported so far, at most one, leave the tracked range of the reservation. */
  predicate Tracks(slot: Slot) {
    slot.trims <= 1 && |slot.cuts| == slot.trims && CutsTo(slot.original, slot.cuts, Tracked(slot))
  }

  /** The range is cut, the trim is not counted yet. */
  predicate HalfTrimmed(slot: Slot, range: Range) {
    slot.trims <= 1 && LastCut(slot, range, slot.trims + 1)
  }

  /** The report of `range` was the last of `n` cuts. */
  predicate LastCut(slot: Slot, range: Range, n: nat) {
    n > 0 && |slot.cuts| == n && slot.cuts[n - 1] == range && CutsTo(slot.original, slot.cuts, Tracked(slot))
  }

  /** The range is all that is tracked, or a proper part of it at one end. */
  predicate Matches(range: Range, tracked: Range) {
    || range == tracked
    || (range.start == tracked.start && range.start < range.end < tracked.end)
    || (range.end == tracked.end && tracked.start < range.start < range.end)
  }

  predicate SlotOk(slot: Slot) {
    && (Locked(slot.state) <==> slot.owner.Some?)
    && (!Locked(slot.state) && slot.state == 0 ==> !slot.counted && !slot.visible)
    && (!Locked(slot.state) && slot.state != 0 ==>
          slot.state == 2 * slot.sequence && slot.counted && slot.visible && Tracks(slot))
  }

  predicate PublisherOk(p: Publisher, slot: Slot) {
    match p
    case LoadState(range) => range.start < range.end
    case TryLock(range, _, _) => range.start < range.end
    case CountActive(range, previous) =>
      range.start < range.end && slot.state == previous + 1 && !slot.visible && (slot.counted <==> previous != 0)
    case StoreStart(range) => range.start < range.end && slot.counted && !slot.visible
    case StoreEnd(range) => range.start < range.end && slot.counted && !slot.visible && slot.start == range.start
    case StoreTrims(range) => range.start < range.end && slot.counted && !slot.visible
        && range == Range(slot.start, slot.end)
    case Publish(range) =>
      range.start < range.end && slot.counted && !slot.visible && range == Range(slot.start, slot.end)
          && slot.trims == 0
    case _ => true
  }

  /** Locked over the state of its reservation, which is still counted and visible. */
  predicate Kept(slot: Slot, state: nat) {
    slot.state == state + 1 && state == 2 * slot.sequence && slot.sequence > 0 && slot.counted && slot.visible
  }

  predicate SearchOk(range: Range, at: Search, slot: Slot) {
    match at
    case Scan => true
    case Lock(state) => !Locked(state) && state != 0
    case ReadStart(state) => Kept(slot, state) && Tracks(slot)
    case ReadEnd(state, start) => Kept(slot, state) && Tracks(slot) && slot.start == start
    case Unlock(state) => Kept(slot, state) && Tracks(slot) && !Matches(range, Tracked(slot))
  }

  /** A full release in progress: the range is what the earlier cuts have left. */
  predicate Whole(range: Range, slot: Slot) {
    slot.state != 0 && slot.sequence > 0 && range == Tracked(slot) && Tracks(slot)
  }

  /** A second trim in progress. */
  predicate TrimmedTwice(range: Range, slot: Slot) {
    slot.state != 0 && slot.sequence > 0 && LastCut(slot, range, 2)
  }

  /** The slot stays in use at least until the trim is counted. */
  predicate Trimming(at: Change) { at.Cut? || at.CountSide? || at.AddTrim? || at.CountTrim? || at.UnlockTrimmed? }

  predicate ChangeOk(range: Range, at: Change, slot: Slot) {
    match at
    case Cut(state, prefix, cut) =>
      && Kept(slot, state) && Tracks(slot) && slot.start < cut < slot.end
      && range == if prefix then Range(slot.start, cut) else Range(cut, slot.end)
    case CountSide(state, _) => Kept(slot, state) && HalfTrimmed(slot, range)
    case AddTrim(state) => Kept(slot, state) && HalfTrimmed(slot, range)
    case CountTrim(state, prior) => Kept(slot, state) && prior <= 1 && slot.trims == prior + 1
        && LastCut(slot, range, prior + 1)
    case UnlockTrimmed(state) => Kept(slot, state) && Tracks(slot)
    case ClearFull => slot.counted && Whole(range, slot)
    case ClearTrimmed => slot.counted && TrimmedTwice(range, slot)
    case SubtractFull => slot.counted && !slot.visible && Whole(range, slot)
    case SubtractTrimmed => slot.counted && !slot.visible && TrimmedTwice(range, slot)
    case ZeroFull => !slot.counted && !slot.visible && Whole(range, slot)
    case ZeroTrimmed => !slot.counted && !slot.visible && TrimmedTwice(range, slot)
    case CountFull => true
  }

  /** What a thread knows about itself and, while it holds it, about its slot. */
  predicate Knows(t: Thread, slot: Slot) {
    match t
    case Idle => true
    case Publishing(n, p) => n > 0 && PublisherOk(p, slot)
    case Searching(range, _, k, at) => k <= SLOTS && (!at.Scan? ==> k < SLOTS) && SearchOk(range, at, slot)
    case Changing(k, range, at) => k < SLOTS && ChangeOk(range, at, slot)
    case LoadingAttempts => true
    case CountingUnmatched => true
  }

  /** What a step of thread `i` leaves behind in the thread and the slot it touches. */
  predicate StepOk(t: Thread, i: nat, slot: Slot, e: Effect) {
    && Knows(e.thread, e.slot)
    && SlotOk(e.slot)
    && (Holding(e.thread) ==> Touches(e.thread) == Touches(t))
    && e.slot.owner == (if Holding(e.thread) then Some(i) else if Holding(t) then None else slot.owner)
    && (!Holding(t) && e.slot != slot ==> slot.owner.None?)
  }

  lemma PublishingKeeps(n: nat, p: Publisher, i: nat, slot: Slot, c: Counters, pending: set<nat>, input: Input)
    requires Knows(Publishing(n, p), slot) && SlotOk(slot) && (Holding(Publishing(n, p)) <==> slot.owner == Some(i))
    ensures StepOk(Publishing(n, p), i, slot, ActPublishing(n, p, i, slot, c, pending, input))
  {
  }

  lemma SearchingKeeps(range: Range, seen: set<nat>, k: nat, at: Search, i: nat, slot: Slot, c: Counters,
                       pending: set<nat>)
    requires Knows(Searching(range, seen, k, at), slot) && SlotOk(slot)
    requires Holding(Searching(range, seen, k, at)) <==> slot.owner == Some(i)
    ensures StepOk(Searching(range, seen, k, at), i, slot, ActSearching(range, seen, k, at, i, slot, c, pending))
  {
  }

  lemma ChangingKeeps(k: nat, range: Range, at: Change, i: nat, slot: Slot, c: Counters, pending: set<nat>)
    requires Knows(Changing(k, range, at), slot) && SlotOk(slot)
    requires Holding(Changing(k, range, at)) <==> slot.owner == Some(i)
    ensures StepOk(Changing(k, range, at), i, slot, ActChanging(k, range, at, slot, c, pending))
  {
    if Trimming(at) {
      TrimKeeps(k, range, at, i, slot, c, pending);
    } else {
      ReleaseKeeps(k, range, at, i, slot, c, pending);
    }
  }

  lemma TrimKeeps(k: nat, range: Range, at: Change, i: nat, slot: Slot, c: Counters, pending: set<nat>)
    requires Knows(Changing(k, range, at), slot) && SlotOk(slot) && Trimming(at) && slot.owner == Some(i)
    ensures StepOk(Changing(k, range, at), i, slot, ActChanging(k, range, at, slot, c, pending))
  {
    if at.Cut? {
      CutKeeps(k, range, at, i, slot, c, pending);
    }
  }

  lemma CutKeeps(k: nat, range: Range, at: Change, i: nat, slot: Slot, c: Counters, pending: set<nat>)
    requires Knows(Changing(k, range, at), slot) && SlotOk(slot) && at.Cut? && slot.owner == Some(i)
    ensures StepOk(Changing(k, range, at), i, slot, ActChanging(k, range, at, slot, c, pending))
  {
    CutsToMore(slot.original, slot.cuts, Tracked(slot), range,
               if at.prefix then Range(at.at, slot.end) else Range(slot.start, at.at));
  }

  lemma ReleaseKeeps(k: nat, range: Range, at: Change, i: nat, slot: Slot, c: Counters, pending: set<nat>)
    requires Knows(Changing(k, range, at), slot) && SlotOk(slot) && !Trimming(at)
    requires Holding(Changing(k, range, at)) <==> slot.owner == Some(i)
    ensures StepOk(Changing(k, range, at), i, slot, ActChanging(k, range, at, slot, c, pending))
  {
  }

  lemma ActKeeps(t: Thread, i: nat, slot: Slot, c: Counters, pending: set<nat>, input: Input)
    requires Knows(t, slot) && SlotOk(slot) && (Holding(t) <==> slot.owner == Some(i))
    ensures StepOk(t, i, slot, Act(t, i, slot, c, pending, input))
  {
    match t
    case Idle =>
    case Publishing(n, p) => PublishingKeeps(n, p, i, slot, c, pending, input);
    case Searching(range, seen, k, at) => SearchingKeeps(range, seen, k, at, i, slot, c, pending);
    case Changing(k, range, at) => ChangingKeeps(k, range, at, i, slot, c, pending);
    case LoadingAttempts =>
    case CountingUnmatched =>
  }

  // ---------------------------------------------------------------- sums over all threads and slots

  /** Counters whose difference from what was observed is spread over the calls in progress. */
  datatype Measure =
    | Attempts | Ends | Successes | Evictions | Fulls | Firsts | Seconds | Prefixes | Suffixes | Reports | Books | Sides
    | Setters(slot: nat)

  /** How far a counter is ahead of what was observed. */
  function Gap(m: Measure, c: Counters, y: Tally): int {
    match m
    case Attempts => c.attempts - y.begun
    case Ends => c.attempts - c.selectEnomem - c.commitFailures - c.successes
    case Successes => c.successes - y.succeeded
    case Evictions => c.evictions - y.overwritten - y.lost
    case Fulls => c.fullRelease - y.released
    case Firsts => c.trimFirst - y.firstTrims
    case Seconds => c.trimSecond - y.secondTrims
    case Prefixes => c.trimPrefix - y.prefixCuts
    case Suffixes => c.trimSuffix - y.suffixCuts
    case Reports => c.fullRelease + c.trimFirst + c.trimSecond + c.munmapUnmatched + y.silent - y.reported
    case Books => c.active + c.evictions + c.fullRelease + c.trimSecond - c.successes
    case Sides => c.trimPrefix + c.trimSuffix - c.trimFirst - c.trimSecond - c.trimExtra
    case Setters(_) => 0
  }

  /** Counters that are stepped together with what they count, and one that never is. */
  predicate Exact(c: Counters, y: Tally) {
    && c.nextSequence == y.begun && c.selectEnomem == y.selectFailed && c.commitFailures == y.commitFailed
    && c.trimExtra == 0
  }

  function Weight(m: Measure, t: Thread): int {
    match t
    case Idle => 0
    case Publishing(n, p) => PublisherWeight(m, n, p)
    case Searching(_, _, _, _) => if m.Reports? then -1 else 0
    case Changing(_, _, at) => ChangeWeight(m, at)
    case LoadingAttempts => if m.Reports? then -1 else 0
    case CountingUnmatched => if m.Reports? then -1 else 0
  }

  function PublisherWeight(m: Measure, n: nat, p: Publisher): int {
    match m
    case Attempts => -One(p.CountAttempt?)
    case Ends => One(!p.CountAttempt?)
    case Successes => -One(!p.CountAttempt? && !p.Decide?)
    case Evictions => -One(p.CountEviction? || (p.CountActive? && p.previous != 0))
    case Books =>
      One(p.StoreStart? || p.StoreEnd? || p.StoreTrims? || p.Publish? || p.SetPending? || p.CountSuccess?)
    case Setters(k) => One(p.SetPending? && SlotIndex(n) == k)
    case _ => 0
  }

  function ChangeWeight(m: Measure, at: Change): int {
    match m
    case Fulls => -One(at.CountFull?)
    case Firsts => One(at.UnlockTrimmed?)
    case Seconds => One(at.ClearTrimmed? || at.SubtractTrimmed? || at.ZeroTrimmed?)
    case Prefixes => -One(at.CountSide? && at.prefix)
    case Suffixes => -One(at.CountSide? && !at.prefix)
    case Reports => -One(!at.UnlockTrimmed? && !at.ClearTrimmed? && !at.SubtractTrimmed? && !at.ZeroTrimmed?)
    case Books => One(at.ClearTrimmed? || at.SubtractTrimmed?) - One(at.ZeroFull? || at.CountFull?)
    case Sides => One(at.AddTrim? || at.CountTrim?)
    case _ => 0
  }

  function Total(m: Measure, threads: seq<Thread>): int {
    if threads == [] then 0 else Weight(m, threads[0]) + Total(m, threads[1..])
  }

  lemma {:induction false} TotalUpdate(m: Measure, threads: seq<Thread>, i: nat, t: Thread)
    requires i < |threads|
    ensures Total(m, threads[i := t]) == Total(m, threads) - Weight(m, threads[i]) + Weight(m, t)
    decreases |threads|
  {
    if i == 0 {
      assert threads[i := t][1..] == threads[1..];
    } else {
      TotalUpdate(m, threads[1..], i - 1, t);
      assert threads[i := t][1..] == threads[1..][i - 1 := t];
    }
  }

  lemma {:induction false} TotalIdle(m: Measure, threads: seq<Thread>)
    requires forall i :: 0 <= i < |threads| ==> threads[i].Idle?
    ensures Total(m, threads) == 0
    decreases |threads|
  {
    if threads != [] {
      TotalIdle(m, threads[1..]);
    }
  }

  lemma {:induction false} SettersNonNegative(k: nat, threads: seq<Thread>)
    ensures Total(Setters(k), threads) >= 0
    decreases |threads|
  {
    if threads != [] {
      SettersNonNegative(k, threads[1..]);
    }
  }

  function CountedIn(slots: seq<Slot>): nat {
    if slots == [] then 0 else (if slots[0].counted then 1 else 0) + CountedIn(slots[1..])
  }

  lemma {:induction false} CountedUpdate(slots: seq<Slot>, k: nat, slot: Slot)
    requires k < |slots|
    ensures CountedIn(slots[k := slot]) + (if slots[k].counted then 1 else 0)
              == CountedIn(slots) + (if slot.counted then 1 else 0)
    decreases |slots|
  {
    if k == 0 {
      assert slots[k := slot][1..] == slots[1..];
    } else {
      CountedUpdate(slots[1..], k - 1, slot);
      assert slots[k := slot][1..] == slots[1..][k - 1 := slot];
    }
  }

  /** The number of slots whose state is not zero. */
  function NonzeroIn(slots: seq<Slot>): nat {
    if slots == [] then 0 else (if slots[0].state != 0 then 1 else 0) + NonzeroIn(slots[1..])
  }

  lemma {:induction false} CountedIsNonzero(slots: seq<Slot>)
    requires forall k :: 0 <= k < |slots| ==> (slots[k].counted <==> slots[k].state != 0)
    ensures CountedIn(slots) == NonzeroIn(slots)
    decreases |slots|
  {
    if slots != [] {
      CountedIsNonzero(slots[1..]);
    }
  }

  lemma {:induction false} NoneCounted(slots: seq<Slot>)
    requires forall k :: 0 <= k < |slots| ==> !slots[k].counted
    ensures CountedIn(slots) == 0
    decreases |slots|
  {
    if slots != [] {
      NoneCounted(slots[1..]);
    }
  }

  /** A step changes a counter by what it does to the words and by what becomes of its call. */
  predicate Booked(m: Measure, t: Thread, slot: Slot, c: Counters, y: Tally, e: Effect, input: Input) {
    Gap(m, e.counters, Observe(y, t, slot, e, input)) - Gap(m, c, y) == Weight(m, e.thread) - Weight(m, t)
  }

  lemma PublishingBooks(m: Measure, n: nat, p: Publisher, i: nat, slot: Slot, c: Counters, y: Tally,
                        pending: set<nat>, input: Input)
    requires !m.Setters?
    ensures Booked(m, Publishing(n, p), slot, c, y, ActPublishing(n, p, i, slot, c, pending, input), input)
  {
    if p.CountAttempt? || p.Decide? || p.CountEviction? || p.CountSuccess? {
      CallBooks(m, n, p, i, slot, c, y, pending, input);
    } else {
      StoreBooks(m, n, p, i, slot, c, y, pending, input);
    }
  }

  lemma CallBooks(m: Measure, n: nat, p: Publisher, i: nat, slot: Slot, c: Counters, y: Tally, pending: set<nat>,
                  input: Input)
    requires !m.Setters?
    requires p.CountAttempt? || p.Decide? || p.CountEviction? || p.CountSuccess?
    ensures Booked(m, Publishing(n, p), slot, c, y, ActPublishing(n, p, i, slot, c, pending, input), input)
  {
  }

  lemma StoreBooks(m: Measure, n: nat, p: Publisher, i: nat, slot: Slot, c: Counters, y: Tally, pending: set<nat>,
                   input: Input)
    requires !m.Setters?
    requires !p.CountAttempt? && !p.Decide? && !p.CountEviction? && !p.CountSuccess?
    ensures Booked(m, Publishing(n, p), slot, c, y, ActPublishing(n, p, i, slot, c, pending, input), input)
  {
    StoreObserved(n, p, i, slot, c, y, pending, input);
    StoreGaps(m, n, p, i, slot, c, y, pending, input);
  }

  function StoreTally(y: Tally, p: Publisher, slot: Slot): Tally {
    if !p.TryLock? then y
    else if p.left == 0 then y.(lost := y.lost + 1)
    else if !Locked(p.previous) && slot.state == p.previous && slot.state != 0 then
      y.(overwritten := y.overwritten + 1)
    else y
  }

  lemma StoreObserved(n: nat, p: Publisher, i: nat, slot: Slot, c: Counters, y: Tally, pending: set<nat>, input: Input)
    requires !p.CountAttempt? && !p.Decide? && !p.CountEviction? && !p.CountSuccess?
    ensures Observe(y, Publishing(n, p), slot, ActPublishing(n, p, i, slot, c, pending, input), input)
            == StoreTally(y, p, slot)
  {
  }

  lemma StoreGaps(m: Measure, n: nat, p: Publisher, i: nat, slot: Slot, c: Counters, y: Tally, pending: set<nat>,
                  input: Input)
    requires !m.Setters?
    requires !p.CountAttempt? && !p.Decide? && !p.CountEviction? && !p.CountSuccess?
    ensures var e := ActPublishing(n, p, i, slot, c, pending, input);
            Gap(m, e.counters, StoreTally(y, p, slot)) - Gap(m, c, y)
            == Weight(m, e.thread) - Weight(m, Publishing(n, p))
  {
  }

  lemma SearchingBooks(m: Measure, range: Range, seen: set<nat>, k: nat, at: Search, i: nat, slot: Slot, c: Counters,
                       y: Tally, pending: set<nat>, input: Input)
    requires !m.Setters?
    ensures Booked(m, Searching(range, seen, k, at), slot, c, y,
                   ActSearching(range, seen, k, at, i, slot, c, pending), input)
  {
  }

  lemma ChangingBooks(m: Measure, k: nat, range: Range, at: Change, slot: Slot, c: Counters, y: Tally,
                      pending: set<nat>, input: Input)
    requires ChangeOk(range, at, slot) && !m.Setters?
    ensures Booked(m, Changing(k, range, at), slot, c, y, ActChanging(k, range, at, slot, c, pending), input)
  {
    ChangeOkFacts(range, at, slot);
    if Trimming(at) {
      TrimBooks(m, k, range, at, slot, c, y, pending, input);
    } else {
      ReleaseBooks(m, k, range, at, slot, c, y, pending, input);
    }
  }

  /** What the counting of a change depends on. */
  predicate ChangeFacts(range: Range, at: Change, slot: Slot) {
    match at
    case Cut(_, _, cut) => slot.start < cut < slot.end
    case CountTrim(_, prior) => prior <= 1
    case UnlockTrimmed(state) => Locked(slot.state) && !Locked(state) && state != 0
    case ZeroFull => slot.state != 0 && range == Tracked(slot)
    case ZeroTrimmed => slot.state != 0 && range != Tracked(slot)
    case _ => true
  }

  lemma ChangeOkFacts(range: Range, at: Change, slot: Slot)
    requires ChangeOk(range, at, slot)
    ensures ChangeFacts(range, at, slot)
  {
  }

  lemma TrimBooks(m: Measure, k: nat, range: Range, at: Change, slot: Slot, c: Counters, y: Tally, pending: set<nat>,
                  input: Input)
    requires ChangeFacts(range, at, slot) && !m.Setters? && Trimming(at)
    ensures Booked(m, Changing(k, range, at), slot, c, y, ActChanging(k, range, at, slot, c, pending), input)
  {
    TrimObserved(k, range, at, slot, c, y, pending, input);
    TrimGaps(m, k, range, at, slot, c, y, pending);
  }

  lemma TrimGaps(m: Measure, k: nat, range: Range, at: Change, slot: Slot, c: Counters, y: Tally, pending: set<nat>)
    requires ChangeFacts(range, at, slot) && !m.Setters? && Trimming(at)
    ensures var e := ActChanging(k, range, at, slot, c, pending);
            Gap(m, e.counters, TrimTally(y, at)) - Gap(m, c, y)
            == Weight(m, e.thread) - Weight(m, Changing(k, range, at))
  {
  }

  function TrimTally(y: Tally, at: Change): Tally {
    match at
    case Cut(_, prefix, _) =>
      if prefix then y.(prefixCuts := y.prefixCuts + 1) else y.(suffixCuts := y.suffixCuts + 1)
    case UnlockTrimmed(_) => y.(firstTrims := y.firstTrims + 1)
    case _ => y
  }

  lemma TrimObserved(k: nat, range: Range, at: Change, slot: Slot, c: Counters, y: Tally, pending: set<nat>,
                     input: Input)
    requires ChangeFacts(range, at, slot) && Trimming(at)
    ensures Observe(y, Changing(k, range, at), slot, ActChanging(k, range, at, slot, c, pending), input)
            == TrimTally(y, at)
  {
  }

  lemma ReleaseBooks(m: Measure, k: nat, range: Range, at: Change, slot: Slot, c: Counters, y: Tally,
                     pending: set<nat>, input: Input)
    requires ChangeFacts(range, at, slot) && !m.Setters? && !Trimming(at)
    ensures Booked(m, Changing(k, range, at), slot, c, y, ActChanging(k, range, at, slot, c, pending), input)
  {
    ReleaseObserved(k, range, at, slot, c, y, pending, input);
    ReleaseGaps(m, k, range, at, slot, c, y, pending);
  }

  function ReleaseTally(y: Tally, at: Change): Tally {
    match at
    case ZeroFull => y.(released := y.released + 1)
    case ZeroTrimmed => y.(secondTrims := y.secondTrims + 1)
    case _ => y
  }

  lemma ReleaseObserved(k: nat, range: Range, at: Change, slot: Slot, c: Counters, y: Tally, pending: set<nat>,
                        input: Input)
    requires ChangeFacts(range, at, slot) && !Trimming(at)
    ensures Observe(y, Changing(k, range, at), slot, ActChanging(k, range, at, slot, c, pending), input)
            == ReleaseTally(y, at)
  {
  }

  lemma ReleaseGaps(m: Measure, k: nat, range: Range, at: Change, slot: Slot, c: Counters, y: Tally, pending: set<nat>)
    requires ChangeFacts(range, at, slot) && !m.Setters? && !Trimming(at)
    ensures var e := ActChanging(k, range, at, slot, c, pending);
            Gap(m, e.counters, ReleaseTally(y, at)) - Gap(m, c, y)
            == Weight(m, e.thread) - Weight(m, Changing(k, range, at))
  {
  }

  /** Every counter follows what is observed, up to the calls in progress; `active` follows the slots. */
  lemma ActBooks(m: Measure, t: Thread, i: nat, slot: Slot, c: Counters, y: Tally, pending: set<nat>, input: Input)
    requires Knows(t, slot) && !m.Setters?
    ensures Booked(m, t, slot, c, y, Act(t, i, slot, c, pending, input), input)
  {
    match t
    case Idle =>
    case Publishing(n, p) => PublishingBooks(m, n, p, i, slot, c, y, pending, input);
    case Searching(range, seen, k, at) => SearchingBooks(m, range, seen, k, at, i, slot, c, y, pending, input);
    case Changing(k, range, at) => ChangingBooks(m, k, range, at, slot, c, y, pending, input);
    case LoadingAttempts =>
    case CountingUnmatched =>
  }

  lemma ActExact(t: Thread, i: nat, slot: Slot, c: Counters, y: Tally, pending: set<nat>, input: Input)
    requires Knows(t, slot) && Exact(c, y)
    ensures var e := Act(t, i, slot, c, pending, input);
            Exact(e.counters, Observe(y, t, slot, e, input))
  {
  }

  lemma ActCounts(t: Thread, i: nat, slot: Slot, c: Counters, pending: set<nat>, input: Input)
    requires Knows(t, slot)
    ensures var e := Act(t, i, slot, c, pending, input);
            e.counters.active - c.active == One(e.slot.counted) - One(slot.counted)
  {
  }

  /** What one step does to the mask and to those about to set a bit of it. */
  lemma ActPending(t: Thread, i: nat, slot: Slot, c: Counters, pending: set<nat>, input: Input, k: nat)
    requires Knows(t, slot)
    ensures var e := Act(t, i, slot, c, pending, input);
      && (k != Touches(t) ==>
            (k in e.pending <==> k in pending) && Weight(Setters(k), e.thread) == Weight(Setters(k), t))
      && (k == Touches(t) && e.slot.visible ==>
            || k in e.pending
            || Weight(Setters(k), e.thread) == 1
            || (slot.visible && k !in pending && Weight(Setters(k), e.thread) == Weight(Setters(k), t)))
      && (k == Touches(t) && t.Changing? && slot.visible && !e.slot.visible ==> k !in e.pending)
  {
  }

  // ---------------------------------------------------------------- the invariant

  ghost predicate ThreadOk(s: State, i: nat)
    requires |s.slots| == SLOTS && i < |s.threads|
  {
    var t := s.threads[i];
    Knows(t, s.slots[Touches(t)]) && (Holding(t) ==> s.slots[Touches(t)].owner == Some(i))
  }

  ghost predicate OwnerOk(s: State, k: nat)
    requires |s.slots| == SLOTS && k < SLOTS
  {
    && SlotOk(s.slots[k])
    && (s.slots[k].owner.Some? ==>
          var i := s.slots[k].owner.value;
          i < |s.threads| && Holding(s.threads[i]) && Touches(s.threads[i]) == k)
  }

  /** A visible reservation has its bit in the mask, or a thread is about to set it. */
  ghost predicate PendingOk(s: State, k: nat)
    requires |s.slots| == SLOTS && k < SLOTS
  {
    s.slots[k].visible ==> k in s.pending || Total(Setters(k), s.threads) > 0
  }

  ghost predicate Balanced(s: State, m: Measure) {
    Gap(m, s.counters, s.tally) == Total(m, s.threads)
  }

  ghost predicate SumsOk(s: State) {
    && s.counters.active == CountedIn(s.slots)
    && Exact(s.counters, s.tally)
    && forall m: Measure :: !m.Setters? ==> Balanced(s, m)
  }

  ghost predicate Inv(s: State) {
    && |s.slots| == SLOTS
    && (forall i: nat :: i < |s.threads| ==> ThreadOk(s, i))
    && (forall k: nat :: k < SLOTS ==> OwnerOk(s, k))
    && (forall k: nat :: k < SLOTS ==> PendingOk(s, k))
    && SumsOk(s)
  }

  lemma BootInv(n: nat)
    ensures Inv(Boot(n))
  {
    var s := Boot(n);
    forall m: Measure | !m.Setters?
      ensures Balanced(s, m)
    {
      TotalIdle(m, s.threads);
    }
    NoneCounted(s.slots);
  }

  lemma StepKeepsThreads(s: State, i: nat, input: Input, j: nat)
    requires Inv(s) && i < |s.threads| && j < |s.threads|
    ensures ThreadOk(Step(s, i, input), j)
  {
    var t := s.threads[i];
    var k := Touches(t);
    var e := Act(t, i, s.slots[k], s.counters, s.pending, input);
    assert ThreadOk(s, i) && ThreadOk(s, j) && OwnerOk(s, k);
    ActKeeps(t, i, s.slots[k], s.counters, s.pending, input);
    if j != i {
      OthersUntouched(s, i, j, e);
    } else {
      KnowsElsewhere(e.thread, e.slot, s.slots[k := e.slot][Touches(e.thread)]);
    }
  }

  lemma StepKeepsOwners(s: State, i: nat, input: Input, l: nat)
    requires Inv(s) && i < |s.threads| && l < SLOTS
    ensures OwnerOk(Step(s, i, input), l)
  {
    var t := s.threads[i];
    var k := Touches(t);
    assert ThreadOk(s, i) && OwnerOk(s, k) && OwnerOk(s, l);
    ActKeeps(t, i, s.slots[k], s.counters, s.pending, input);
  }

  /** A thread that does not hold a slot knows nothing about any. */
  lemma KnowsElsewhere(t: Thread, slot: Slot, other: Slot)
    requires Knows(t, slot) && (Holding(t) ==> other == slot)
    ensures Knows(t, other)
  {
  }

  lemma OthersUntouched(s: State, i: nat, j: nat, e: Effect)
    requires |s.slots| == SLOTS && i < |s.threads| && j < |s.threads| && i != j
    requires ThreadOk(s, j) && OwnerOk(s, Touches(s.threads[i])) && ThreadOk(s, i)
    requires StepOk(s.threads[i], i, s.slots[Touches(s.threads[i])], e)
    ensures ThreadOk(s.(threads := s.threads[i := e.thread], slots := s.slots[Touches(s.threads[i]) := e.slot]), j)
  {
    var k := Touches(s.threads[i]);
    var slots := s.slots[k := e.slot];
    var t := s.threads[j];
    if Touches(t) == k && !Holding(t) {
      KnowsElsewhere(t, s.slots[k], e.slot);
    }
  }

  lemma StepKeepsPending(s: State, i: nat, input: Input, k: nat)
    requires Inv(s) && i < |s.threads| && k < SLOTS
    ensures PendingOk(Step(s, i, input), k)
  {
    var t := s.threads[i];
    var e := Act(t, i, s.slots[Touches(t)], s.counters, s.pending, input);
    assert ThreadOk(s, i) && PendingOk(s, k);
    ActPending(t, i, s.slots[Touches(t)], s.counters, s.pending, input, k);
    TotalUpdate(Setters(k), s.threads, i, e.thread);
    TotalUpdate(Setters(k), s.threads, i, Idle);
    SettersNonNegative(k, s.threads[i := Idle]);
  }

  lemma StepKeepsSums(s: State, i: nat, input: Input)
    requires Inv(s) && i < |s.threads|
    ensures SumsOk(Step(s, i, input))
  {
    var t := s.threads[i];
    var k := Touches(t);
    var e := Act(t, i, s.slots[k], s.counters, s.pending, input);
    assert ThreadOk(s, i);
    ActCounts(t, i, s.slots[k], s.counters, s.pending, input);
    ActExact(t, i, s.slots[k], s.counters, s.tally, s.pending, input);
    CountedUpdate(s.slots, k, e.slot);
    forall m: Measure | !m.Setters?
      ensures Balanced(Step(s, i, input), m)
    {
      assert Balanced(s, m);
      ActBooks(m, t, i, s.slots[k], s.counters, s.tally, s.pending, input);
      TotalUpdate(m, s.threads, i, e.thread);
    }
  }

  /** Every step of every thread keeps the invariant. */
  lemma StepKeeps(s: State, i: nat, input: Input)
    requires Inv(s) && i < |s.threads|
    ensures Inv(Step(s, i, input))
  {
    forall j: nat | j < |s.threads|
      ensures ThreadOk(Step(s, i, input), j)
    {
      StepKeepsThreads(s, i, input, j);
    }
    forall k: nat | k < SLOTS
      ensures OwnerOk(Step(s, i, input), k) && PendingOk(Step(s, i, input), k)
    {
      StepKeepsOwners(s, i, input, k);
      StepKeepsPending(s, i, input, k);
    }
    StepKeepsSums(s, i, input);
  }

  lemma {:induction false} RunKeeps(s: State, schedule: seq<(nat, Input)>)
    requires Inv(s) && forall j :: 0 <= j < |schedule| ==> schedule[j].0 < |s.threads|
    ensures Inv(Run(s, schedule))
    decreases |schedule|
  {
    if schedule != [] {
      StepKeeps(s, schedule[0].0, schedule[0].1);
      RunKeeps(Step(s, schedule[0].0, schedule[0].1), schedule[1..]);
    }
  }

  // ---------------------------------------------------------------- what is held is what was reported

  predicate ThreadLogged(t: Thread, l: Log) {
    match t
    case Publishing(n, p) => (
      match p
      case LoadState(range) => (n, range) in l.mapped
      case TryLock(range, _, _) => (n, range) in l.mapped
      case CountActive(range, _) => (n, range) in l.mapped
      case StoreStart(range) => (n, range) in l.mapped
      case StoreEnd(range) => (n, range) in l.mapped
      case StoreTrims(range) => (n, range) in l.mapped
      case Publish(range) => (n, range) in l.mapped
      case _ => true)
    case Searching(range, _, _, _) => range in l.unmapped
    case Changing(_, range, _) => range in l.unmapped
    case _ => true
  }

  ghost predicate SlotLogged(slot: Slot, k: nat, l: Log) {
    slot.sequence > 0 ==> && SlotIndex(slot.sequence) == k && (slot.sequence, slot.original) in l.mapped
                          && forall cut :: cut in slot.cuts ==> cut in l.unmapped
  }

  /** One report of all that was left, or a second trim. */
  ghost predicate EndingLogged(x: Ending, l: Log) {
    && x.sequence > 0 && (x.sequence, x.original) in l.mapped && (forall part :: part in x.parts ==> part in l.unmapped)
    && if x.rest.None?
       then 0 < |x.parts| <= 2 && CutsTo(x.original, x.parts[..|x.parts| - 1], x.parts[|x.parts| - 1])
       else |x.parts| == 2 && CutsTo(x.original, x.parts, x.rest.value)
  }

  predicate Extends(l: Log, l': Log) {
    l.mapped <= l'.mapped && l.unmapped <= l'.unmapped
  }

  lemma ActLogs(t: Thread, i: nat, slot: Slot, c: Counters, pending: set<nat>, input: Input, l: Log)
    requires Knows(t, slot) && ThreadLogged(t, l) && SlotLogged(slot, Touches(t), l)
    ensures var e := Act(t, i, slot, c, pending, input);
            var l' := Record(l, t, slot, e, input);
            Extends(l, l') && ThreadLogged(e.thread, l') && SlotLogged(e.slot, Touches(t), l')
  {
  }

  lemma EmptiedLogs(t: Thread, i: nat, slot: Slot, c: Counters, pending: set<nat>, input: Input, l: Log)
    requires Knows(t, slot) && ThreadLogged(t, l) && SlotLogged(slot, Touches(t), l)
    requires Empties(t, slot, Act(t, i, slot, c, pending, input))
    ensures EndingLogged(EndingOf(t, slot), l)
  {
    assert t.change.ZeroFull? || t.change.ZeroTrimmed?;
    var parts := slot.cuts + [t.range];
    assert parts[..|slot.cuts|] == slot.cuts;
  }

  ghost predicate LogOk(s: State) {
    && |s.slots| == SLOTS
    && (forall i :: 0 <= i < |s.threads| ==> ThreadLogged(s.threads[i], s.log))
    && (forall k: nat :: k < SLOTS ==> SlotLogged(s.slots[k], k, s.log))
    && (forall x :: x in s.log.ended ==> EndingLogged(x, s.log))
  }

  /** What has been logged stays logged. */
  lemma LoggedLater(t: Thread, slot: Slot, k: nat, l: Log, l': Log)
    requires Extends(l, l')
    ensures ThreadLogged(t, l) ==> ThreadLogged(t, l')
    ensures SlotLogged(slot, k, l) ==> SlotLogged(slot, k, l')
  {
  }

  lemma StepKeepsEndings(s: State, i: nat, input: Input, x: Ending)
    requires Inv(s) && LogOk(s) && i < |s.threads| && x in Step(s, i, input).log.ended
    ensures EndingLogged(x, Step(s, i, input).log)
  {
    var t := s.threads[i];
    var k := Touches(t);
    assert ThreadOk(s, i) && SlotLogged(s.slots[k], k, s.log);
    EndingRecorded(t, i, s.slots[k], s.counters, s.pending, input, s.log, x);
  }

  lemma EndingLater(x: Ending, l: Log, l': Log)
    requires EndingLogged(x, l) && Extends(l, l')
    ensures EndingLogged(x, l')
  {
  }

  lemma EndingRecorded(t: Thread, i: nat, slot: Slot, c: Counters, pending: set<nat>, input: Input, l: Log, x: Ending)
    requires Knows(t, slot) && ThreadLogged(t, l) && SlotLogged(slot, Touches(t), l)
    requires x in l.ended ==> EndingLogged(x, l)
    requires x in Record(l, t, slot, Act(t, i, slot, c, pending, input), input).ended
    ensures EndingLogged(x, Record(l, t, slot, Act(t, i, slot, c, pending, input), input))
  {
    var e := Act(t, i, slot, c, pending, input);
    var l' := Record(l, t, slot, e, input);
    ActLogs(t, i, slot, c, pending, input, l);
    if x !in l.ended {
      assert Empties(t, slot, e) && x == EndingOf(t, slot);
      EmptiedLogs(t, i, slot, c, pending, input, l);
    }
    EndingLater(x, l, l');
  }

  lemma StepKeepsLog(s: State, i: nat, input: Input)
    requires Inv(s) && LogOk(s) && i < |s.threads|
    ensures LogOk(Step(s, i, input))
  {
    var t, s' := s.threads[i], Step(s, i, input);
    var k := Touches(t);
    assert ThreadOk(s, i) && SlotLogged(s.slots[k], k, s.log);
    ActLogs(t, i, s.slots[k], s.counters, s.pending, input, s.log);
    forall j | 0 <= j < |s.threads|
      ensures ThreadLogged(s'.threads[j], s'.log)
    {
      LoggedLater(s.threads[j], s.slots[k], k, s.log, s'.log);
    }
    forall l: nat | l < SLOTS
      ensures SlotLogged(s'.slots[l], l, s'.log)
    {
      LoggedLater(t, s.slots[l], l, s.log, s'.log);
    }
    forall x | x in s'.log.ended
      ensures EndingLogged(x, s'.log)
    {
      StepKeepsEndings(s, i, input, x);
    }
  }

  /** Every sequence number belongs to one attempt, which reports at most one range under it. */
  ghost predicate Unique(s: State) {
    && (forall i :: 0 <= i < |s.threads| && s.threads[i].Publishing? ==>
          && 0 < s.threads[i].sequence <= s.counters.nextSequence
          && (s.threads[i].publisher.CountAttempt? || s.threads[i].publisher.Decide? ==>
                forall p :: p in s.log.mapped ==> p.0 != s.threads[i].sequence))
    && (forall i, j :: 0 <= i < j < |s.threads| && s.threads[i].Publishing? && s.threads[j].Publishing? ==>
          s.threads[i].sequence != s.threads[j].sequence)
    && (forall p :: p in s.log.mapped ==> p.0 <= s.counters.nextSequence)
    && (forall p, q :: p in s.log.mapped && q in s.log.mapped && p.0 == q.0 ==> p == q)
  }

  /** A step begins an attempt under a new number, ends it or goes on with it. */
  lemma ActSequence(t: Thread, i: nat, slot: Slot, c: Counters, pending: set<nat>, input: Input, l: Log)
    ensures var e := Act(t, i, slot, c, pending, input);
            var l' := Record(l, t, slot, e, input);
            && c.nextSequence <= e.counters.nextSequence
            && (e.thread.Publishing? ==>
                  if t.Publishing? then e.thread.sequence == t.sequence
                  else e.thread.sequence == c.nextSequence + 1 == e.counters.nextSequence)
            && (e.thread.Publishing? && (e.thread.publisher.CountAttempt? || e.thread.publisher.Decide?) ==>
                  l'.mapped == l.mapped
                  && (t.Publishing? ==> t.publisher.CountAttempt? || t.publisher.Decide?))
            && (l'.mapped != l.mapped ==>
                  Deciding(t) && input.Succeed? && l'.mapped == l.mapped + {(t.sequence, input.mapped)})
  {
  }

  lemma StepKeepsUnique(s: State, i: nat, input: Input)
    requires |s.slots| == SLOTS && Unique(s) && i < |s.threads|
    ensures Unique(Step(s, i, input))
  {
    var t := s.threads[i];
    ActSequence(t, i, s.slots[Touches(t)], s.counters, s.pending, input, s.log);
  }

  lemma {:induction false} RunKeepsLog(s: State, schedule: seq<(nat, Input)>)
    requires Inv(s) && LogOk(s) && Unique(s) && forall j :: 0 <= j < |schedule| ==> schedule[j].0 < |s.threads|
    ensures LogOk(Run(s, schedule)) && Unique(Run(s, schedule))
    decreases |schedule|
  {
    if schedule != [] {
      StepKeeps(s, schedule[0].0, schedule[0].1);
      StepKeepsLog(s, schedule[0].0, schedule[0].1);
      StepKeepsUnique(s, schedule[0].0, schedule[0].1);
      RunKeepsLog(Step(s, schedule[0].0, schedule[0].1), schedule[1..]);
    }
  }

  lemma {:induction false} ReachableLog(n: nat, schedule: seq<(nat, Input)>)
    requires forall j :: 0 <= j < |schedule| ==> schedule[j].0 < n
    ensures LogOk(Run(Boot(n), schedule)) && Unique(Run(Boot(n), schedule))
  {
    BootInv(n);
    RunKeepsLog(Boot(n), schedule);
  }

  /** The log holds nothing but what the inputs of the run reported. */
  lemma {:induction false} LogIsReported(s: State, schedule: seq<(nat, Input)>, range: Range)
    requires |s.slots| == SLOTS && forall j :: 0 <= j < |schedule| ==> schedule[j].0 < |s.threads|
    ensures range in Run(s, schedule).log.unmapped ==>
              range in s.log.unmapped || exists j :: 0 <= j < |schedule| && schedule[j].1 == Unmap(range)
    ensures forall n :: (n, range) in Run(s, schedule).log.mapped ==>
              (n, range) in s.log.mapped || exists j :: 0 <= j < |schedule| && schedule[j].1 == Succeed(range)
    decreases |schedule|
  {
    if schedule != [] {
      var next := Step(s, schedule[0].0, schedule[0].1);
      LogIsReported(next, schedule[1..], range);
      assert forall j :: 0 < j < |schedule| ==> schedule[j] == schedule[1..][j - 1];
    }
  }

  // ---------------------------------------------------------------- the main results

  /** No call is in progress. */
  predicate Quiescent(s: State) {
    forall i :: 0 <= i < |s.threads| ==> s.threads[i].Idle?
  }

  lemma QuiescentGap(s: State, m: Measure)
    requires Inv(s) && Quiescent(s) && !m.Setters?
    ensures Gap(m, s.counters, s.tally) == 0
  {
    assert Balanced(s, m);
    TotalIdle(m, s.threads);
  }

  lemma QuiescentActive(s: State)
    requires Inv(s) && Quiescent(s)
    ensures s.counters.active == NonzeroIn(s.slots)
  {
    forall k: nat | k < SLOTS
      ensures s.slots[k].counted <==> s.slots[k].state != 0
    {
      assert OwnerOk(s, k);
    }
    CountedIsNonzero(s.slots);
  }

  lemma {:induction false} Reachable(n: nat, schedule: seq<(nat, Input)>)
    requires forall j :: 0 <= j < |schedule| ==> schedule[j].0 < n
    ensures Inv(Run(Boot(n), schedule))
  {
    BootInv(n);
    RunKeeps(Boot(n), schedule);
  }

  /**
   At every quiescent point of every interleaving of any number of threads each counter is the number of calls that
   ended in its way, or of the changes of the words that it stands for, and the counters balance.
   */
  lemma {:induction false} QuiescentBalance(n: nat, schedule: seq<(nat, Input)>)
    requires forall j :: 0 <= j < |schedule| ==> schedule[j].0 < n
    requires Quiescent(Run(Boot(n), schedule))
    ensures var s := Run(Boot(n), schedule);
      var c, y := s.counters, s.tally;
      && c.nextSequence == c.attempts == y.begun
      && c.selectEnomem == y.selectFailed && c.commitFailures == y.commitFailed && c.successes == y.succeeded
      && c.attempts == c.successes + c.selectEnomem + c.commitFailures
      && c.evictions == y.overwritten + y.lost && c.fullRelease == y.released
      && c.successes == c.active + c.evictions + c.fullRelease + c.trimSecond
      && c.active == NonzeroIn(s.slots)
      && c.trimFirst == y.firstTrims && c.trimSecond == y.secondTrims && c.trimExtra == 0
      && c.trimPrefix == y.prefixCuts && c.trimSuffix == y.suffixCuts
      && c.trimPrefix + c.trimSuffix == c.trimFirst + c.trimSecond
      && y.reported == c.fullRelease + c.trimFirst + c.trimSecond + c.munmapUnmatched + y.silent
  {
    Reachable(n, schedule);
    QuiescentCounters(Run(Boot(n), schedule));
  }

  lemma QuiescentCounters(s: State)
    requires Inv(s) && Quiescent(s)
    ensures var c, y := s.counters, s.tally;
      && c.nextSequence == c.attempts == y.begun
      && c.selectEnomem == y.selectFailed && c.commitFailures == y.commitFailed && c.successes == y.succeeded
      && c.attempts == c.successes + c.selectEnomem + c.commitFailures
      && c.evictions == y.overwritten + y.lost && c.fullRelease == y.released
      && c.successes == c.active + c.evictions + c.fullRelease + c.trimSecond
      && c.active == NonzeroIn(s.slots)
      && c.trimFirst == y.firstTrims && c.trimSecond == y.secondTrims && c.trimExtra == 0
      && c.trimPrefix == y.prefixCuts && c.trimSuffix == y.suffixCuts
      && c.trimPrefix + c.trimSuffix == c.trimFirst + c.trimSecond
      && y.reported == c.fullRelease + c.trimFirst + c.trimSecond + c.munmapUnmatched + y.silent
  {
    QuiescentGap(s, Attempts);
    QuiescentGap(s, Ends);
    QuiescentGap(s, Successes);
    QuiescentGap(s, Evictions);
    QuiescentGap(s, Fulls);
    QuiescentGap(s, Firsts);
    QuiescentGap(s, Seconds);
    QuiescentGap(s, Prefixes);
    QuiescentGap(s, Suffixes);
    QuiescentGap(s, Reports);
    QuiescentGap(s, Books);
    QuiescentGap(s, Sides);
    QuiescentActive(s);
  }

  /**
   At every quiescent point a slot in use tracks a reservation that was reported under its sequence number. The range
   it tracks and the ranges unmapped from it since partition that reservation, and a later unmapping will find it.
   */
  lemma {:induction false} QuiescentRanges(n: nat, schedule: seq<(nat, Input)>, k: nat)
    requires k < SLOTS && forall j :: 0 <= j < |schedule| ==> schedule[j].0 < n
    requires Quiescent(Run(Boot(n), schedule)) && Run(Boot(n), schedule).slots[k].state != 0
    ensures var s := Run(Boot(n), schedule);
      var slot := s.slots[k];
      && slot.state == 2 * slot.sequence && slot.sequence > 0 && k == (slot.sequence - 1) % 16 && k in s.pending
      && (slot.sequence, slot.original) in s.log.mapped
      && |slot.cuts| == slot.trims <= 1 && (forall cut :: cut in slot.cuts ==> cut in s.log.unmapped)
      && slot.start < slot.end && Partition(slot.original, slot.cuts + [Range(slot.start, slot.end)])
  {
    Reachable(n, schedule);
    ReachableLog(n, schedule);
    SlotAtRest(Run(Boot(n), schedule), k);
  }

  lemma SlotAtRest(s: State, k: nat)
    requires Inv(s) && LogOk(s) && Quiescent(s) && k < SLOTS && s.slots[k].state != 0
    ensures var slot := s.slots[k];
      && slot.state == 2 * slot.sequence && slot.sequence > 0 && k == (slot.sequence - 1) % 16 && k in s.pending
      && (slot.sequence, slot.original) in s.log.mapped
      && |slot.cuts| == slot.trims <= 1 && (forall cut :: cut in slot.cuts ==> cut in s.log.unmapped)
      && slot.start < slot.end && Partition(slot.original, slot.cuts + [Range(slot.start, slot.end)])
  {
    var slot := s.slots[k];
    assert OwnerOk(s, k) && PendingOk(s, k) && SlotLogged(slot, k, s.log);
    TotalIdle(Setters(k), s.threads);
    CutsPartition(slot.original, slot.cuts, Tracked(slot));
  }

  /**
   Whenever a slot has been emptied its reservation had been reported, and the reported unmappings partition it
   completely, or there were two of them and they and the rest, which is no longer tracked, partition it.
   */
  lemma {:induction false} EndedReservations(n: nat, schedule: seq<(nat, Input)>, x: Ending)
    requires forall j :: 0 <= j < |schedule| ==> schedule[j].0 < n
    requires x in Run(Boot(n), schedule).log.ended
    ensures var l := Run(Boot(n), schedule).log;
      && (x.sequence, x.original) in l.mapped && (forall part :: part in x.parts ==> part in l.unmapped)
      && (x.rest.None? ==> Partition(x.original, x.parts))
      && (x.rest.Some? ==> |x.parts| == 2 && Partition(x.original, x.parts + [x.rest.value]))
  {
    ReachableLog(n, schedule);
    var l := Run(Boot(n), schedule).log;
    assert EndingLogged(x, l);
    if x.rest.None? {
      var last := |x.parts| - 1;
      CutsPartition(x.original, x.parts[..last], x.parts[last]);
      assert x.parts[..last] + [x.parts[last]] == x.parts;
    } else {
      CutsPartition(x.original, x.parts, x.rest.value);
    }
  }

  /** Two reservations never have the same sequence number. */
  lemma {:induction false} SequencesAreUnique(n: nat, schedule: seq<(nat, Input)>, sequence: nat, r: Range, r': Range)
    requires forall j :: 0 <= j < |schedule| ==> schedule[j].0 < n
    requires (sequence, r) in Run(Boot(n), schedule).log.mapped && (sequence, r') in Run(Boot(n), schedule).log.mapped
    ensures r == r'
  {
    ReachableLog(n, schedule);
  }

  /**
   A report goes on to the next slot only because its bit was not set, the slot was empty or locked or changed
   in between, or the reported range is not at an end of what the slot tracks.
   */
  lemma ReportPassesBy(range: Range, seen: set<nat>, k: nat, at: Search, i: nat, slot: Slot, c: Counters,
                       pending: set<nat>)
    requires Knows(Searching(range, seen, k, at), slot)
    requires ActSearching(range, seen, k, at, i, slot, c, pending).thread == Searching(range, seen, k + 1, Scan)
    ensures match at
            case Scan => k !in seen || slot.state == 0 || Locked(slot.state)
            case Lock(state) => slot.state != state
            case ReadStart(_) => false
            case ReadEnd(_, _) => false
            case Unlock(_) => !Matches(range, Range(slot.start, slot.end))
  {
  }

  /**
   At every step: a slot has at most one holder, the low bit is set exactly while it has one, and `active` is no
   underflow.
   */
  lemma {:induction false} MutualExclusion(n: nat, schedule: seq<(nat, Input)>, i: nat, j: nat)
    requires i < n && j < n && forall l :: 0 <= l < |schedule| ==> schedule[l].0 < n
    ensures var s := Run(Boot(n), schedule);
      && 0 <= s.counters.active <= SLOTS
      && (Holding(s.threads[i]) ==> Locked(s.slots[Touches(s.threads[i])].state))
      && (Holding(s.threads[i]) && Holding(s.threads[j]) && Touches(s.threads[i]) == Touches(s.threads[j]) ==> i == j)
  {
    BootInv(n);
    RunKeeps(Boot(n), schedule);
    var s := Run(Boot(n), schedule);
    assert ThreadOk(s, i) && ThreadOk(s, j) && OwnerOk(s, Touches(s.threads[i]));
    CountedBound(s.slots);
  }

  lemma {:induction false} CountedBound(slots: seq<Slot>)
    ensures CountedIn(slots) <= |slots|
    decreases |slots|
  {
    if slots != [] {
      CountedBound(slots[1..]);
    }
  }

  // ---------------------------------------------------------------- calls that nothing interrupts

  /** `m` steps of a thread alone, on the slot it touches. */
  function Alone(t: Thread, i: nat, slot: Slot, c: Counters, pending: set<nat>, m: nat): Effect
    decreases m
  {
    if m == 0 then Effect(t, slot, c, pending)
    else
      var e := Act(t, i, slot, c, pending, Begin);
      Alone(e.thread, i, e.slot, e.counters, e.pending, m - 1)
  }

  /** All of these steps touch the slot `k`. */
  predicate Stays(t: Thread, i: nat, slot: Slot, c: Counters, pending: set<nat>, m: nat, k: nat)
    decreases m
  {
    m > 0 ==>
      var e := Act(t, i, slot, c, pending, Begin);
      Touches(t) == k && Stays(e.thread, i, e.slot, e.counters, e.pending, m - 1, k)
  }

  lemma OneMore(t: Thread, i: nat, slot: Slot, c: Counters, pending: set<nat>, m: nat, k: nat)
    ensures var e := Act(t, i, slot, c, pending, Begin);
            && Alone(t, i, slot, c, pending, m + 1) == Alone(e.thread, i, e.slot, e.counters, e.pending, m)
            && (Stays(t, i, slot, c, pending, m + 1, k)
                <==> Touches(t) == k && Stays(e.thread, i, e.slot, e.counters, e.pending, m, k))
  {
  }

  function Turns(i: nat, m: nat): seq<(nat, Input)> { seq(m, _ => (i, Begin)) }

  /** A run of one thread's steps is what the thread does alone; the other slots and threads stay as they are. */
  lemma {:induction false} RunAlone(s: State, i: nat, k: nat, m: nat)
    requires i < |s.threads| && |s.slots| == SLOTS && k < SLOTS
    requires Stays(s.threads[i], i, s.slots[k], s.counters, s.pending, m, k)
    ensures var e := Alone(s.threads[i], i, s.slots[k], s.counters, s.pending, m);
            var s' := Run(s, Turns(i, m));
            && s'.threads == s.threads[i := e.thread] && s'.slots == s.slots[k := e.slot]
            && s'.counters == e.counters && s'.pending == e.pending
    decreases m
  {
    if m > 0 {
      OneMore(s.threads[i], i, s.slots[k], s.counters, s.pending, m - 1, k);
      RunAlone(Step(s, i, Begin), i, k, m - 1);
      assert Turns(i, m)[1..] == Turns(i, m - 1);
    }
  }

  lemma {:induction false} RunAppend(s: State, a: seq<(nat, Input)>, b: seq<(nat, Input)>)
    requires |s.slots| == SLOTS && forall j :: 0 <= j < |a + b| ==> (a + b)[j].0 < |s.threads|
    requires forall j :: 0 <= j < |a| ==> a[j].0 < |s.threads|
    requires forall j :: 0 <= j < |b| ==> b[j].0 < |s.threads|
    ensures Run(s, a + b) == Run(Run(s, a), b)
    decreases |a|
  {
    if a == [] {
      assert a + b == b;
    } else {
      assert (a + b)[1..] == a[1..] + b;
      RunAppend(Step(s, a[0].0, a[0].1), a[1..], b);
    }
  }

  lemma OneStep(t: Thread, i: nat, slot: Slot, c: Counters, pending: set<nat>, e: Effect, m: nat, k: nat)
    requires e == Act(t, i, slot, c, pending, Begin) && Touches(t) == k
    requires Stays(e.thread, i, e.slot, e.counters, e.pending, m, k)
    ensures Stays(t, i, slot, c, pending, m + 1, k)
    ensures Alone(t, i, slot, c, pending, m + 1) == Alone(e.thread, i, e.slot, e.counters, e.pending, m)
  {
    OneMore(t, i, slot, c, pending, m, k);
  }

  /** The stores of a publication. */
  lemma StoresAlone(n: nat, range: Range, i: nat, slot: Slot, c: Counters, pending: set<nat>) returns (m: nat)
    ensures Stays(Publishing(n, StoreStart(range)), i, slot, c, pending, m, SlotIndex(n))
    ensures Alone(Publishing(n, StoreStart(range)), i, slot, c, pending, m)
            == Effect(Idle, Release(slot, 2 * n).(start := range.start, end := range.end, trims := 0, visible := true,
                                                  sequence := n, original := range, cuts := []),
                      c.(successes := c.successes + 1), pending + {SlotIndex(n)})
  {
    var k := SlotIndex(n);
    var s1 := slot.(start := range.start);
    var s2 := s1.(end := range.end);
    var s3 := s2.(trims := 0);
    var s4 := Release(s3, 2 * n).(visible := true, sequence := n, original := range, cuts := []);
    var c' := c.(successes := c.successes + 1);
    m := 0;
    assert Stays(Idle, i, s4, c', pending + {k}, m, k);
    OneStep(Publishing(n, CountSuccess), i, s4, c, pending + {k}, Effect(Idle, s4, c', pending + {k}), m, k);
    m := m + 1;
    OneStep(Publishing(n, SetPending), i, s4, c, pending, Effect(Publishing(n, CountSuccess), s4, c, pending + {k}), m,
            k);
    m := m + 1;
    OneStep(Publishing(n, Publish(range)), i, s3, c, pending, Effect(Publishing(n, SetPending), s4, c, pending), m, k);
    m := m + 1;
    OneStep(Publishing(n, StoreTrims(range)), i, s2, c, pending, Effect(Publishing(n, Publish(range)), s3, c, pending),
            m, k);
    m := m + 1;
    OneStep(Publishing(n, StoreEnd(range)), i, s1, c, pending, Effect(Publishing(n, StoreTrims(range)), s2, c, pending),
            m, k);
    m := m + 1;
    OneStep(Publishing(n, StoreStart(range)), i, slot, c, pending,
            Effect(Publishing(n, StoreEnd(range)), s1, c, pending), m, k);
    m := m + 1;
  }

  /** A publication into a slot that is not locked takes it over and stores the range under its number. */
  lemma PublishAlone(n: nat, range: Range, i: nat, slot: Slot, c: Counters, pending: set<nat>) returns (m: nat)
    requires !Locked(slot.state)
    ensures Stays(Publishing(n, LoadState(range)), i, slot, c, pending, m, SlotIndex(n))
    ensures var e := Alone(Publishing(n, LoadState(range)), i, slot, c, pending, m);
            && e.thread == Idle && e.pending == pending + {SlotIndex(n)}
            && e.slot.state == 2 * n && Range(e.slot.start, e.slot.end) == range && e.slot.trims == 0
            && e.counters == if slot.state == 0 then c.(active := c.active + 1, successes := c.successes + 1)
                             else c.(evictions := c.evictions + 1, successes := c.successes + 1)
  {
    var k, previous := SlotIndex(n), slot.state;
    var taken := Acquire(slot, i).(visible := false);
    var counted := if previous == 0 then taken.(counted := true) else taken;
    var c' := if previous == 0 then c.(active := c.active + 1) else c.(evictions := c.evictions + 1);
    m := StoresAlone(n, range, i, counted, c', pending);
    OneStep(Publishing(n, CountActive(range, previous)), i, taken, c, pending,
            Effect(Publishing(n, StoreStart(range)), counted, c', pending), m, k);
    m := m + 1;
    OneStep(Publishing(n, TryLock(range, previous, 4)), i, slot, c, pending,
            Effect(Publishing(n, CountActive(range, previous)), taken, c, pending), m, k);
    m := m + 1;
    OneStep(Publishing(n, LoadState(range)), i, slot, c, pending,
            Effect(Publishing(n, TryLock(range, previous, 4)), slot, c, pending), m, k);
    m := m + 1;
  }

  /** The slot is in use and the report is about an end or all of what it tracks. */
  predicate Hit(range: Range, seen: set<nat>, k: nat, slot: Slot) {
    k in seen && slot.state != 0 && Matches(range, Tracked(slot))
  }

  /** A report leaves a slot that it does not hit as it was and goes on to the next one. */
  lemma PassAlone(range: Range, seen: set<nat>, k: nat, i: nat, slot: Slot, c: Counters, pending: set<nat>)
    returns (m: nat)
    requires k < SLOTS && SlotOk(slot) && !Locked(slot.state) && !Hit(range, seen, k, slot)
    ensures Stays(Searching(range, seen, k, Scan), i, slot, c, pending, m, k)
    ensures Alone(Searching(range, seen, k, Scan), i, slot, c, pending, m)
            == Effect(Searching(range, seen, k + 1, Scan), slot, c, pending)
  {
    var next := Effect(Searching(range, seen, k + 1, Scan), slot, c, pending);
    m := 0;
    if k !in seen || slot.state == 0 {
      OneStep(Searching(range, seen, k, Scan), i, slot, c, pending, next, m, k);
      m := m + 1;
    } else {
      var state, held := slot.state, Acquire(slot, i);
      assert Release(held, state) == slot;
      OneStep(Searching(range, seen, k, Unlock(state)), i, held, c, pending, next, m, k);
      m := m + 1;
      OneStep(Searching(range, seen, k, ReadEnd(state, slot.start)), i, held, c, pending,
              Effect(Searching(range, seen, k, Unlock(state)), held, c, pending), m, k);
      m := m + 1;
      m := LockAlone(range, seen, k, i, slot, c, pending, m);
    }
  }

  /** Up to the comparison of the ranges. */
  lemma LockAlone(range: Range, seen: set<nat>, k: nat, i: nat, slot: Slot, c: Counters, pending: set<nat>, m: nat)
    returns (m': nat)
    requires k < SLOTS && k in seen && slot.state != 0 && !Locked(slot.state)
    requires Stays(Searching(range, seen, k, ReadEnd(slot.state, slot.start)), i, Acquire(slot, i), c, pending, m, k)
    ensures Stays(Searching(range, seen, k, Scan), i, slot, c, pending, m', k)
    ensures Alone(Searching(range, seen, k, Scan), i, slot, c, pending, m')
            == Alone(Searching(range, seen, k, ReadEnd(slot.state, slot.start)), i, Acquire(slot, i), c, pending, m)
  {
    var state, held := slot.state, Acquire(slot, i);
    OneStep(Searching(range, seen, k, ReadStart(state)), i, held, c, pending,
            Effect(Searching(range, seen, k, ReadEnd(state, slot.start)), held, c, pending), m, k);
    OneStep(Searching(range, seen, k, Lock(state)), i, slot, c, pending,
            Effect(Searching(range, seen, k, ReadStart(state)), held, c, pending), m + 1, k);
    OneStep(Searching(range, seen, k, Scan), i, slot, c, pending,
            Effect(Searching(range, seen, k, Lock(state)), slot, c, pending), m + 2, k);
    m' := m + 3;
  }

  /** What a report does to the words of the slot it hits. */
  predicate Changed(range: Range, slot: Slot, after: Slot) {
    if range == Tracked(slot) || slot.trims > 0 then after.state == 0
    else && after.state == slot.state && after.trims == 1
         && Tracked(after) == if range.start == slot.start then Range(range.end, slot.end)
                              else Range(slot.start, range.start)
  }

  /** What it does to the counters. */
  predicate Counted(range: Range, slot: Slot, c: Counters, c': Counters) {
    if range == Tracked(slot) then c' == c.(active := c.active - 1, fullRelease := c.fullRelease + 1)
    else
      var sided := if range.start == slot.start then c.(trimPrefix := c.trimPrefix + 1)
                   else c.(trimSuffix := c.trimSuffix + 1);
      c' == if slot.trims == 0 then sided.(trimFirst := c.trimFirst + 1)
            else sided.(trimSecond := c.trimSecond + 1, active := c.active - 1)
  }

  lemma ReleaseAlone(range: Range, k: nat, i: nat, slot: Slot, c: Counters, pending: set<nat>) returns (m: nat)
    requires k < SLOTS
    ensures Stays(Changing(k, range, ClearFull), i, slot, c, pending, m, k)
    ensures Alone(Changing(k, range, ClearFull), i, slot, c, pending, m)
            == Effect(Idle, Release(slot, 0).(visible := false, counted := false),
                      c.(active := c.active - 1, fullRelease := c.fullRelease + 1), pending - {k})
  {
    var s1 := slot.(visible := false);
    var s2 := s1.(counted := false);
    var s3 := Release(s2, 0);
    var c1 := c.(active := c.active - 1);
    var c2 := c1.(fullRelease := c1.fullRelease + 1);
    m := 0;
    OneStep(Changing(k, range, CountFull), i, s3, c1, pending - {k}, Effect(Idle, s3, c2, pending - {k}), m, k);
    m := m + 1;
    OneStep(Changing(k, range, ZeroFull), i, s2, c1, pending - {k},
            Effect(Changing(k, range, CountFull), s3, c1, pending - {k}), m, k);
    m := m + 1;
    OneStep(Changing(k, range, SubtractFull), i, s1, c, pending - {k},
            Effect(Changing(k, range, ZeroFull), s2, c1, pending - {k}), m, k);
    m := m + 1;
    OneStep(Changing(k, range, ClearFull), i, slot, c, pending,
            Effect(Changing(k, range, SubtractFull), s1, c, pending - {k}), m, k);
    m := m + 1;
  }

  /** From the counting of a trim on. */
  lemma CountAlone(range: Range, k: nat, i: nat, slot: Slot, c: Counters, pending: set<nat>, state: nat, prior: nat)
    returns (m: nat)
    requires k < SLOTS && prior <= 1
    ensures Stays(Changing(k, range, CountTrim(state, prior)), i, slot, c, pending, m, k)
    ensures Alone(Changing(k, range, CountTrim(state, prior)), i, slot, c, pending, m)
            == if prior == 0 then Effect(Idle, Release(slot, state), c.(trimFirst := c.trimFirst + 1), pending)
               else Effect(Idle, Release(slot, 0).(visible := false, counted := false),
                           c.(trimSecond := c.trimSecond + 1, active := c.active - 1), pending - {k})
  {
    m := 0;
    if prior == 0 {
      var c1 := c.(trimFirst := c.trimFirst + 1);
      OneStep(Changing(k, range, UnlockTrimmed(state)), i, slot, c1, pending,
              Effect(Idle, Release(slot, state), c1, pending), m, k);
      m := m + 1;
      OneStep(Changing(k, range, CountTrim(state, prior)), i, slot, c, pending,
              Effect(Changing(k, range, UnlockTrimmed(state)), slot, c1, pending), m, k);
      m := m + 1;
    } else {
      var s1 := slot.(visible := false);
      var s2 := s1.(counted := false);
      var c1 := c.(trimSecond := c.trimSecond + 1);
      var c2 := c1.(active := c1.active - 1);
      OneStep(Changing(k, range, ZeroTrimmed), i, s2, c2, pending - {k},
              Effect(Idle, Release(s2, 0), c2, pending - {k}), m, k);
      m := m + 1;
      OneStep(Changing(k, range, SubtractTrimmed), i, s1, c1, pending - {k},
              Effect(Changing(k, range, ZeroTrimmed), s2, c2, pending - {k}), m, k);
      m := m + 1;
      OneStep(Changing(k, range, ClearTrimmed), i, slot, c1, pending,
              Effect(Changing(k, range, SubtractTrimmed), s1, c1, pending - {k}), m, k);
      m := m + 1;
      OneStep(Changing(k, range, CountTrim(state, prior)), i, slot, c, pending,
              Effect(Changing(k, range, ClearTrimmed), slot, c1, pending), m, k);
      m := m + 1;
    }
  }

  lemma TrimAlone(range: Range, k: nat, i: nat, slot: Slot, c: Counters, pending: set<nat>, state: nat, prefix: bool,
                  cut: nat)
    returns (m: nat)
    requires k < SLOTS && slot.trims <= 1
    ensures Stays(Changing(k, range, Cut(state, prefix, cut)), i, slot, c, pending, m, k)
    ensures var e := Alone(Changing(k, range, Cut(state, prefix, cut)), i, slot, c, pending, m);
            var sided := if prefix then c.(trimPrefix := c.trimPrefix + 1) else c.(trimSuffix := c.trimSuffix + 1);
            && e.thread == Idle && e.slot.trims == slot.trims + 1
            && Tracked(e.slot) == (if prefix then Range(cut, slot.end) else Range(slot.start, cut))
            && if slot.trims == 0
               then e.slot.state == state && e.counters == sided.(trimFirst := c.trimFirst + 1) && e.pending == pending
               else && e.slot.state == 0 && e.pending == pending - {k}
                    && e.counters == sided.(trimSecond := c.trimSecond + 1, active := c.active - 1)
  {
    var s1 := (if prefix then slot.(start := cut) else slot.(end := cut)).(cuts := slot.cuts + [range]);
    var c1 := if prefix then c.(trimPrefix := c.trimPrefix + 1) else c.(trimSuffix := c.trimSuffix + 1);
    var s2 := s1.(trims := slot.trims + 1);
    m := CountAlone(range, k, i, s2, c1, pending, state, slot.trims);
    OneStep(Changing(k, range, AddTrim(state)), i, s1, c1, pending,
            Effect(Changing(k, range, CountTrim(state, slot.trims)), s2, c1, pending), m, k);
    m := m + 1;
    OneStep(Changing(k, range, CountSide(state, prefix)), i, s1, c, pending,
            Effect(Changing(k, range, AddTrim(state)), s1, c1, pending), m, k);
    m := m + 1;
    OneStep(Changing(k, range, Cut(state, prefix, cut)), i, slot, c, pending,
            Effect(Changing(k, range, CountSide(state, prefix)), s1, c, pending), m, k);
    m := m + 1;
  }

  lemma HitAlone(range: Range, seen: set<nat>, k: nat, i: nat, slot: Slot, c: Counters, pending: set<nat>)
    returns (m: nat)
    requires k < SLOTS && SlotOk(slot) && !Locked(slot.state) && Hit(range, seen, k, slot)
    ensures Stays(Searching(range, seen, k, Scan), i, slot, c, pending, m, k)
    ensures var e := Alone(Searching(range, seen, k, Scan), i, slot, c, pending, m);
            e.thread == Idle && Changed(range, slot, e.slot) && Counted(range, slot, c, e.counters)
  {
    var state, held, at := slot.state, Acquire(slot, i), ReadEnd(slot.state, slot.start);
    assert slot.start < slot.end && slot.trims <= 1;
    var change := if range == Tracked(slot) then ClearFull
                  else if range.start == slot.start then Cut(state, true, range.end)
                  else Cut(state, false, range.start);
    if change.ClearFull? {
      m := ReleaseAlone(range, k, i, held, c, pending);
    } else {
      m := TrimAlone(range, k, i, held, c, pending, state, change.prefix, change.at);
    }
    OneStep(Searching(range, seen, k, at), i, held, c, pending, Effect(Changing(k, range, change), held, c, pending), m,
            k);
    m := LockAlone(range, seen, k, i, slot, c, pending, m + 1);
  }

  /** All slots are unlocked. */
  ghost predicate Unlocked(slots: seq<Slot>) {
    |slots| == SLOTS && forall j: nat :: j < SLOTS ==> SlotOk(slots[j]) && !Locked(slots[j].state)
  }

  /** From `k` on the report first hits the slot `g`, or none if there is no such slot. */
  ghost predicate FirstHit(slots: seq<Slot>, range: Range, seen: set<nat>, k: nat, g: nat) {
    && k <= g <= |slots|
    && (forall j :: k <= j < g ==> !Hit(range, seen, j, slots[j]))
    && (g < |slots| ==> Hit(range, seen, g, slots[g]))
  }

  lemma HitsLater(slots: seq<Slot>, range: Range, seen: set<nat>, k: nat, g: nat)
    requires FirstHit(slots, range, seen, k, g) && k < g
    ensures FirstHit(slots, range, seen, k + 1, g) && !Hit(range, seen, k, slots[k])
  {
  }

  /** The report with index `k` in the scan has ended: the slot `g` was its first hit, or it had none. */
  ghost predicate Reported(s: State, s': State, i: nat, range: Range, g: nat)
    requires |s.slots| == SLOTS && |s'.slots| == SLOTS && i < |s.threads|
  {
    && s'.threads == s.threads[i := Idle]
    && (forall j :: 0 <= j < SLOTS && j != g ==> s'.slots[j] == s.slots[j])
    && (g < SLOTS ==>
          Changed(range, s.slots[g], s'.slots[g]) && Counted(range, s.slots[g], s.counters, s'.counters))
    && (g >= SLOTS ==> s'.counters == s.counters.(munmapUnmatched := s.counters.munmapUnmatched + 1))
  }

  lemma {:induction false} ScanAlone(s: State, i: nat, range: Range, seen: set<nat>, k: nat, g: nat)
    returns (m: nat, after: State)
    requires Unlocked(s.slots) && i < |s.threads| && s.threads[i] == Searching(range, seen, k, Scan)
    requires FirstHit(s.slots, range, seen, k, g)
    ensures after == Run(s, Turns(i, m)) && Reported(s, after, i, range, g)
    decreases g - k
  {
    if k == g {
      m := ScanEnds(s, i, range, seen, g);
      after := Run(s, Turns(i, m));
    } else {
      HitsLater(s.slots, range, seen, k, g);
      var passing := ScanPasses(s, i, range, seen, k);
      var next, more := Run(s, Turns(i, passing)), 0;
      more, after := ScanAlone(next, i, range, seen, k + 1, g);
      ReportedBefore(s, next, after, i, range, g);
      TurnsAppend(s, i, passing, more);
      m := passing + more;
    }
  }

  lemma ReportedBefore(s: State, next: State, s': State, i: nat, range: Range, g: nat)
    requires |s.slots| == SLOTS && |s'.slots| == SLOTS && i < |s.threads| == |next.threads|
    requires next.threads == s.threads[i := next.threads[i]] && next.slots == s.slots && next.counters == s.counters
    requires Reported(next, s', i, range, g)
    ensures Reported(s, s', i, range, g)
  {
    assert next.threads[i := Idle] == s.threads[i := Idle];
  }

  lemma ScanPasses(s: State, i: nat, range: Range, seen: set<nat>, k: nat) returns (m: nat)
    requires Unlocked(s.slots) && i < |s.threads| && k < SLOTS && s.threads[i] == Searching(range, seen, k, Scan)
    requires !Hit(range, seen, k, s.slots[k])
    ensures var s' := Run(s, Turns(i, m));
            && s'.threads == s.threads[i := Searching(range, seen, k + 1, Scan)] && s'.slots == s.slots
            && s'.counters == s.counters
  {
    m := PassAlone(range, seen, k, i, s.slots[k], s.counters, s.pending);
    RunAlone(s, i, k, m);
  }

  lemma ScanEnds(s: State, i: nat, range: Range, seen: set<nat>, g: nat) returns (m: nat)
    requires Unlocked(s.slots) && i < |s.threads| && g <= SLOTS && s.threads[i] == Searching(range, seen, g, Scan)
    requires g < SLOTS ==> Hit(range, seen, g, s.slots[g])
    ensures Reported(s, Run(s, Turns(i, m)), i, range, g)
  {
    if g < SLOTS {
      m := HitAlone(range, seen, g, i, s.slots[g], s.counters, s.pending);
      RunAlone(s, i, g, m);
    } else {
      m := UnmatchedAlone(range, seen, i, s.slots[0], s.counters, s.pending);
      RunAlone(s, i, 0, m);
    }
  }

  lemma TurnsAppend(s: State, i: nat, a: nat, b: nat)
    requires |s.slots| == SLOTS && i < |s.threads|
    ensures Run(s, Turns(i, a + b)) == Run(Run(s, Turns(i, a)), Turns(i, b))
  {
    assert Turns(i, a) + Turns(i, b) == Turns(i, a + b);
    RunAppend(s, Turns(i, a), Turns(i, b));
  }

  lemma UnmatchedAlone(range: Range, seen: set<nat>, i: nat, slot: Slot, c: Counters, pending: set<nat>)
    returns (m: nat)
    ensures Stays(Searching(range, seen, SLOTS, Scan), i, slot, c, pending, m, 0)
    ensures Alone(Searching(range, seen, SLOTS, Scan), i, slot, c, pending, m)
            == Effect(Idle, slot, c.(munmapUnmatched := c.munmapUnmatched + 1), pending)
  {
    m := 0;
    OneStep(CountingUnmatched, i, slot, c, pending,
            Effect(Idle, slot, c.(munmapUnmatched := c.munmapUnmatched + 1), pending), m, 0);
    m := m + 1;
    OneStep(Searching(range, seen, SLOTS, Scan), i, slot, c, pending, Effect(CountingUnmatched, slot, c, pending), m,
            0);
    m := m + 1;
  }

  /**
   A report that begins at a quiescent point and is not interrupted acts on the first slot of which it hits all or
   an end, and on nothing else; without one it is counted as unmatched.
   */
  lemma {:induction false} ReportAlone(n: nat, schedule: seq<(nat, Input)>, i: nat, range: Range, g: nat)
    returns (m: nat)
    requires i < n && g <= SLOTS && forall j :: 0 <= j < |schedule| ==> schedule[j].0 < n
    requires Quiescent(Run(Boot(n), schedule)) && Run(Boot(n), schedule).pending != {}
    requires var s := Run(Boot(n), schedule);
             && (forall j :: 0 <= j < g ==> s.slots[j].state == 0 || !Matches(range, Tracked(s.slots[j])))
             && (g < SLOTS ==> s.slots[g].state != 0 && Matches(range, Tracked(s.slots[g])))
    ensures var s := Run(Boot(n), schedule);
            Reported(s, Run(s, [(i, Unmap(range))] + Turns(i, m)), i, range, g)
  {
    Reachable(n, schedule);
    var s := Run(Boot(n), schedule);
    assert s.threads[i].Idle?;
    m := ReportFrom(s, i, range, g);
  }

  lemma ReportFrom(s: State, i: nat, range: Range, g: nat) returns (m: nat)
    requires Inv(s) && Quiescent(s) && s.pending != {} && i < |s.threads| && g <= SLOTS
    requires forall j :: 0 <= j < g ==> s.slots[j].state == 0 || !Matches(range, Tracked(s.slots[j]))
    requires g < SLOTS ==> s.slots[g].state != 0 && Matches(range, Tracked(s.slots[g]))
    ensures Reported(s, Run(s, [(i, Unmap(range))] + Turns(i, m)), i, range, g)
  {
    var next := Step(s, i, Unmap(range));
    forall j: nat | j < SLOTS
      ensures SlotOk(s.slots[j]) && !Locked(s.slots[j].state) && (s.slots[j].state != 0 ==> j in s.pending)
    {
      assert OwnerOk(s, j) && PendingOk(s, j);
      TotalIdle(Setters(j), s.threads);
    }
    assert next.slots == s.slots;
    var after;
    m, after := ScanAlone(next, i, range, s.pending, 0, g);
    assert ([(i, Unmap(range))] + Turns(i, m))[1..] == Turns(i, m);
    assert next.threads[i := Idle] == s.threads[i := Idle];
  }
}
