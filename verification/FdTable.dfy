/** The descriptor table: lowest free slot through a hint, close-on-exec by a counter, endpoint counts. */
module FdTables {
  import opened Common

  const MAX_FD_NUM: nat := 1024

  /** Descriptors, as far as their cloning and dropping counts endpoints of pipes. */
  datatype Descriptor = Stdin | Stdout | Stderr | PipeRead(pipe: nat) | PipeWrite(pipe: nat) | Other(id: nat)

  datatype Ends = Ends(readers: nat, writers: nat)

  datatype Error = EBADF | EMFILE

  datatype Result<+T> = Ok(value: T) | Err(error: Error)

  // ---------------------------------------------------------------- flags and hint

  /** `flags & FD_CLOEXEC` */
  function CloExec(flags: nat): (bit: nat)
    ensures bit <= 1 && (bit == 1 <==> flags % 2 == 1)
  {
    flags % 2
  }

  function CountFlagged(flags: seq<nat>): nat {
    if flags == [] then 0 else CloExec(flags[0]) + CountFlagged(flags[1..])
  }

  lemma {:induction false} CountUpdate(flags: seq<nat>, i: nat, v: nat)
    requires i < |flags|
    ensures CountFlagged(flags[i := v]) + CloExec(flags[i]) == CountFlagged(flags) + CloExec(v)
    decreases |flags|
  {
    if i > 0 {
      CountUpdate(flags[1..], i - 1, v);
      assert flags[i := v][1..] == flags[1..][i - 1 := v];
    } else {
      assert flags[0 := v][1..] == flags[1..];
    }
  }

  lemma {:induction false} CountZero(flags: seq<nat>)
    ensures CountFlagged(flags) == 0 <==> forall i :: 0 <= i < |flags| ==> CloExec(flags[i]) == 0
    decreases |flags|
  {
    if flags != [] {
      CountZero(flags[1..]);
      assert forall i :: 0 < i < |flags| ==> flags[i] == flags[1..][i - 1];
    }
  }

  lemma {:induction false} CountOfZeros(n: nat)
    ensures CountFlagged(seq(n, _ => 0)) == 0
  {
    CountZero(seq(n, _ => 0));
  }

  ghost predicate TableGuard(g: Guard, fds: seq<Option<Descriptor>>, flags: seq<nat>) { g == Key }

  /** Every slot below the hint is open; only open slots are flagged; the counter counts the flagged slots. */
  ghost predicate Table(fds: seq<Option<Descriptor>>, flags: seq<nat>, hint: nat, count: nat) {
    && |fds| == MAX_FD_NUM && |flags| == MAX_FD_NUM && hint <= MAX_FD_NUM
    && forall g :: TableGuard(g, fds, flags) ==> TableBody(fds, flags, hint, count)
  }

  ghost predicate TableBody(fds: seq<Option<Descriptor>>, flags: seq<nat>, hint: nat, count: nat)
    requires hint <= |fds| == |flags|
  {
    && (forall i :: 0 <= i < hint ==> fds[i].Some?)
    && (forall i :: 0 <= i < |fds| ==> flags[i] <= 1 && (fds[i].None? ==> flags[i] == 0))
    && count == CountFlagged(flags)
  }

  function SaturatingSub(a: nat, b: nat): nat { if a >= b then a - b else 0 }

  lemma TableSet(fds: seq<Option<Descriptor>>, flags: seq<nat>, hint: nat, count: nat, index: nat, d: Descriptor,
                 f: nat)
    requires Table(fds, flags, hint, count) && index < MAX_FD_NUM
    ensures count >= CloExec(flags[index])
    ensures Table(fds[index := Some(d)], flags[index := CloExec(f)],
              if hint == MAX_FD_NUM || index <= hint then Min(index + 1, MAX_FD_NUM) else hint,
              count - CloExec(flags[index]) + CloExec(CloExec(f)))
  {
    assert TableGuard(Key, fds, flags);
    CountUpdate(flags, index, CloExec(f));
    CountUpdate(flags, index, 0);
  }

  lemma TableClear(fds: seq<Option<Descriptor>>, flags: seq<nat>, hint: nat, count: nat, index: nat)
    requires Table(fds, flags, hint, count) && index < MAX_FD_NUM
    ensures count >= CloExec(flags[index])
    ensures Table(fds[index := None], flags[index := 0], if index < hint then index else hint,
              count - CloExec(flags[index]))
  {
    assert TableGuard(Key, fds, flags);
    CountUpdate(flags, index, 0);
  }

  lemma TableFlag(fds: seq<Option<Descriptor>>, flags: seq<nat>, hint: nat, count: nat, index: nat, f: nat)
    requires Table(fds, flags, hint, count) && index < MAX_FD_NUM && fds[index].Some?
    ensures count >= CloExec(flags[index])
    ensures Table(fds, flags[index := CloExec(f)], hint, count - CloExec(flags[index]) + CloExec(CloExec(f)))
  {
    assert TableGuard(Key, fds, flags);
    CountUpdate(flags, index, CloExec(f));
    CountUpdate(flags, index, 0);
  }

  lemma TableBelowHint(fds: seq<Option<Descriptor>>, flags: seq<nat>, hint: nat, count: nat)
    requires Table(fds, flags, hint, count)
    ensures forall i :: 0 <= i < hint ==> fds[i].Some?
    ensures count == 0 <==> forall i :: 0 <= i < MAX_FD_NUM ==> CloExec(flags[i]) == 0
    ensures forall i :: 0 <= i < MAX_FD_NUM && CloExec(flags[i]) != 0 ==> fds[i].Some?
  {
    assert TableGuard(Key, fds, flags);
    CountZero(flags);
  }

  // ---------------------------------------------------------------- endpoints

  function EndsOf(pipes: map<nat, Ends>, id: nat): Ends {
    if id in pipes then pipes[id] else Ends(0, 0)
  }

  ghost predicate EndsGuard(g: Guard, fds: seq<Option<Descriptor>>, pipes: map<nat, Ends>) { g == Key }

  /** `readers` and `writers` of each pipe are its endpoints in the table and those held elsewhere. */
  ghost predicate EndsMatch(fds: seq<Option<Descriptor>>, pipes: map<nat, Ends>, elsewhere: multiset<Descriptor>) {
    forall g :: EndsGuard(g, fds, pipes) ==> forall id: nat :: PipeMatches(fds, pipes, elsewhere, id)
  }

  ghost predicate PipeMatches(fds: seq<Option<Descriptor>>, pipes: map<nat, Ends>, elsewhere: multiset<Descriptor>,
                              id: nat) {
    && EndsOf(pipes, id).readers == multiset(fds)[Some(PipeRead(id))] + elsewhere[PipeRead(id)]
    && EndsOf(pipes, id).writers == multiset(fds)[Some(PipeWrite(id))] + elsewhere[PipeWrite(id)]
  }

  /** The counts after a descriptor has been cloned. */
  function Cloned(pipes: map<nat, Ends>, d: Descriptor): map<nat, Ends> {
    match d
    case PipeRead(id) => pipes[id := Ends(EndsOf(pipes, id).readers + 1, EndsOf(pipes, id).writers)]
    case PipeWrite(id) => pipes[id := Ends(EndsOf(pipes, id).readers, EndsOf(pipes, id).writers + 1)]
    case _ => pipes
  }

  /** The counts after a descriptor has been dropped. */
  function Dropped(pipes: map<nat, Ends>, d: Descriptor): map<nat, Ends> {
    match d
    case PipeRead(id) =>
      if EndsOf(pipes, id).readers > 0 then pipes[id := Ends(EndsOf(pipes, id).readers - 1,
          EndsOf(pipes, id).writers)] else pipes
    case PipeWrite(id) =>
      if EndsOf(pipes, id).writers > 0 then pipes[id := Ends(EndsOf(pipes, id).readers,
          EndsOf(pipes, id).writers - 1)] else pipes
    case _ => pipes
  }

  lemma EndsClone(fds: seq<Option<Descriptor>>, pipes: map<nat, Ends>, elsewhere: multiset<Descriptor>, d: Descriptor)
    requires EndsMatch(fds, pipes, elsewhere)
    ensures EndsMatch(fds, Cloned(pipes, d), elsewhere + multiset{d})
  {
    assert EndsGuard(Key, fds, pipes);
    forall id: nat
      ensures PipeMatches(fds, Cloned(pipes, d), elsewhere + multiset{d}, id)
    {
      assert PipeMatches(fds, pipes, elsewhere, id);
    }
  }

  lemma EndsDrop(fds: seq<Option<Descriptor>>, pipes: map<nat, Ends>, elsewhere: multiset<Descriptor>, d: Descriptor)
    requires EndsMatch(fds, pipes, elsewhere) && d in elsewhere
    ensures EndsMatch(fds, Dropped(pipes, d), elsewhere - multiset{d})
  {
    assert EndsGuard(Key, fds, pipes);
    forall id: nat
      ensures PipeMatches(fds, Dropped(pipes, d), elsewhere - multiset{d}, id)
    {
      assert PipeMatches(fds, pipes, elsewhere, id);
    }
  }

  /** What a slot hands over when its value is replaced. */
  function Held(slot: Option<Descriptor>): multiset<Descriptor> {
    if slot.Some? then multiset{slot.value} else multiset{}
  }

  lemma SlotCounts(fds: seq<Option<Descriptor>>, i: nat, to: Option<Descriptor>)
    requires i < |fds|
    ensures multiset(fds[i := to]) == multiset(fds) - multiset{fds[i]} + multiset{to}
    ensures fds[i] in multiset(fds)
  {
    assert fds == fds[..i] + [fds[i]] + fds[i + 1..];
    assert fds[i := to] == fds[..i] + [to] + fds[i + 1..];
  }

  /** Exchanging the value of a slot with a descriptor in hand moves endpoints without changing their number. */
  lemma EndsMove(fds: seq<Option<Descriptor>>, pipes: map<nat, Ends>, elsewhere: multiset<Descriptor>, i: nat,
                 to: Option<Descriptor>)
    requires EndsMatch(fds, pipes, elsewhere) && i < |fds| && Held(to) <= elsewhere
    ensures EndsMatch(fds[i := to], pipes, elsewhere - Held(to) + Held(fds[i]))
  {
    assert EndsGuard(Key, fds, pipes);
    var after := elsewhere - Held(to) + Held(fds[i]);
    var changed := fds[i := to];
    SlotCounts(fds, i, to);
    forall id: nat
      ensures PipeMatches(changed, pipes, after, id)
    {
      assert PipeMatches(fds, pipes, elsewhere, id);
      EndMoves(multiset(fds), fds[i], to, elsewhere, PipeRead(id));
      EndMoves(multiset(fds), fds[i], to, elsewhere, PipeWrite(id));
    }
  }

  lemma EndMoves(slots: multiset<Option<Descriptor>>, from: Option<Descriptor>, to: Option<Descriptor>,
                 elsewhere: multiset<Descriptor>, d: Descriptor)
    requires from in slots && Held(to) <= elsewhere
    ensures (slots - multiset{from} + multiset{to})[Some(d)] + (elsewhere - Held(to) + Held(from))[d]
              == slots[Some(d)] + elsewhere[d]
  {
  }

  /** Emptying a slot puts its descriptor in hand. */
  lemma EndsTake(fds: seq<Option<Descriptor>>, pipes: map<nat, Ends>, elsewhere: multiset<Descriptor>, i: nat)
    requires EndsMatch(fds, pipes, elsewhere) && i < |fds|
    ensures EndsMatch(fds[i := None], pipes, elsewhere + Held(fds[i]))
  {
    EndsMove(fds, pipes, elsewhere, i, None);
    assert elsewhere - Held(None) + Held(fds[i]) == elsewhere + Held(fds[i]);
  }

  /** The counts once the value of a slot has been dropped. */
  function DroppedSlot(pipes: map<nat, Ends>, slot: Option<Descriptor>): map<nat, Ends> {
    if slot.Some? then Dropped(pipes, slot.value) else pipes
  }

  /** Overwriting a slot with a descriptor in hand, or with nothing, drops what was there. */
  lemma EndsReplace(fds: seq<Option<Descriptor>>, pipes: map<nat, Ends>, elsewhere: multiset<Descriptor>, i: nat,
                    to: Option<Descriptor>)
    requires EndsMatch(fds, pipes, elsewhere) && i < |fds| && Held(to) <= elsewhere
    ensures EndsMatch(fds[i := to], DroppedSlot(pipes, fds[i]), elsewhere - Held(to))
  {
    EndsMove(fds, pipes, elsewhere, i, to);
    var rest := elsewhere - Held(to);
    if fds[i].Some? {
      EndsDrop(fds[i := to], pipes, rest + Held(fds[i]), fds[i].value);
      InAndOut(rest, fds[i].value);
    } else {
      assert rest + Held(fds[i]) == rest;
    }
  }

  lemma InAndOut(held: multiset<Descriptor>, d: Descriptor)
    ensures held + multiset{d} - multiset{d} == held
  {
  }

  /** Cloning and dropping again leaves the counts as they were. */
  lemma CloneDropIsNothing(pipes: map<nat, Ends>, d: Descriptor)
    requires d.PipeRead? || d.PipeWrite? ==> d.pipe in pipes
    ensures Dropped(Cloned(pipes, d), d) == pipes
  {
  }

  /** An open pipe descriptor has its pipe. */
  lemma OpenHasPipe(fds: seq<Option<Descriptor>>, pipes: map<nat, Ends>, elsewhere: multiset<Descriptor>, i: nat)
    requires EndsMatch(fds, pipes, elsewhere) && i < |fds| && fds[i].Some?
    ensures fds[i].value.PipeRead? || fds[i].value.PipeWrite? ==> fds[i].value.pipe in pipes
  {
    assert EndsGuard(Key, fds, pipes);
    assert fds[i] in multiset(fds);
    if fds[i].value.PipeRead? || fds[i].value.PipeWrite? {
      assert PipeMatches(fds, pipes, elsewhere, fds[i].value.pipe);
    }
  }

  // ---------------------------------------------------------------- close on exec

  /** `idx` are the open flagged slots among the first `n`, in order, and `closed` the descriptors in them. */
  ghost predicate Listed(fds: seq<Option<Descriptor>>, flags: seq<nat>, n: nat, idx: seq<nat>, closed: seq<Descriptor>)
    requires n <= |fds| == |flags|
  {
    && |idx| == |closed|
    && (forall j, k :: 0 <= j < k < |idx| ==> idx[j] < idx[k])
    && (forall i: nat :: i in idx <==> i < n && fds[i].Some? && flags[i] % 2 == 1)
    && (forall j :: 0 <= j < |idx| ==> idx[j] < n && fds[idx[j]] == Some(closed[j]))
  }

  /** The slots and flags once the flagged slots among the first `n` have been cleared. */
  ghost predicate Swept(fds: seq<Option<Descriptor>>, flags: seq<nat>, n: nat, slots: seq<Option<Descriptor>>,
                        left: seq<nat>)
    requires |fds| == |flags|
  {
    && |slots| == |fds| && |left| == |flags|
    && (forall i :: 0 <= i < |fds| ==>
          && slots[i] == (if i < n && flags[i] % 2 == 1 then None else fds[i])
          && left[i] == (if i < n then 0 else flags[i]))
  }

  /** Every descriptor is as often in the slots and in the list together as it was in the slots before. */
  ghost predicate Conserved(fds: seq<Option<Descriptor>>, slots: seq<Option<Descriptor>>, closed: seq<Descriptor>) {
    forall d :: multiset(closed)[d] + multiset(slots)[Some(d)] == multiset(fds)[Some(d)]
  }

  ghost predicate SweepGuard(g: Guard, n: nat, slots: seq<Option<Descriptor>>, idx: seq<nat>) { g == Key }

  /** How far a scan has come that started with `fds` and `flags`. */
  ghost predicate Sweep(fds: seq<Option<Descriptor>>, flags: seq<nat>, n: nat, slots: seq<Option<Descriptor>>,
                        left: seq<nat>, idx: seq<nat>, closed: seq<Descriptor>)
    requires n <= |fds| == |flags|
  {
    forall g :: SweepGuard(g, n, slots, idx) ==>
      OpenFlags(fds, flags) && Listed(fds, flags, n, idx, closed) && Swept(fds, flags, n, slots, left)
      && Conserved(fds, slots, closed)
  }

  ghost predicate OpenFlags(fds: seq<Option<Descriptor>>, flags: seq<nat>)
    requires |fds| == |flags|
  {
    forall i :: 0 <= i < |fds| ==> flags[i] <= 1 && (fds[i].None? ==> flags[i] == 0)
  }

  lemma SweepStart(fds: seq<Option<Descriptor>>, flags: seq<nat>, hint: nat, count: nat)
    requires Table(fds, flags, hint, count)
    ensures Sweep(fds, flags, 0, fds, flags, [], [])
  {
    FlagsSmall(fds, flags, hint, count);
  }

  /** A turn clears the slot and lists its descriptor, or finds nothing to do. */
  lemma SweepStep(fds: seq<Option<Descriptor>>, flags: seq<nat>, n: nat, slots: seq<Option<Descriptor>>,
                  left: seq<nat>, idx: seq<nat>, closed: seq<Descriptor>)
    requires n < |fds| == |flags| && Sweep(fds, flags, n, slots, left, idx, closed)
    ensures |slots| == |fds| && |left| == |flags| && slots[n] == fds[n] && left[n] == flags[n]
    ensures fds[n].Some? && flags[n] % 2 == 1 ==>
              Sweep(fds, flags, n + 1, slots[n := None], left[n := 0], idx + [n], closed + [fds[n].value])
    ensures !(fds[n].Some? && flags[n] % 2 == 1) ==> Sweep(fds, flags, n + 1, slots, left, idx, closed)
  {
    assert SweepGuard(Key, n, slots, idx);
    ListedStep(fds, flags, n, idx, closed);
    SweptStep(fds, flags, n, slots, left);
    if fds[n].Some? && flags[n] % 2 == 1 {
      ConservedStep(fds, slots, closed, n);
      assert Sweep(fds, flags, n + 1, slots[n := None], left[n := 0], idx + [n], closed + [fds[n].value]);
    } else {
      assert Sweep(fds, flags, n + 1, slots, left, idx, closed);
    }
  }

  lemma SweptStep(fds: seq<Option<Descriptor>>, flags: seq<nat>, n: nat, slots: seq<Option<Descriptor>>, left: seq<nat>)
    requires n < |fds| == |flags| && Swept(fds, flags, n, slots, left)
    requires flags[n] <= 1 && (fds[n].None? ==> flags[n] == 0)
    ensures fds[n].Some? && flags[n] % 2 == 1 ==> Swept(fds, flags, n + 1, slots[n := None], left[n := 0])
    ensures !(fds[n].Some? && flags[n] % 2 == 1) ==> Swept(fds, flags, n + 1, slots, left)
  {
  }

  lemma ConservedStep(fds: seq<Option<Descriptor>>, slots: seq<Option<Descriptor>>, closed: seq<Descriptor>, i: nat)
    requires Conserved(fds, slots, closed) && i < |slots| && slots[i].Some?
    ensures Conserved(fds, slots[i := None], closed + [slots[i].value])
  {
    SlotCounts(slots, i, None);
    forall d
      ensures multiset(closed + [slots[i].value])[d] + multiset(slots[i := None])[Some(d)] == multiset(fds)[Some(d)]
    {
      assert multiset(closed)[d] + multiset(slots)[Some(d)] == multiset(fds)[Some(d)];
    }
  }

  lemma ListedStep(fds: seq<Option<Descriptor>>, flags: seq<nat>, n: nat, idx: seq<nat>, closed: seq<Descriptor>)
    requires n < |fds| == |flags| && Listed(fds, flags, n, idx, closed)
    ensures fds[n].Some? && flags[n] % 2 == 1 ==>
              Listed(fds, flags, n + 1, idx + [n], closed + [fds[n].value])
    ensures !(fds[n].Some? && flags[n] % 2 == 1) ==> Listed(fds, flags, n + 1, idx, closed)
  {
    if fds[n].Some? && flags[n] % 2 == 1 {
      forall i: nat
        ensures i in idx + [n] <==> i in idx || i == n
      {
      }
    }
  }

  // ---------------------------------------------------------------- the table

  /** The descriptors held elsewhere and a copy of those in the first `n` slots. */
  ghost predicate WithCopies(before: multiset<Descriptor>, after: multiset<Descriptor>, fds: seq<Option<Descriptor>>,
                             n: nat)
    requires n <= |fds|
  {
    forall d :: after[d] == before[d] + multiset(fds[..n])[Some(d)]
  }

  lemma WithOneMore(before: multiset<Descriptor>, after: multiset<Descriptor>, fds: seq<Option<Descriptor>>, n: nat)
    requires n < |fds| && WithCopies(before, after, fds, n)
    ensures WithCopies(before, after + Held(fds[n]), fds, n + 1)
  {
    assert fds[..n + 1] == fds[..n] + [fds[n]];
    forall d
      ensures (after + Held(fds[n]))[d] == before[d] + multiset(fds[..n + 1])[Some(d)]
    {
      assert after[d] == before[d] + multiset(fds[..n])[Some(d)];
    }
  }

  class FileDescriptorTable {
    var fds: seq<Option<Descriptor>>
    var flags: seq<nat>
    var hint: nat
    var count: nat
    /** The endpoint counts of the pipes, which all tables share. */
    var pipes: map<nat, Ends>
    /** The descriptors that exist outside this table. */
    ghost var elsewhere: multiset<Descriptor>

    ghost predicate Valid()
      reads this
    {
      Table(fds, flags, hint, count) && EndsMatch(fds, pipes, elsewhere)
    }

    constructor (pipes: map<nat, Ends>, ghost elsewhere: multiset<Descriptor>)
      requires EndsMatch([], pipes, elsewhere)
      ensures Valid() && hint == 3 && count == 0 && this.pipes == pipes && this.elsewhere == elsewhere
      ensures forall i :: 0 <= i < MAX_FD_NUM ==> flags[i] == 0
      ensures forall i :: 0 <= i < MAX_FD_NUM ==>
                fds[i] == (if i == 0 then Some(Stdin) else if i == 1 then Some(Stdout) else if i == 2
                    then Some(Stderr) else None)
    {
      fds := [Some(Stdin), Some(Stdout), Some(Stderr)] + seq(MAX_FD_NUM - 3, _ => None);
      flags := seq(MAX_FD_NUM, _ => 0);
      hint, count := 3, 0;
      this.pipes, this.elsewhere := pipes, elsewhere;
      new;
      CountOfZeros(MAX_FD_NUM);
      NoPipesMatch(fds, pipes, elsewhere);
    }

    /** Drops a descriptor that is in hand. */
    method Drop(d: Descriptor)
      requires Valid() && d in elsewhere
      modifies this`pipes, this`elsewhere
      ensures Valid() && pipes == Dropped(old(pipes), d) && elsewhere == old(elsewhere) - multiset{d}
    {
      EndsDrop(fds, pipes, elsewhere, d);
      pipes := Dropped(pipes, d);
      elsewhere := elsewhere - multiset{d};
    }

    /** Puts a descriptor in hand into a slot and drops what was there. */
    method SetSlot(index: nat, d: Descriptor, f: nat)
      requires Valid() && index < MAX_FD_NUM && d in elsewhere
      modifies this
      ensures Valid()
      ensures fds == old(fds)[index := Some(d)] && flags == old(flags)[index := CloExec(f)]
      ensures hint == if old(hint) == MAX_FD_NUM || index <= old(hint) then Min(index + 1, MAX_FD_NUM) else old(hint)
      ensures pipes == if old(fds)[index].Some? then Dropped(old(pipes), old(fds)[index].value) else old(pipes)
      ensures elsewhere == old(elsewhere) - multiset{d}
    {
      TableSet(fds, flags, hint, count, index, d, f);
      EndsReplace(fds, pipes, elsewhere, index, Some(d));
      count := SaturatingSub(count, CloExec(flags[index]));
      var before := fds[index];
      fds := fds[index := Some(d)];
      flags := flags[index := CloExec(f)];
      count := count + CloExec(flags[index]);
      if hint == MAX_FD_NUM || index <= hint {
        hint := Min(index + 1, MAX_FD_NUM);
      }
      pipes := DroppedSlot(pipes, before);
      elsewhere := elsewhere - multiset{d};
    }

    /** Takes the descriptor out of a slot. */
    method ClearSlot(index: nat) returns (taken: Option<Descriptor>)
      requires Valid() && index < MAX_FD_NUM
      modifies this`fds, this`flags, this`hint, this`count, this`elsewhere
      ensures Valid() && taken == old(fds)[index]
      ensures fds == old(fds)[index := None] && flags == old(flags)[index := 0] && hint == Min(old(hint), index)
      ensures elsewhere == old(elsewhere) + Held(taken)
    {
      TableClear(fds, flags, hint, count, index);
      EndsTake(fds, pipes, elsewhere, index);
      count := SaturatingSub(count, CloExec(flags[index]));
      taken := fds[index];
      fds := fds[index := None];
      flags := flags[index := 0];
      if index < hint {
        hint := index;
      }
      elsewhere := elsewhere + Held(taken);
    }

    /** The lowest free slot in a range. */
    method FindFree(from: nat, to: nat) returns (r: Option<nat>)
      requires to <= |fds|
      ensures r.None? ==> forall i :: from <= i < to ==> fds[i].Some?
      ensures r.Some? ==> from <= r.value < to && fds[r.value].None? && forall i :: from <= i < r.value ==> fds[i].Some?
    {
      var i := from;
      while i < to
        invariant from <= i && forall j :: from <= j < i && j < to ==> fds[j].Some?
      {
        if fds[i].None? {
          return Some(i);
        }
        i := i + 1;
      }
      r := None;
    }

    /**
     The lowest free descriptor at or above `start` and below the limit, although the scan from 0 starts at the hint.
     Without one the descriptor is dropped.
     */
    method AllocSlotFrom(start: nat, limit: nat, d: Descriptor, f: nat) returns (r: Option<nat>)
      requires Valid() && d in elsewhere
      modifies this
      ensures Valid() && elsewhere == old(elsewhere) - multiset{d}
      ensures r.None? <==> forall i :: start <= i < Min(limit, MAX_FD_NUM) ==> old(fds)[i].Some?
      ensures r.Some? ==> && start <= r.value < Min(limit, MAX_FD_NUM) && old(fds)[r.value].None?
                          && (forall i :: start <= i < r.value ==> old(fds)[i].Some?)
                          && fds == old(fds)[r.value := Some(d)] && flags == old(flags)[r.value := CloExec(f)]
                              && pipes == old(pipes)
      ensures r.None? ==> && fds == old(fds) && flags == old(flags) && hint == old(hint) && count == old(count)
                          && pipes == Dropped(old(pipes), d)
    {
      var bound := Min(limit, MAX_FD_NUM);
      if start >= bound {
        Drop(d);
        return None;
      }
      var scanStart := if start == 0 then Min(hint, bound) else start;
      TableBelowHint(fds, flags, hint, count);
      r := FindFree(scanStart, bound);
      if r.Some? {
        SetSlot(r.value, d, f);
        return;
      }
      if scanStart > start {
        r := FindFree(start, scanStart);
        // below the hint everything is taken
        assert r.None?;
      }
      Drop(d);
    }

    method AllocAt(index: nat, d: Descriptor) returns (r: Result<()>)
      requires Valid() && d in elsewhere
      modifies this
      ensures Valid() && elsewhere == old(elsewhere) - multiset{d}
      ensures r == if index < MAX_FD_NUM then Ok(()) else Err(EBADF)
      ensures r.Ok? ==> fds == old(fds)[index := Some(d)] && flags == old(flags)[index := 0]
      ensures r.Err? ==> fds == old(fds) && flags == old(flags) && hint == old(hint) && pipes == Dropped(old(pipes), d)
    {
      if index >= MAX_FD_NUM {
        Drop(d);
        return Err(EBADF);
      }
      SetSlot(index, d, 0);
      r := Ok(());
    }

    predicate Open(fd: nat)
      reads this
    {
      fd < |fds| && fds[fd].Some?
    }

    /** Takes a descriptor out of the table. */
    method Remove(fd: nat) returns (r: Result<Descriptor>)
      requires Valid()
      modifies this`fds, this`flags, this`hint, this`count, this`elsewhere
      ensures Valid()
      ensures old(Open(fd)) ==> && r == Ok(old(fds)[fd].value) && fds == old(fds)[fd := None]
                                && flags == old(flags)[fd := 0] && elsewhere == old(elsewhere) + multiset{r.value}
      ensures !old(Open(fd)) ==> && r == Err(EBADF) && fds == old(fds) && flags == old(flags) && hint == old(hint)
                                 && count == old(count) && elsewhere == old(elsewhere)
    {
      if fd >= MAX_FD_NUM {
        return Err(EBADF);
      }
      if fds[fd].None? {
        return Err(EBADF);
      }
      var taken := ClearSlot(fd);
      r := Ok(taken.value);
    }

    /** Closes a descriptor: its slot is free, its endpoint is gone, nothing else changes hands. */
    method Free(fd: nat) returns (r: Result<()>)
      requires Valid()
      modifies this
      ensures Valid() && elsewhere == old(elsewhere)
      ensures old(Open(fd)) ==> && r == Ok(()) && fds == old(fds)[fd := None] && flags == old(flags)[fd := 0]
                                && pipes == Dropped(old(pipes), old(fds)[fd].value)
      ensures !old(Open(fd)) ==> && r == Err(EBADF) && fds == old(fds) && flags == old(flags) && hint == old(hint)
                                 && count == old(count) && pipes == old(pipes)
    {
      var taken := Remove(fd);
      if taken.Err? {
        return Err(EBADF);
      }
      Drop(taken.value);
      assert elsewhere == old(elsewhere);
      r := Ok(());
    }

    method FdFlags(fd: nat) returns (r: Result<nat>)
      requires Valid()
      ensures r == if Open(fd) then Ok(flags[fd]) else Err(EBADF)
    {
      if fd >= MAX_FD_NUM || fds[fd].None? {
        return Err(EBADF);
      }
      r := Ok(flags[fd]);
    }

    method SetFdFlags(fd: nat, f: nat) returns (r: Result<()>)
      requires Valid()
      modifies this`flags, this`count
      ensures Valid()
      ensures r == if Open(fd) then Ok(()) else Err(EBADF)
      ensures flags == if Open(fd) then old(flags)[fd := CloExec(f)] else old(flags)
    {
      if fd >= MAX_FD_NUM || fds[fd].None? {
        return Err(EBADF);
      }
      TableFlag(fds, flags, hint, count, fd, f);
      var before := flags[fd];
      flags := flags[fd := CloExec(f)];
      count := SaturatingSub(count, CloExec(before)) + CloExec(flags[fd]);
      r := Ok(());
    }

    /**
     Takes exactly the flagged descriptors out of the table, in order; the test of the counter that skips the scan
     does not change the result.
     */
    method CloseOnExec() returns (closed: seq<Descriptor>, ghost idx: seq<nat>)
      requires Valid()
      modifies this`fds, this`flags, this`hint, this`count, this`elsewhere
      ensures Valid()
      ensures forall j, k :: 0 <= j < k < |idx| ==> idx[j] < idx[k]
      ensures forall i: nat :: i in idx <==> i < MAX_FD_NUM && old(fds)[i].Some? && old(flags)[i] % 2 == 1
      ensures |closed| == |idx|
      ensures forall j :: 0 <= j < |idx| ==> idx[j] < MAX_FD_NUM && old(fds)[idx[j]] == Some(closed[j])
      ensures forall i :: 0 <= i < MAX_FD_NUM ==>
                fds[i] == (if old(flags)[i] % 2 == 1 then None else old(fds)[i]) && flags[i] == 0
      ensures forall d :: multiset(closed)[d] + multiset(fds)[Some(d)] == multiset(old(fds))[Some(d)]
      ensures elsewhere == old(elsewhere) + multiset(closed)
    {
      closed, idx := [], [];
      FlagsSmall(fds, flags, hint, count);
      if count == 0 {
        return;
      }
      closed, idx := TakeFlagged();
      assert SweepGuard(Key, |old(fds)|, fds, idx);
    }

    /** The scan of `close_on_exec`. */
    method TakeFlagged() returns (closed: seq<Descriptor>, ghost idx: seq<nat>)
      requires Valid()
      modifies this`fds, this`flags, this`hint, this`count, this`elsewhere
      ensures Valid() && elsewhere == old(elsewhere) + multiset(closed)
      ensures Sweep(old(fds), old(flags), |old(fds)|, fds, flags, idx, closed)
    {
      closed, idx := [], [];
      SweepStart(fds, flags, hint, count);
      var index := 0;
      while index < MAX_FD_NUM
        invariant index <= MAX_FD_NUM && Valid()
        invariant Sweep(old(fds), old(flags), index, fds, flags, idx, closed)
        invariant elsewhere == old(elsewhere) + multiset(closed)
      {
        closed, idx := TakeIfFlagged(index, closed, idx, old(fds), old(flags), old(elsewhere));
        index := index + 1;
      }
    }

    /** One turn of the scan of a table that held `fds0` with `flags0` at first. */
    method TakeIfFlagged(index: nat, before: seq<Descriptor>, ghost idx0: seq<nat>, ghost fds0: seq<Option<Descriptor>>,
                         ghost flags0: seq<nat>, ghost elsewhere0: multiset<Descriptor>)
      returns (closed: seq<Descriptor>, ghost idx: seq<nat>)
      requires Valid() && index < |fds0| == |flags0| == MAX_FD_NUM
      requires Sweep(fds0, flags0, index, fds, flags, idx0, before) && elsewhere == elsewhere0 + multiset(before)
      modifies this`fds, this`flags, this`hint, this`count, this`elsewhere
      ensures Valid() && elsewhere == elsewhere0 + multiset(closed)
      ensures Sweep(fds0, flags0, index + 1, fds, flags, idx, closed)
    {
      SweepStep(fds0, flags0, index, fds, flags, idx0, before);
      closed, idx := before, idx0;
      if fds[index].Some? && CloExec(flags[index]) != 0 {
        var taken := ClearSlot(index);
        closed, idx := closed + [taken.value], idx + [index];
      }
    }

    /** Closes everything: what endpoints remain are those elsewhere. */
    method CloseAll()
      requires Valid()
      modifies this
      ensures Valid() && elsewhere == old(elsewhere) && hint == 0 && count == 0
      ensures forall i :: 0 <= i < MAX_FD_NUM ==> fds[i].None? && flags[i] == 0
    {
      var index := 0;
      while index < MAX_FD_NUM
        invariant index <= MAX_FD_NUM && |fds| == MAX_FD_NUM && |flags| == MAX_FD_NUM
        invariant EndsMatch(fds, pipes, elsewhere) && elsewhere == old(elsewhere)
        invariant forall i :: 0 <= i < index ==> fds[i].None? && flags[i] == 0
      {
        DropSlot(index);
        flags := flags[index := 0];
        index := index + 1;
      }
      hint, count := 0, 0;
      CountZero(flags);
    }

    /** Overwrites a slot with nothing, which drops its descriptor. */
    method DropSlot(index: nat)
      requires index < |fds| && EndsMatch(fds, pipes, elsewhere)
      modifies this`fds, this`pipes
      ensures EndsMatch(fds, pipes, elsewhere) && fds == old(fds)[index := None]
    {
      EndsReplace(fds, pipes, elsewhere, index, None);
      assert elsewhere - Held(None) == elsewhere;
      var before := fds[index];
      fds := fds[index := None];
      pipes := DroppedSlot(pipes, before);
    }

    /**
     Duplicates a descriptor into the lowest free slot below the limit; a failure changes nothing, not even a
     count.
     */
    method DupBelow(from: nat, limit: nat) returns (r: Result<nat>)
      requires Valid()
      modifies this
      ensures Valid() && elsewhere == old(elsewhere)
      ensures r == Err(EBADF) <==> !old(Open(from))
      ensures r == Err(EMFILE) <==> old(Open(from)) && forall i :: 0 <= i < Min(limit, MAX_FD_NUM) ==> old(fds)[i].Some?
      ensures r.Ok? ==> && r.value < Min(limit, MAX_FD_NUM) && old(fds)[r.value].None?
                        && (forall i :: 0 <= i < r.value ==> old(fds)[i].Some?)
                        && fds == old(fds)[r.value := old(fds)[from]] && flags == old(flags)[r.value := 0]
                        && pipes == Cloned(old(pipes), old(fds)[from].value)
      ensures r.Err? ==> && fds == old(fds) && flags == old(flags) && hint == old(hint) && count == old(count)
                         && pipes == old(pipes)
    {
      if from >= MAX_FD_NUM || fds[from].None? {
        return Err(EBADF);
      }
      var d := fds[from].value;
      Clone(from);
      var slot := AllocSlotFrom(0, limit, d, 0);
      assert elsewhere == old(elsewhere);
      match slot
      case Some(fd) => r := Ok(fd);
      case None =>
        CloneDropIsNothing(old(pipes), d);
        r := Err(EMFILE);
    }

    /** Clones the descriptor in an open slot. */
    method Clone(from: nat)
      requires Valid() && Open(from)
      modifies this`pipes, this`elsewhere
      ensures Valid() && pipes == Cloned(old(pipes), fds[from].value)
                && elsewhere == old(elsewhere) + multiset{fds[from].value}
      ensures fds[from].value.PipeRead? || fds[from].value.PipeWrite? ==> fds[from].value.pipe in old(pipes)
    {
      OpenHasPipe(fds, pipes, elsewhere, from);
      EndsClone(fds, pipes, elsewhere, fds[from].value);
      pipes := Cloned(pipes, fds[from].value);
      elsewhere := elsewhere + multiset{fds[from].value};
    }

    method Dup2Below(from: nat, to: nat, limit: nat) returns (r: Result<nat>)
      requires Valid()
      modifies this
      ensures Valid() && elsewhere == old(elsewhere)
      ensures r == if !old(Open(from)) || to >= Min(limit, MAX_FD_NUM) then Err(EBADF) else Ok(to)
      ensures r.Err? || from == to ==> && fds == old(fds) && flags == old(flags) && hint == old(hint)
                                       && count == old(count) && pipes == old(pipes)
      ensures r.Ok? && from != to ==> fds == old(fds)[to := old(fds)[from]] && flags == old(flags)[to := 0]
    {
      if from >= MAX_FD_NUM || fds[from].None? {
        return Err(EBADF);
      }
      if to >= Min(limit, MAX_FD_NUM) {
        return Err(EBADF);
      }
      if from == to {
        return Ok(to);
      }
      if fds[to].Some? {
        var _ := Free(to);
      }
      CloneInto(from, to);
      r := Ok(to);
    }

    method CloneInto(from: nat, to: nat)
      requires Valid() && Open(from) && to < MAX_FD_NUM
      modifies this
      ensures Valid() && elsewhere == old(elsewhere)
      ensures fds == old(fds)[to := old(fds)[from]] && flags == old(flags)[to := 0]
    {
      var d := fds[from].value;
      InAndOut(elsewhere, d);
      Clone(from);
      SetSlot(to, d, 0);
    }

    method CloneSlot(i: nat)
      requires Valid() && i < MAX_FD_NUM
      modifies this`pipes, this`elsewhere
      ensures Valid() && elsewhere == old(elsewhere) + Held(fds[i])
    {
      assert elsewhere + multiset{} == elsewhere;
      if fds[i].Some? {
        Clone(i);
      }
    }

    /** The slots of a copy of the table, as for a new process: every descriptor is cloned. */
    method CloneSlots() returns (copy: seq<Option<Descriptor>>)
      requires Valid()
      modifies this`pipes, this`elsewhere
      ensures Valid() && copy == fds
      ensures forall d :: elsewhere[d] == old(elsewhere)[d] + multiset(fds)[Some(d)]
    {
      var i := 0;
      assert fds[..0] == [];
      while i < |fds|
        invariant i <= |fds| && Valid()
        invariant WithCopies(old(elsewhere), elsewhere, fds, i)
      {
        WithOneMore(old(elsewhere), elsewhere, fds, i);
        CloneSlot(i);
        i := i + 1;
      }
      assert fds[..|fds|] == fds;
      copy := fds;
    }
  }

  /** Descriptors that are not pipes add no endpoints. */
  lemma NoPipesMatch(fds: seq<Option<Descriptor>>, pipes: map<nat, Ends>, elsewhere: multiset<Descriptor>)
    requires EndsMatch([], pipes, elsewhere)
    requires forall i :: 0 <= i < |fds| && fds[i].Some? ==> !fds[i].value.PipeRead? && !fds[i].value.PipeWrite?
    ensures EndsMatch(fds, pipes, elsewhere)
  {
    var none: seq<Option<Descriptor>> := [];
    assert EndsGuard(Key, none, pipes);
    forall id: nat
      ensures PipeMatches(fds, pipes, elsewhere, id)
    {
      assert PipeMatches(none, pipes, elsewhere, id);
      assert Some(PipeRead(id)) !in fds && Some(PipeWrite(id)) !in fds;
    }
  }

  lemma FlagsSmall(fds: seq<Option<Descriptor>>, flags: seq<nat>, hint: nat, count: nat)
    requires Table(fds, flags, hint, count)
    ensures forall i :: 0 <= i < MAX_FD_NUM ==> flags[i] <= 1 && (fds[i].None? ==> flags[i] == 0)
    ensures count == 0 ==> forall i :: 0 <= i < MAX_FD_NUM ==> flags[i] == 0
  {
    assert TableGuard(Key, fds, flags);
    CountZero(flags);
    assert count == 0 ==> forall i :: 0 <= i < MAX_FD_NUM ==> CloExec(flags[i]) == 0;
  }
}
