/** kernel/sched/spinlock.c for any number of processors: test-and-test-and-set locks, with and
    without the interrupt flag saved, as a state machine whose steps are the single accesses to a
    lock word and to the flag. */
module Spinlock {
  /** A lock taken or wanted: with the flag saved (spinlock_acquire_irqsave), and its saved value. */
  datatype Section = Section(lock: nat, saving: bool, savedFlag: bool)

  /** Where code is: outside the lock functions, before the exchange, in the inner loop that only
      reads, or between the release of a lock and the restoring of the flag. */
  datatype Point = Running | Exchanging(want: Section) | Reading(want: Section) | Restoring(savedFlag: bool)

  datatype Code = Code(point: Point, held: seq<Section>)
  {
    predicate Wants(lock: nat) {
      (point.Exchanging? || point.Reading?) && point.want.lock == lock
    }

    /** It is between disabling interrupts for a lock and restoring the flag. */
    ghost predicate Closed() {
      || point.Restoring? || ((point.Exchanging? || point.Reading?) && point.want.saving)
      || exists i :: 0 <= i < |held| && held[i].saving
    }
  }

  /** The last piece of code runs; each of the others was interrupted by the next. */
  datatype Cpu = Cpu(codes: seq<Code>, interruptsOn: bool)
  {
    function Top(): Code
      requires |codes| > 0
    {
      codes[|codes| - 1]
    }

    function WithTop(code: Code): Cpu
      requires |codes| > 0
    {
      this.(codes := codes[|codes| - 1 := code])
    }
  }

  datatype State = State(locked: seq<bool>, cpus: seq<Cpu>)

  datatype Action =
    | Acquire(lock: nat, saving: bool)
    | Exchange
    | Look
    | Release
    | Restore
    | Interrupt
    | Return
    | SetInterrupts(on: bool)

  /** What processor c can do.  Code does not enable interrupts itself while it has them disabled for
      a lock, releases its locks in the opposite order, and returns from an interrupt without any. */
  ghost predicate Can(s: State, c: nat, a: Action) {
    && c < |s.cpus| && |s.cpus[c].codes| > 0
    && var cpu, code := s.cpus[c], s.cpus[c].Top();
       match a
       case Acquire(lock, _) => code.point.Running? && lock < |s.locked|
       case Exchange => code.point.Exchanging? && code.point.want.lock < |s.locked|
       case Look => code.point.Reading? && code.point.want.lock < |s.locked|
       case Release => code.point.Running? && code.held != [] && code.held[|code.held| - 1].lock < |s.locked|
       case Restore => code.point.Restoring?
       case Interrupt => cpu.interruptsOn
       case Return => |cpu.codes| > 1 && code == Code(Running, [])
       case SetInterrupts(on) => code.point.Running? && (on ==> !code.Closed())
  }

  function Step(s: State, c: nat, a: Action): State
    requires Can(s, c, a)
  {
    var cpu, code := s.cpus[c], s.cpus[c].Top();
    match a
    case Acquire(lock, saving) =>
      var want := Section(lock, saving, cpu.interruptsOn);
      s.(cpus := s.cpus[c := cpu.WithTop(code.(point := Exchanging(want)))
                               .(interruptsOn := cpu.interruptsOn && !saving)])
    case Exchange =>
      var want := code.point.want;
      if s.locked[want.lock] then s.(cpus := s.cpus[c := cpu.WithTop(code.(point := Reading(want)))])
      else State(s.locked[want.lock := true], s.cpus[c := cpu.WithTop(Code(Running, code.held + [want]))])
    case Look =>
      if s.locked[code.point.want.lock] then s
      else s.(cpus := s.cpus[c := cpu.WithTop(code.(point := Exchanging(code.point.want)))])
    case Release =>
      var n := |code.held| - 1;
      var h := code.held[n];
      State(s.locked[h.lock := false],
            s.cpus[c := cpu.WithTop(Code(if h.saving then Restoring(h.savedFlag) else Running, code.held[..n]))])
    case Restore =>
      s.(cpus := s.cpus[c := cpu.WithTop(code.(point := Running)).(interruptsOn := code.point.savedFlag)])
    case Interrupt =>
      s.(cpus := s.cpus[c := Cpu(cpu.codes + [Code(Running, [])], false)])
    case Return =>
      s.(cpus := s.cpus[c := Cpu(cpu.codes[..|cpu.codes| - 1], true)])
    case SetInterrupts(on) =>
      s.(cpus := s.cpus[c := cpu.(interruptsOn := on)])
  }

  // ----- The two loops

  /** The code on processor c waits for that lock. */
  predicate Waits(s: State, c: nat, lock: nat) {
    c < |s.cpus| && |s.cpus[c].codes| > 0 && s.cpus[c].Top().Wants(lock) && lock < |s.locked|
  }

  /** Its next n accesses to the lock word, with nobody else doing anything; none after it has the lock. */
  function Spun(s: State, c: nat, lock: nat, n: nat): State
    decreases n
  {
    if n == 0 || !Waits(s, c, lock) then s
    else Spun(Step(s, c, if s.cpus[c].Top().point.Exchanging? then Exchange else Look), c, lock, n - 1)
  }

  /** From two accesses on, it has the lock exactly if the lock was free; if not it still waits, and has
      written nothing.  So the inner loop neither gives up while the lock is held nor misses its release. */
  lemma {:induction false} TakenWhenFree(s: State, c: nat, lock: nat, n: nat)
    requires Waits(s, c, lock) && n >= 2
    ensures !s.locked[lock] ==>
              && Spun(s, c, lock, n) == State(s.locked[lock := true], Spun(s, c, lock, n).cpus)
              && |Spun(s, c, lock, n).cpus| == |s.cpus|
              && Spun(s, c, lock, n).cpus[c]
                 == s.cpus[c].WithTop(Code(Running, s.cpus[c].Top().held + [s.cpus[c].Top().point.want]))
    ensures s.locked[lock] ==> Waits(Spun(s, c, lock, n), c, lock) && Spun(s, c, lock, n).locked == s.locked
  {
    if s.locked[lock] {
      StillSpins(s, c, lock, n);
    } else if s.cpus[c].Top().point.Exchanging? {
      HasStopped(Step(s, c, Exchange), c, lock, n - 1);
    } else {
      var again := Step(s, c, Look);
      HasStopped(Step(again, c, Exchange), c, lock, n - 2);
      assert Spun(again, c, lock, n - 1) == Step(again, c, Exchange);
      var taken := Code(Running, s.cpus[c].Top().held + [s.cpus[c].Top().point.want]);
      assert s.cpus[c].WithTop(again.cpus[c].Top()).WithTop(taken) == s.cpus[c].WithTop(taken);
    }
  }

  lemma HasStopped(s: State, c: nat, lock: nat, n: nat)
    requires c < |s.cpus| && |s.cpus[c].codes| > 0 && s.cpus[c].Top().point.Running?
    ensures Spun(s, c, lock, n) == s
  {
  }

  lemma {:induction false} StillSpins(s: State, c: nat, lock: nat, n: nat)
    requires Waits(s, c, lock) && s.locked[lock]
    ensures Waits(Spun(s, c, lock, n), c, lock) && Spun(s, c, lock, n).locked == s.locked
    decreases n
  {
    if n > 0 {
      StillSpins(Step(s, c, if s.cpus[c].Top().point.Exchanging? then Exchange else Look), c, lock, n - 1);
    }
  }

  // ----- One owner for each lock

  datatype Place = Place(cpu: nat, depth: nat, index: nat)

  predicate HoldsAt(s: State, p: Place, lock: nat) {
    && p.cpu < |s.cpus| && p.depth < |s.cpus[p.cpu].codes| && p.index < |s.cpus[p.cpu].codes[p.depth].held|
    && s.cpus[p.cpu].codes[p.depth].held[p.index].lock == lock
  }

  /** The lock word of each lock that has an owner is set, and nobody else holds it. */
  ghost predicate Owned(s: State, owner: map<nat, Place>) {
    && (forall p, lock :: HoldsAt(s, p, lock) ==> lock in owner && owner[lock] == p)
    && (forall lock :: lock in owner ==> lock < |s.locked| && HoldsAt(s, owner[lock], lock))
    && forall lock :: 0 <= lock < |s.locked| ==> (s.locked[lock] <==> lock in owner)
  }

  // ----- Interrupts stay off while they have to

  /** A section inside one with the flag saved has saved a cleared flag. */
  ghost predicate NestedFlags(code: Code) {
    && (forall i, j :: 0 <= i < j < |code.held| && code.held[i].saving && code.held[j].saving ==>
          !code.held[j].savedFlag)
    && forall i :: 0 <= i < |code.held| && code.held[i].saving ==>
         && (code.point.Restoring? ==> !code.point.savedFlag)
         && ((code.point.Exchanging? || code.point.Reading?) && code.point.want.saving ==> !code.point.want.savedFlag)
  }

  ghost predicate FlagsRight(cpu: Cpu) {
    && |cpu.codes| > 0
    && (forall d :: 0 <= d < |cpu.codes| ==> NestedFlags(cpu.codes[d]))
    && (forall d :: 0 <= d < |cpu.codes| - 1 ==> !cpu.codes[d].Closed())
    && (cpu.Top().Closed() ==> !cpu.interruptsOn)
  }

  ghost predicate AllFlagsRight(s: State) {
    forall c :: 0 <= c < |s.cpus| ==> FlagsRight(s.cpus[c])
  }

  ghost predicate Sound(s: State) {
    (exists owner :: Owned(s, owner)) && AllFlagsRight(s)
  }

  lemma StepKeepsFlags(s: State, c: nat, a: Action)
    requires Can(s, c, a) && FlagsRight(s.cpus[c])
    ensures FlagsRight(Step(s, c, a).cpus[c])
  {
    hide FlagsRight, NestedFlags;
    if a.Interrupt? || a.Return? {
      InterruptFlags(s, c, a);
    } else {
      var after := Step(s, c, a).cpus[c];
      TopFlags(s, c, a);
      TopChanged(s.cpus[c], after.Top(), after.interruptsOn);
    }
  }

  lemma InterruptFlags(s: State, c: nat, a: Action)
    requires Can(s, c, a) && FlagsRight(s.cpus[c]) && (a.Interrupt? || a.Return?)
    ensures FlagsRight(Step(s, c, a).cpus[c])
  {
    var cpu, after := s.cpus[c], Step(s, c, a).cpus[c];
    if a.Return? {
      assert !cpu.codes[|cpu.codes| - 2].Closed();
    } else {
      assert after.codes[..|cpu.codes|] == cpu.codes;
    }
  }

  /** Any other step changes the running code only. */
  lemma TopFlags(s: State, c: nat, a: Action)
    requires Can(s, c, a) && FlagsRight(s.cpus[c]) && !a.Interrupt? && !a.Return?
    ensures var after := Step(s, c, a).cpus[c];
            && |after.codes| > 0 && after == s.cpus[c].WithTop(after.Top()).(interruptsOn := after.interruptsOn)
            && NestedFlags(after.Top()) && (after.Top().Closed() ==> !after.interruptsOn)
  {
    assert NestedFlags(s.cpus[c].Top());
    assert s.cpus[c].codes == s.cpus[c].codes[..|s.cpus[c].codes| - 1] + [s.cpus[c].Top()];
  }

  lemma TopChanged(cpu: Cpu, code: Code, on: bool)
    requires FlagsRight(cpu) && NestedFlags(code) && (code.Closed() ==> !on)
    ensures FlagsRight(cpu.WithTop(code).(interruptsOn := on))
  {
    hide NestedFlags;
  }

  /** Who owns what after the step. */
  ghost function OwnersAfter(s: State, c: nat, a: Action, owner: map<nat, Place>): map<nat, Place>
    requires Can(s, c, a)
  {
    var cpu, code := s.cpus[c], s.cpus[c].Top();
    if a.Exchange? && !s.locked[code.point.want.lock] then
      owner[code.point.want.lock := Place(c, |cpu.codes| - 1, |code.held|)]
    else if a.Release? then owner - {code.held[|code.held| - 1].lock}
    else owner
  }

  /** A step changes who holds what in one place at most. */
  lemma HoldersAfter(s: State, c: nat, a: Action, p: Place, lock: nat)
    requires Can(s, c, a)
    ensures var code, top := s.cpus[c].Top(), |s.cpus[c].codes| - 1;
            HoldsAt(Step(s, c, a), p, lock) <==>
              if a.Release? then HoldsAt(s, p, lock) && p != Place(c, top, |code.held| - 1)
              else HoldsAt(s, p, lock) || (a.Exchange? && !s.locked[code.point.want.lock]
                                           && p == Place(c, top, |code.held|) && lock == code.point.want.lock)
  {
    var after := Step(s, c, a);
    if p.cpu == c && c < |s.cpus| {
      var codes, codes' := s.cpus[c].codes, after.cpus[c].codes;
      if p.depth < |codes| - 1 {
        assert codes'[p.depth] == codes[p.depth];
      }
    }
  }

  lemma OwnersHold(s: State, c: nat, a: Action, owner: map<nat, Place>, lock: nat)
    requires Can(s, c, a) && Owned(s, owner) && lock in OwnersAfter(s, c, a, owner)
    ensures lock < |s.locked| && HoldsAt(Step(s, c, a), OwnersAfter(s, c, a, owner)[lock], lock)
  {
    var code, top := s.cpus[c].Top(), |s.cpus[c].codes| - 1;
    HoldersAfter(s, c, a, OwnersAfter(s, c, a, owner)[lock], lock);
    if a.Release? {
      var n := |code.held| - 1;
      assert HoldsAt(s, Place(c, top, n), code.held[n].lock);
    }
  }

  lemma HoldersOwn(s: State, c: nat, a: Action, owner: map<nat, Place>, p: Place, lock: nat)
    requires Can(s, c, a) && Owned(s, owner) && HoldsAt(Step(s, c, a), p, lock)
    ensures lock in OwnersAfter(s, c, a, owner) && OwnersAfter(s, c, a, owner)[lock] == p
  {
    var code, top := s.cpus[c].Top(), |s.cpus[c].codes| - 1;
    HoldersAfter(s, c, a, p, lock);
    if a.Release? {
      var n := |code.held| - 1;
      assert HoldsAt(s, Place(c, top, n), code.held[n].lock);
    }
  }

  lemma LockWordsRight(s: State, c: nat, a: Action, owner: map<nat, Place>, lock: nat)
    requires Can(s, c, a) && Owned(s, owner) && lock < |s.locked|
    ensures |Step(s, c, a).locked| == |s.locked|
    ensures Step(s, c, a).locked[lock] <==> lock in OwnersAfter(s, c, a, owner)
  {
  }

  lemma StepKeepsOwners(s: State, c: nat, a: Action, owner: map<nat, Place>)
    requires Can(s, c, a) && Owned(s, owner)
    ensures Owned(Step(s, c, a), OwnersAfter(s, c, a, owner))
  {
    var after, owner' := Step(s, c, a), OwnersAfter(s, c, a, owner);
    forall p, lock: nat | HoldsAt(after, p, lock) ensures lock in owner' && owner'[lock] == p {
      HoldersOwn(s, c, a, owner, p, lock);
    }
    forall lock | lock in owner' ensures lock < |after.locked| && HoldsAt(after, owner'[lock], lock) {
      OwnersHold(s, c, a, owner, lock);
      LockWordsRight(s, c, a, owner, lock);
    }
    forall lock | 0 <= lock < |after.locked| ensures after.locked[lock] <==> lock in owner' {
      LockWordsRight(s, c, a, owner, lock);
    }
  }

  lemma StepKeepsAllFlags(s: State, c: nat, a: Action)
    requires Can(s, c, a) && AllFlagsRight(s)
    ensures AllFlagsRight(Step(s, c, a))
  {
    StepKeepsFlags(s, c, a);
    OthersStay(s, c, a);
  }

  lemma OthersStay(s: State, c: nat, a: Action)
    requires Can(s, c, a)
    ensures |Step(s, c, a).cpus| == |s.cpus|
    ensures forall b :: 0 <= b < |s.cpus| && b != c ==> Step(s, c, a).cpus[b] == s.cpus[b]
  {
  }

  lemma StepKeepsSound(s: State, c: nat, a: Action)
    requires Sound(s) && Can(s, c, a)
    ensures Sound(Step(s, c, a))
  {
    var owner :| Owned(s, owner);
    StepKeepsOwners(s, c, a, owner);
    StepKeepsAllFlags(s, c, a);
  }

  // ----- Whole runs

  datatype Event = Event(cpu: nat, action: Action)

  ghost predicate CanRun(s: State, events: seq<Event>)
    decreases |events|
  {
    events != [] ==> Can(s, events[0].cpu, events[0].action)
                     && CanRun(Step(s, events[0].cpu, events[0].action), events[1..])
  }

  ghost function Run(s: State, events: seq<Event>): State
    requires CanRun(s, events)
    decreases |events|
  {
    if events == [] then s else Run(Step(s, events[0].cpu, events[0].action), events[1..])
  }

  lemma RunFrom(s: State, e: Event, events: seq<Event>)
    requires Can(s, e.cpu, e.action) && CanRun(Step(s, e.cpu, e.action), events)
    ensures CanRun(s, [e] + events) && Run(s, [e] + events) == Run(Step(s, e.cpu, e.action), events)
  {
    assert ([e] + events)[1..] == events;
  }

  /** Nobody holds or wants a lock, and nobody handles an interrupt. */
  predicate Initial(s: State) {
    && (forall lock :: 0 <= lock < |s.locked| ==> !s.locked[lock])
    && forall c :: 0 <= c < |s.cpus| ==> s.cpus[c].codes == [Code(Running, [])]
  }

  lemma InitialIsSound(s: State)
    requires Initial(s)
    ensures Sound(s)
  {
    assert Owned(s, map[]);
  }

  lemma {:induction false} RunKeepsSound(s: State, events: seq<Event>)
    requires Sound(s) && CanRun(s, events)
    ensures Sound(Run(s, events))
    decreases |events|
  {
    if events != [] {
      StepKeepsSound(s, events[0].cpu, events[0].action);
      RunKeepsSound(Step(s, events[0].cpu, events[0].action), events[1..]);
    }
  }

  /** Mutual exclusion: in every reachable state a lock word is set exactly when somebody is in the
      lock's critical section, and never are two. */
  lemma MutualExclusion(s: State, events: seq<Event>, lock: nat)
    requires Initial(s) && CanRun(s, events) && lock < |s.locked|
    ensures var now := Run(s, events);
            && |now.locked| == |s.locked|
            && (now.locked[lock] <==> exists p :: HoldsAt(now, p, lock))
            && forall p, q :: HoldsAt(now, p, lock) && HoldsAt(now, q, lock) ==> p == q
  {
    InitialIsSound(s);
    RunKeepsSound(s, events);
    RunKeepsLocks(s, events);
    var owner :| Owned(Run(s, events), owner);
  }

  lemma {:induction false} RunKeepsLocks(s: State, events: seq<Event>)
    requires CanRun(s, events)
    ensures |Run(s, events).locked| == |s.locked|
    decreases |events|
  {
    if events != [] {
      RunKeepsLocks(Step(s, events[0].cpu, events[0].action), events[1..]);
    }
  }

  // ----- What saving the flag is for

  /** The code takes the lock with the flag saved only. */
  ghost predicate Saves(code: Code, lock: nat) {
    && (code.Wants(lock) ==> code.point.want.saving)
    && forall i :: 0 <= i < |code.held| && code.held[i].lock == lock ==> code.held[i].saving
  }

  ghost predicate AllSave(s: State, lock: nat) {
    forall c, d :: 0 <= c < |s.cpus| && 0 <= d < |s.cpus[c].codes| ==> Saves(s.cpus[c].codes[d], lock)
  }

  lemma {:induction false} RunKeepsSaving(s: State, events: seq<Event>, lock: nat)
    requires CanRun(s, events) && AllSave(s, lock)
    requires forall k :: 0 <= k < |events| ==> events[k].action != Acquire(lock, false)
    ensures AllSave(Run(s, events), lock)
    decreases |events|
  {
    if events != [] {
      StepKeepsSaving(s, events[0].cpu, events[0].action, lock);
      RunKeepsSaving(Step(s, events[0].cpu, events[0].action), events[1..], lock);
    }
  }

  lemma StepKeepsSaving(s: State, b: nat, a: Action, lock: nat)
    requires Can(s, b, a) && AllSave(s, lock) && a != Acquire(lock, false)
    ensures AllSave(Step(s, b, a), lock)
  {
    var after := Step(s, b, a);
    assert Saves(s.cpus[b].Top(), lock);
    forall c, d | 0 <= c < |after.cpus| && 0 <= d < |after.cpus[c].codes| ensures Saves(after.cpus[c].codes[d], lock) {
      assert d < |s.cpus[c].codes| ==> Saves(s.cpus[c].codes[d], lock);
    }
  }

  /** A lock that is only taken with the flag saved is never held by the code that an interrupt
      handler has interrupted, so the handler never waits for its own processor. */
  lemma HandlerNeverWaitsForItsOwn(s: State, events: seq<Event>, lock: nat, c: nat, d: nat, i: nat)
    requires Initial(s) && CanRun(s, events)
    requires forall k :: 0 <= k < |events| ==> events[k].action != Acquire(lock, false)
    requires c < |Run(s, events).cpus| && d < |Run(s, events).cpus[c].codes| - 1
    ensures !HoldsAt(Run(s, events), Place(c, d, i), lock)
  {
    InitialIsSound(s);
    RunKeepsSound(s, events);
    RunKeepsSaving(s, events, lock);
    var now := Run(s, events);
    assert FlagsRight(now.cpus[c]) && !now.cpus[c].codes[d].Closed() && Saves(now.cpus[c].codes[d], lock);
  }

  /** Leaving an inner section does not turn interrupts on in an outer one. */
  lemma InnerReleaseKeepsInterruptsOff(s: State, c: nat, i: nat)
    requires Sound(s) && Can(s, c, Restore)
    requires i < |s.cpus[c].Top().held| && s.cpus[c].Top().held[i].saving
    ensures !Step(s, c, Restore).cpus[c].interruptsOn
  {
    assert FlagsRight(s.cpus[c]) && NestedFlags(s.cpus[c].Top());
  }

  /** Code d of processor c is between taking the section, as its lock number k, and restoring the flag. */
  ghost predicate InSection(s: State, c: nat, d: nat, k: nat, section: Section) {
    && c < |s.cpus| && d < |s.cpus[c].codes|
    && var code := s.cpus[c].codes[d];
       || ((code.point.Exchanging? || code.point.Reading?) && code.point.want == section && |code.held| == k)
       || (|code.held| > k && code.held[k] == section)
       || (code.point == Restoring(section.savedFlag) && |code.held| == k)
  }

  /** Event e of processor c restores the flag of that section. */
  ghost predicate Leaves(s: State, e: Event, c: nat, d: nat, k: nat) {
    && e == Event(c, Restore) && c < |s.cpus| && d + 1 == |s.cpus[c].codes| && |s.cpus[c].codes[d].held| == k
  }

  lemma SectionStep(s: State, e: Event, c: nat, d: nat, k: nat, section: Section)
    requires Can(s, e.cpu, e.action) && InSection(s, c, d, k, section) && section.saving
    ensures if Leaves(s, e, c, d, k) then Step(s, e.cpu, e.action).cpus[c].interruptsOn == section.savedFlag
            else InSection(Step(s, e.cpu, e.action), c, d, k, section)
  {
    OthersStay(s, e.cpu, e.action);
    var after := Step(s, e.cpu, e.action);
    if e.cpu == c {
      var top := |s.cpus[c].codes| - 1;
      assert d < top && d < |after.cpus[c].codes| ==> after.cpus[c].codes[d] == s.cpus[c].codes[d];
    }
  }

  /** Along the run the code stays in the section up to the event that leaves it, and that event gives the
      processor the saved flag back. */
  ghost predicate FlagComesBack(s: State, events: seq<Event>, c: nat, d: nat, k: nat, section: Section)
    requires CanRun(s, events)
    decreases |events|
  {
    && InSection(s, c, d, k, section)
    && (events != [] ==>
          var next := Step(s, events[0].cpu, events[0].action);
          if Leaves(s, events[0], c, d, k) then c < |next.cpus| && next.cpus[c].interruptsOn == section.savedFlag
          else FlagComesBack(next, events[1..], c, d, k, section))
  }

  lemma {:induction false} SectionRestoresFlag(s: State, events: seq<Event>, c: nat, d: nat, k: nat, section: Section)
    requires CanRun(s, events) && InSection(s, c, d, k, section) && section.saving
    ensures FlagComesBack(s, events, c, d, k, section)
    decreases |events|
  {
    if events != [] {
      SectionStep(s, events[0], c, d, k, section);
      OthersStay(s, events[0].cpu, events[0].action);
      if !Leaves(s, events[0], c, d, k) {
        SectionRestoresFlag(Step(s, events[0].cpu, events[0].action), events[1..], c, d, k, section);
      }
    }
  }

  /** So over every run, the interrupt flag after the matching release is what it was before the acquisition,
      whatever the code, its interrupt handlers and the other processors do in between. */
  lemma AcquireToRelease(s: State, events: seq<Event>, c: nat, lock: nat)
    requires Can(s, c, Acquire(lock, true)) && CanRun(Step(s, c, Acquire(lock, true)), events)
    ensures FlagComesBack(Step(s, c, Acquire(lock, true)), events, c, |s.cpus[c].codes| - 1, |s.cpus[c].Top().held|,
                          Section(lock, true, s.cpus[c].interruptsOn))
  {
    AcquireEntersSection(s, c, lock);
    SectionRestoresFlag(Step(s, c, Acquire(lock, true)), events, c, |s.cpus[c].codes| - 1, |s.cpus[c].Top().held|,
                        Section(lock, true, s.cpus[c].interruptsOn));
  }

  /** The acquisition itself enters such a section, with the flag as it is. */
  lemma AcquireEntersSection(s: State, c: nat, lock: nat)
    requires Can(s, c, Acquire(lock, true))
    ensures InSection(Step(s, c, Acquire(lock, true)), c, |s.cpus[c].codes| - 1, |s.cpus[c].Top().held|,
                      Section(lock, true, s.cpus[c].interruptsOn))
  {
  }

  /** Code of processor c waits for a lock that the code it interrupted holds. */
  ghost predicate WaitsForItself(s: State, c: nat, d: nat, i: nat, lock: nat) {
    && c < |s.cpus| && d < |s.cpus[c].codes| - 1 && HoldsAt(s, Place(c, d, i), lock)
    && exists e :: d < e < |s.cpus[c].codes| && s.cpus[c].codes[e].Wants(lock)
  }

  /** Once that happens, and with spinlock_acquire it can, it stays so whatever anybody does. */
  lemma {:induction false} WaitsForItselfForever(s: State, events: seq<Event>, c: nat, d: nat, i: nat, lock: nat)
    requires Sound(s) && CanRun(s, events) && WaitsForItself(s, c, d, i, lock)
    ensures WaitsForItself(Run(s, events), c, d, i, lock)
    decreases |events|
  {
    if events != [] {
      StepKeepsSound(s, events[0].cpu, events[0].action);
      HeldIsLocked(s, Place(c, d, i), lock);
      StillWaits(s, events[0].cpu, events[0].action, c, d, i, lock);
      WaitsForItselfForever(Step(s, events[0].cpu, events[0].action), events[1..], c, d, i, lock);
    }
  }

  lemma HeldIsLocked(s: State, p: Place, lock: nat)
    requires Sound(s) && HoldsAt(s, p, lock)
    ensures lock < |s.locked| && s.locked[lock]
  {
    var owner :| Owned(s, owner);
  }

  lemma StillWaits(s: State, b: nat, a: Action, c: nat, d: nat, i: nat, lock: nat)
    requires Can(s, b, a) && WaitsForItself(s, c, d, i, lock) && lock < |s.locked| && s.locked[lock]
    ensures WaitsForItself(Step(s, b, a), c, d, i, lock)
  {
    var e :| d < e < |s.cpus[c].codes| && s.cpus[c].codes[e].Wants(lock);
    StillWanted(s, b, a, c, e, lock);
    HoldersAfter(s, b, a, Place(c, d, i), lock);
  }

  lemma StillWanted(s: State, b: nat, a: Action, c: nat, e: nat, lock: nat)
    requires Can(s, b, a) && c < |s.cpus| && e < |s.cpus[c].codes| && s.cpus[c].codes[e].Wants(lock)
    requires lock < |s.locked| && s.locked[lock]
    ensures e < |Step(s, b, a).cpus[c].codes| && Step(s, b, a).cpus[c].codes[e].Wants(lock)
  {
    if b == c && e < |s.cpus[c].codes| - 1 {
      assert Step(s, b, a).cpus[c].codes[e] == s.cpus[c].codes[e];
    }
  }

  lemma OneCpu(s: State, t: State)
    requires |s.cpus| == |t.cpus| == 1 && s.locked == t.locked
    requires s.cpus[0].codes == t.cpus[0].codes && s.cpus[0].interruptsOn == t.cpus[0].interruptsOn
    ensures s == t
  {
    assert s.cpus[0] == t.cpus[0];
  }

  /** The states on the way to the deadlock. */
  lemma DeadlockStates() returns (s: State, s1: State, s2: State, s3: State, s4: State)
    ensures Initial(s) && WaitsForItself(s4, 0, 0, 0, 0)
    ensures Can(s, 0, Acquire(0, false)) && Step(s, 0, Acquire(0, false)) == s1
    ensures Can(s1, 0, Exchange) && Step(s1, 0, Exchange) == s2
    ensures Can(s2, 0, Interrupt) && Step(s2, 0, Interrupt) == s3
    ensures Can(s3, 0, Acquire(0, false)) && Step(s3, 0, Acquire(0, false)) == s4
  {
    var plain := Section(0, false, true);
    s := State([false], [Cpu([Code(Running, [])], true)]);
    s1 := State([false], [Cpu([Code(Exchanging(plain), [])], true)]);
    s2 := State([true], [Cpu([Code(Running, [plain])], true)]);
    s3 := State([true], [Cpu([Code(Running, [plain]), Code(Running, [])], false)]);
    s4 := State([true], [Cpu([Code(Running, [plain]), Code(Exchanging(Section(0, false, false)), [])], false)]);
    OneCpu(Step(s, 0, Acquire(0, false)), s1);
    assert [] + [plain] == [plain];
    OneCpu(Step(s1, 0, Exchange), s2);
    OneCpu(Step(s2, 0, Interrupt), s3);
    OneCpu(Step(s3, 0, Acquire(0, false)), s4);
    assert s4.cpus[0].codes[1].Wants(0);
  }

  /** With spinlock_acquire it happens on a single processor: an interrupt comes while the lock is
      held, and its handler wants the same lock. */
  lemma PlainAcquireCanDeadlock() returns (s: State, events: seq<Event>)
    ensures Initial(s) && CanRun(s, events) && WaitsForItself(Run(s, events), 0, 0, 0, 0)
  {
    hide Initial, Can, Step, WaitsForItself;
    var s1, s2, s3, s4;
    s, s1, s2, s3, s4 := DeadlockStates();
    var acquire := Event(0, Acquire(0, false));
    RunFrom(s3, acquire, []);
    RunFrom(s2, Event(0, Interrupt), [acquire] + []);
    RunFrom(s1, Event(0, Exchange), [Event(0, Interrupt)] + ([acquire] + []));
    events := [acquire] + ([Event(0, Exchange)] + ([Event(0, Interrupt)] + ([acquire] + [])));
    RunFrom(s, acquire, [Event(0, Exchange)] + ([Event(0, Interrupt)] + ([acquire] + [])));
  }
}
