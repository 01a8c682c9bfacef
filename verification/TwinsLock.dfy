/** TwinsLock: a counted, reentrant shared lock.  Every read of the shared state, every
    compareAndSetState and every write of a thread's counter is a step of its own, and the
    steps of any number of threads interleave freely. */
module TwinsLock {
  import opened Collections

  type Tid = nat

  /** Where a thread stands inside tryAcquireShared or tryReleaseShared. */
  datatype Pc =
    | Idle
    | ReadToAcquire            // about to read the state
    | CasToAcquire(seen: int)  // about to CAS the state from `seen` to `seen - 1`
    | SetCounter               // the CAS succeeded; the counter is not set yet
    | FirstIncrement           // the counter is 0
    | RemoveCounter            // the counter has come down to 0
    | ReadToRelease
    | CasToRelease(seen: int)

  /** `counter` is the thread-local Counter; `acquires` and `releases` count the calls that
      acquired and the calls of unlock; `result` is what tryAcquireShared returned last. */
  datatype Thread = Thread(pc: Pc, counter: Option<int>, acquires: nat, releases: nat, result: int)

  datatype State = State(free: int, threads: map<Tid, Thread>)

  const NEW_THREAD := Thread(Idle, None, 0, 0, -1)

  function Local(s: State, t: Tid): Thread {
    if t in s.threads then s.threads[t] else NEW_THREAD
  }

  function Initial(count: int): State {
    State(count, map[])
  }

  /** A thread calls lock or unlock, or goes on with its call.  `shouldAcquire` is what the
      fairness test answers, should it be asked. */
  datatype Event = Acquire(t: Tid, shouldAcquire: bool) | Release(t: Tid) | Go(t: Tid)

  /** A thread calls only when idle, and unlocks only what it holds. */
  predicate Enabled(s: State, event: Event) {
    var l := Local(s, event.t);
    match event
    case Acquire(_, _) => l.pc.Idle?
    case Release(_) => l.pc.Idle? && l.counter.Some?
    case Go(_) => !l.pc.Idle?
  }

  function With(s: State, t: Tid, l: Thread): State {
    s.(threads := s.threads[t := l])
  }

  function Step(s: State, event: Event): State {
    var t, l := event.t, Local(s, event.t);
    match event
    case Acquire(_, shouldAcquire) =>
      if l.counter.Some? then
        var n := l.counter.value + 1;
        With(s, t, l.(counter := Some(n), acquires := l.acquires + 1, result := n))
      else if !shouldAcquire then With(s, t, l.(result := -1))
      else With(s, t, l.(pc := ReadToAcquire))
    case Release(_) =>
      var n := (if l.counter.Some? then l.counter.value else 0) - 1;
      With(s, t, l.(counter := Some(n), releases := l.releases + 1, pc := if n > 0 then Idle else RemoveCounter))
    case Go(_) =>
      match l.pc
      case Idle => s
      case ReadToAcquire =>
        var newState := s.free - 1;
        if newState < 0 then With(s, t, l.(pc := Idle, result := newState))
        else With(s, t, l.(pc := CasToAcquire(s.free)))
      case CasToAcquire(seen) =>
        if s.free == seen then With(s.(free := seen - 1), t, l.(pc := SetCounter))
        else With(s, t, l.(pc := ReadToAcquire))
      case SetCounter => With(s, t, l.(pc := FirstIncrement, counter := Some(0)))
      case FirstIncrement =>
        var n := (if l.counter.Some? then l.counter.value else 0) + 1;
        With(s, t, l.(pc := Idle, counter := Some(n), acquires := l.acquires + 1, result := n))
      case RemoveCounter => With(s, t, l.(pc := ReadToRelease, counter := None))
      case ReadToRelease => With(s, t, l.(pc := CasToRelease(s.free)))
      case CasToRelease(seen) =>
        if s.free == seen then With(s.(free := seen + 1), t, l.(pc := Idle))
        else With(s, t, l.(pc := ReadToRelease))
  }

  function Run(s: State, events: seq<Event>): State
    decreases |events|
  {
    if events == [] then s else Step(Run(s, events[..|events| - 1]), events[|events| - 1])
  }

  ghost predicate Possible(s: State, events: seq<Event>)
    decreases |events|
  {
    events != [] ==>
      Possible(s, events[..|events| - 1]) && Enabled(Run(s, events[..|events| - 1]), events[|events| - 1])
  }

  // ----- Who accounts for a permit

  /** The thread has the lock: it has acquired more often than it has released. */
  predicate Holds(l: Thread) {
    l.acquires > l.releases
  }

  predicate Acquiring(l: Thread) {
    l.pc.SetCounter? || l.pc.FirstIncrement?
  }

  predicate Releasing(l: Thread) {
    l.pc.RemoveCounter? || l.pc.ReadToRelease? || l.pc.CasToRelease?
  }

  function Holders(s: State): set<Tid> {
    set t | t in s.threads && Holds(s.threads[t])
  }

  function InFlight(s: State): set<Tid> {
    set t | t in s.threads && (Acquiring(s.threads[t]) || Releasing(s.threads[t]))
  }

  /** The counter of a thread is the number of its acquires not yet released, and absent
      while that is zero, except within a call. */
  ghost predicate Sound(l: Thread) {
    && l.acquires >= l.releases
    && match l.pc
       case Idle => l.counter == if Holds(l) then Some(l.acquires - l.releases) else None
       case FirstIncrement => !Holds(l) && l.counter == Some(0)
       case RemoveCounter => !Holds(l) && l.counter == Some(0)
       case CasToAcquire(seen) => !Holds(l) && l.counter == None && seen >= 1
       case _ => !Holds(l) && l.counter == None
  }

  ghost predicate Invariant(s: State, count: int) {
    && (forall t :: t in s.threads ==> Sound(s.threads[t]))
    && Holders(s) !! InFlight(s)
    && s.free + |Holders(s)| + |InFlight(s)| == count
  }

  lemma WithCounts(s: State, t: Tid, l: Thread)
    ensures var s' := With(s, t, l);
            && |Holders(s')| == |Holders(s)| + (if Holds(l) then 1 else 0) - (if Holds(Local(s, t)) then 1 else 0)
            && |InFlight(s')| == |InFlight(s)| + (if Acquiring(l) || Releasing(l) then 1 else 0)
                                 - (if Acquiring(Local(s, t)) || Releasing(Local(s, t)) then 1 else 0)
  {
    var s' := With(s, t, l);
    assert Holders(s) - {t} == Holders(s') - {t};
    assert InFlight(s) - {t} == InFlight(s') - {t};
    Resize(Holders(s), Holders(s'), t);
    Resize(InFlight(s), InFlight(s'), t);
  }

  lemma StepKeeps(s: State, event: Event, count: int)
    requires Invariant(s, count) && Enabled(s, event)
    ensures Invariant(Step(s, event), count)
  {
    var l' := Local(Step(s, event), event.t);
    assert Sound(Local(s, event.t));
    StepLocal(s, event);
    WithCounts(s, event.t, l');
    var w := With(s, event.t, l');
    assert forall u :: u in w.threads && u != event.t ==> w.threads[u] == s.threads[u];
    assert Step(s, event) == w.(free := Step(s, event).free);
    SameThreads(w, Step(s, event));
  }

  lemma SameThreads(a: State, b: State)
    requires a.threads == b.threads
    ensures Holders(a) == Holders(b) && InFlight(a) == InFlight(b)
  {
  }

  /** Whether the thread accounts for a permit. */
  function Share(l: Thread): nat {
    (if Holds(l) then 1 else 0) + if Acquiring(l) || Releasing(l) then 1 else 0
  }

  /** A step changes one thread, and moves a permit exactly when it does so there. */
  lemma StepLocal(s: State, event: Event)
    requires Enabled(s, event) && Sound(Local(s, event.t))
    ensures var s', l, l' := Step(s, event), Local(s, event.t), Local(Step(s, event), event.t);
            s'.threads == s.threads[event.t := l'] && Sound(l') && s'.free + Share(l') == s.free + Share(l)
  {
  }

  /** In every interleaving: free permits, holders and calls in flight add up to the initial
      count, and every counter says how often its thread still holds the lock. */
  lemma {:induction false} RunKeeps(count: int, events: seq<Event>)
    requires Possible(Initial(count), events)
    ensures Invariant(Run(Initial(count), events), count)
    decreases |events|
  {
    if events != [] {
      RunKeeps(count, events[..|events| - 1]);
      StepKeeps(Run(Initial(count), events[..|events| - 1]), events[|events| - 1], count);
    }
  }

  lemma {:induction false} FreeNeverNegative(count: nat, events: seq<Event>)
    requires Possible(Initial(count), events)
    ensures Run(Initial(count), events).free >= 0
    decreases |events|
  {
    if events != [] {
      var before := events[..|events| - 1];
      FreeNeverNegative(count, before);
      RunKeeps(count, before);
      assert Sound(Local(Run(Initial(count), before), events[|events| - 1].t));
    }
  }

  /** At most `count` threads have the lock at any time. */
  lemma AtMostCount(count: nat, events: seq<Event>)
    requires Possible(Initial(count), events)
    ensures |Holders(Run(Initial(count), events))| <= count
  {
    RunKeeps(count, events);
    FreeNeverNegative(count, events);
  }

  /** A permit comes back only when a thread has released everything it had acquired; and it
      is taken only by a thread that had nothing. */
  lemma OutermostOnly(count: int, events: seq<Event>, event: Event)
    requires Possible(Initial(count), events) && Enabled(Run(Initial(count), events), event)
    ensures var s := Run(Initial(count), events);
            var s' := Step(s, event);
            && (s'.free > s.free ==> s'.free == s.free + 1 && Local(s, event.t).pc.CasToRelease? && !Holds(Local(s', event.t)) && Local(s', event.t).counter.None?)
            && (s'.free < s.free ==> s'.free == s.free - 1 && Local(s, event.t).pc.CasToAcquire? && !Holds(Local(s, event.t)))
  {
    RunKeeps(count, events);
    assert Sound(Local(Run(Initial(count), events), event.t));
  }

  /** A call of tryAcquireShared that ends reports success, by a value that is not negative,
      exactly when the thread then has the lock. */
  lemma ResultIsTruthful(count: nat, events: seq<Event>, event: Event)
    requires Possible(Initial(count), events) && Enabled(Run(Initial(count), events), event)
    requires var s := Run(Initial(count), events);
             var l := Local(s, event.t);
             (event.Acquire? || (event.Go? && (l.pc.ReadToAcquire? || l.pc.CasToAcquire? || Acquiring(l)))) &&
             Local(Step(s, event), event.t).pc.Idle?
    ensures var l := Local(Step(Run(Initial(count), events), event), event.t);
            l.result >= 0 <==> Holds(l)
  {
    RunKeeps(count, events);
    assert Sound(Local(Run(Initial(count), events), event.t));
  }

  // ----- What a call does when no other thread interferes

  function Alone(s: State, t: Tid, first: Event, steps: nat): State {
    if steps == 0 then Step(s, first) else Step(Alone(s, t, first, steps - 1), Go(t))
  }

  /** Nothing but the thread's own state decides whether it can start a call or go on. */
  lemma AlwaysEnabled(s: State, t: Tid, shouldAcquire: bool)
    ensures Local(s, t).pc.Idle? ==> Enabled(s, Acquire(t, shouldAcquire))
    ensures Local(s, t).pc.Idle? && Local(s, t).counter.Some? ==> Enabled(s, Release(t))
    ensures !Local(s, t).pc.Idle? ==> Enabled(s, Go(t))
  {
  }

  function Call(first: Event, steps: nat): seq<Event> {
    if steps == 0 then [first] else Call(first, steps - 1) + [Go(first.t)]
  }

  /** The steps of an undisturbed call are a run. */
  lemma {:induction false} AloneIsRun(s: State, first: Event, steps: nat)
    ensures Run(s, Call(first, steps)) == Alone(s, first.t, first, steps)
    decreases steps
  {
    if steps == 0 {
      assert [first][..0] == [];
    } else {
      AloneIsRun(s, first, steps - 1);
      assert Call(first, steps)[..|Call(first, steps)| - 1] == Call(first, steps - 1);
    }
  }

  ghost predicate OthersUnchanged(s: State, s': State, t: Tid) {
    s'.threads - {t} == s.threads - {t}
  }

  /** lock by a thread that does not hold it: takes one permit if there is one, and else fails
      without a trace but its result. */
  lemma SoloAcquire(s: State, t: Tid, count: int)
    requires Invariant(s, count) && Local(s, t).pc.Idle? && !Holds(Local(s, t))
    ensures var s' := Alone(s, t, Acquire(t, true), if s.free > 0 then 4 else 1);
            && Local(s', t).pc.Idle? && OthersUnchanged(s, s', t)
            && (s.free > 0 ==> s'.free == s.free - 1 && Holds(Local(s', t)) && Local(s', t).counter == Some(1) && Local(s', t).result == 1)
            && (s.free <= 0 ==> s'.free == s.free && Local(s', t) == Local(s, t).(result := s.free - 1))
    ensures var s' := Alone(s, t, Acquire(t, false), 0);
            s'.free == s.free && Local(s', t) == Local(s, t).(result := -1) && OthersUnchanged(s, s', t)
  {
    assert Sound(Local(s, t));
    var a := Step(s, Acquire(t, true));
    var b := Step(a, Go(t));
    if s.free > 0 {
      var c := Step(b, Go(t));
      var d := Step(c, Go(t));
      assert Alone(s, t, Acquire(t, true), 1) == b && Alone(s, t, Acquire(t, true), 2) == c;
      assert Alone(s, t, Acquire(t, true), 3) == d;
    }
  }

  /** lock by a thread that holds the lock: one level deeper, no permit. */
  lemma SoloReenter(s: State, t: Tid, count: int, shouldAcquire: bool)
    requires Invariant(s, count) && Local(s, t).pc.Idle? && Holds(Local(s, t))
    ensures var s', l := Step(s, Acquire(t, shouldAcquire)), Local(s, t);
            && s'.free == s.free && OthersUnchanged(s, s', t) && Local(s', t).pc.Idle?
            && Local(s', t).counter == Some(l.acquires - l.releases + 1) && Local(s', t).result == l.acquires - l.releases + 1
  {
    assert Sound(Local(s, t));
  }

  /** unlock: one level up; only the outermost gives its permit back. */
  lemma SoloRelease(s: State, t: Tid, count: int)
    requires Invariant(s, count) && Local(s, t).pc.Idle? && Holds(Local(s, t))
    ensures var l := Local(s, t);
            var outermost := l.acquires == l.releases + 1;
            var s' := Alone(s, t, Release(t), if outermost then 3 else 0);
            && Local(s', t).pc.Idle? && OthersUnchanged(s, s', t)
            && s'.free == s.free + (if outermost then 1 else 0)
            && Local(s', t).counter == if outermost then None else Some(l.acquires - l.releases - 1)
  {
    assert Sound(Local(s, t));
    var a := Step(s, Release(t));
    if Local(s, t).acquires == Local(s, t).releases + 1 {
      var b := Step(a, Go(t));
      var c := Step(b, Go(t));
      assert Alone(s, t, Release(t), 1) == b && Alone(s, t, Release(t), 2) == c;
    }
  }

  /** The thread goes on with its call, at most `n` steps, until the call ends. */
  function GoOn(s: State, t: Tid, n: nat): State
    decreases n
  {
    if n == 0 || Local(s, t).pc.Idle? then s else GoOn(Step(s, Go(t)), t, n - 1)
  }

  lemma GoOne(s: State, t: Tid, n: nat)
    requires !Local(s, t).pc.Idle? && n > 0
    ensures GoOn(s, t, n) == GoOn(Step(s, Go(t)), t, n - 1)
  {
  }

  lemma GoNone(s: State, t: Tid, n: nat)
    requires Local(s, t).pc.Idle?
    ensures GoOn(s, t, n) == s
  {
  }

  /** Where a call of lock stands that has not taken its permit: it ends with one if there is
      one then, however often its CAS has been lost before, and else it fails. */
  lemma SoloAcquires(s: State, t: Tid, count: int)
    requires Invariant(s, count) && (Local(s, t).pc.ReadToAcquire? || Local(s, t).pc.CasToAcquire?)
    ensures var s' := GoOn(s, t, 5);
            && Local(s', t).pc.Idle? && OthersUnchanged(s, s', t)
            && (s.free > 0 ==> Holds(Local(s', t)) && s'.free == s.free - 1 && Local(s', t).result == 1)
            && (s.free <= 0 ==> !Holds(Local(s', t)) && s'.free == s.free && Local(s', t).result < 0)
  {
    assert Sound(Local(s, t));
    if Local(s, t).pc.ReadToAcquire? {
      SoloReads(s, t, 5);
    } else {
      GoOne(s, t, 5);
      var a := Step(s, Go(t));
      if Local(s, t).pc.seen == s.free {
        SoloCounts(a, t, 4);
      } else {
        SoloReads(a, t, 4);
      }
    }
  }

  lemma SoloReads(s: State, t: Tid, n: nat)
    requires Local(s, t).pc.ReadToAcquire? && n >= 4 && Sound(Local(s, t))
    ensures var s' := GoOn(s, t, n);
            && Local(s', t).pc.Idle? && OthersUnchanged(s, s', t)
            && (s.free > 0 ==> Holds(Local(s', t)) && s'.free == s.free - 1 && Local(s', t).result == 1)
            && (s.free <= 0 ==> !Holds(Local(s', t)) && s'.free == s.free && Local(s', t).result < 0)
  {
    GoOne(s, t, n);
    var a := Step(s, Go(t));
    if s.free > 0 {
      GoOne(a, t, n - 1);
      SoloCounts(Step(a, Go(t)), t, n - 2);
    } else {
      GoNone(a, t, n - 1);
    }
  }

  /** Behind the CAS: the counter is set to one. */
  lemma SoloCounts(s: State, t: Tid, n: nat)
    requires Sound(Local(s, t)) && Acquiring(Local(s, t)) && n >= 2
    ensures var s' := GoOn(s, t, n);
            && Local(s', t).pc.Idle? && OthersUnchanged(s, s', t) && s'.free == s.free
            && Holds(Local(s', t)) && Local(s', t).counter == Some(1) && Local(s', t).result == 1
  {
    GoOne(s, t, n);
    var a := Step(s, Go(t));
    if Local(s, t).pc.SetCounter? {
      GoOne(a, t, n - 1);
      GoNone(Step(a, Go(t)), t, n - 2);
    } else {
      GoNone(a, t, n - 1);
    }
  }

  /** Where a call of unlock stands: it ends with the permit returned. */
  lemma SoloReturns(s: State, t: Tid, count: int)
    requires Invariant(s, count) && Releasing(Local(s, t))
    ensures var s' := GoOn(s, t, 4);
            && Local(s', t).pc.Idle? && OthersUnchanged(s, s', t)
            && s'.free == s.free + 1 && !Holds(Local(s', t)) && Local(s', t).counter == None
  {
    assert Sound(Local(s, t));
    if Local(s, t).pc.RemoveCounter? {
      GoOne(s, t, 4);
      SoloGivesBack(Step(s, Go(t)), t, 3);
    } else if Local(s, t).pc.ReadToRelease? {
      SoloGivesBack(s, t, 4);
    } else {
      GoOne(s, t, 4);
      var a := Step(s, Go(t));
      if Local(s, t).pc.seen == s.free {
        GoNone(a, t, 3);
      } else {
        SoloGivesBack(a, t, 3);
      }
    }
  }

  lemma SoloGivesBack(s: State, t: Tid, n: nat)
    requires Sound(Local(s, t)) && Local(s, t).pc.ReadToRelease? && n >= 2
    ensures var s' := GoOn(s, t, n);
            && Local(s', t).pc.Idle? && OthersUnchanged(s, s', t)
            && s'.free == s.free + 1 && !Holds(Local(s', t)) && Local(s', t).counter == None
  {
    GoOne(s, t, n);
    var a := Step(s, Go(t));
    GoOne(a, t, n - 1);
    GoNone(Step(a, Go(t)), t, n - 2);
  }

  function Repeat(s: State, event: Event, n: nat): State {
    if n == 0 then s else Step(Repeat(s, event, n - 1), event)
  }

  lemma {:induction false} SoloDeepens(s: State, t: Tid, count: int, shouldAcquire: bool, n: nat)
    requires Invariant(s, count) && Local(s, t).pc.Idle? && Holds(Local(s, t))
    ensures var s', l := Repeat(s, Acquire(t, shouldAcquire), n), Local(s, t);
            && Invariant(s', count) && s'.free == s.free && OthersUnchanged(s, s', t) && Local(s', t).pc.Idle?
            && Local(s', t).acquires == l.acquires + n && Local(s', t).releases == l.releases
    decreases n
  {
    if n > 0 {
      SoloDeepens(s, t, count, shouldAcquire, n - 1);
      var before := Repeat(s, Acquire(t, shouldAcquire), n - 1);
      SoloReenter(before, t, count, shouldAcquire);
      StepKeeps(before, Acquire(t, shouldAcquire), count);
      assert Sound(Local(before, t));
    }
  }

  lemma {:induction false} SoloUnwinds(s: State, t: Tid, count: int, n: nat)
    requires Invariant(s, count) && Local(s, t).pc.Idle? && Local(s, t).acquires - Local(s, t).releases > n
    ensures var s', l := Repeat(s, Release(t), n), Local(s, t);
            && Invariant(s', count) && s'.free == s.free && OthersUnchanged(s, s', t) && Local(s', t).pc.Idle?
            && Local(s', t).acquires == l.acquires && Local(s', t).releases == l.releases + n
    decreases n
  {
    if n > 0 {
      SoloUnwinds(s, t, count, n - 1);
      var before := Repeat(s, Release(t), n - 1);
      assert Sound(Local(before, t));
      SoloRelease(before, t, count);
      StepKeeps(before, Release(t), count);
    }
  }

  /** However deep a holder nests its calls, as many unlocks take it back to where it was: no
      permit moves, no other thread is affected, and its counter is what it was. */
  lemma SoloNesting(s: State, t: Tid, count: int, shouldAcquire: bool, n: nat)
    requires Invariant(s, count) && Local(s, t).pc.Idle? && Holds(Local(s, t))
    ensures var s' := Repeat(Repeat(s, Acquire(t, shouldAcquire), n), Release(t), n);
            && s'.free == s.free && OthersUnchanged(s, s', t) && Local(s', t).pc.Idle?
            && Local(s', t).counter == Local(s, t).counter
  {
    SoloDeepens(s, t, count, shouldAcquire, n);
    var deep := Repeat(s, Acquire(t, shouldAcquire), n);
    SoloUnwinds(deep, t, count, n);
    assert Sound(Local(s, t)) && Sound(Local(Repeat(deep, Release(t), n), t));
  }

  // ----- Progress of the system

  /** A CAS of any thread succeeds in this step. */
  ghost predicate CasSucceeds(s: State, event: Event) {
    var pc := Local(s, event.t).pc;
    event.Go? && ((pc.CasToAcquire? && pc.seen == s.free) || (pc.CasToRelease? && pc.seen == s.free))
  }

  /** A CAS fails only if, since the thread read the state, the CAS of another thread has
      succeeded: the loops cannot keep each other from progress. */
  lemma {:induction false} LostRace(s: State, t: Tid, events: seq<Event>)
    requires Local(s, t).pc == CasToAcquire(s.free) || Local(s, t).pc == CasToRelease(s.free)
    requires forall i :: 0 <= i < |events| ==> events[i].t != t
    requires !CasSucceeds(Run(s, events), Go(t))
    ensures exists i :: 0 <= i < |events| && CasSucceeds(Run(s, events[..i]), events[i])
    decreases |events|
  {
    Undisturbed(s, t, events);
    if events != [] {
      var before, last := events[..|events| - 1], events[|events| - 1];
      Undisturbed(s, t, before);
      if Run(s, before).free != s.free {
        LostRace(s, t, before);
        var i :| 0 <= i < |before| && CasSucceeds(Run(s, before[..i]), before[i]);
        assert before[..i] == events[..i] && before[i] == events[i];
      } else {
        assert CasSucceeds(Run(s, events[..|events| - 1]), events[|events| - 1]);
      }
    }
  }

  lemma {:induction false} Undisturbed(s: State, t: Tid, events: seq<Event>)
    requires forall i :: 0 <= i < |events| ==> events[i].t != t
    ensures Local(Run(s, events), t) == Local(s, t)
    decreases |events|
  {
    if events != [] {
      Undisturbed(s, t, events[..|events| - 1]);
    }
  }
}
