/** deferred.then: the closures that `resolve(depth, ...)` makes for one call of `then`, any
    of which the environment may call at any time, and the counter `maxDepth` that silences
    thenables that have been superseded (section 2.3.3.3.3 of Promises/A+). */
module Then {
  import opened Collections
  import D = Deferred

  /** The function a closure applies: the one passed to `then`, or a stand-in. */
  datatype Handler = User | Identity | Thrower

  /** What the new deferred is settled with: the arguments of the closure, or one value. */
  datatype Payload = Original(args: nat) | Single(value: nat)

  /** What a closure that has not ended is doing, each of which can run foreign code: its
      handler, or the getter of the `then` of what that returned; the `then` call of a thenable
      it adopted; the callbacks of the new deferred, which it resolves; the exceptionHook,
      called with what was thrown; the callbacks of the new deferred, which it rejects. */
  datatype Phase = Handling | Calling | Resolving | Hooking(e: nat) | Rejecting

  /** `adopted` is the depth of the thenable that this closure adopted. */
  datatype Frame = Frame(depth: nat, handler: Handler, args: nat, adopted: Option<nat>, phase: Phase)

  /** One call of resolveWith or rejectWith on the new deferred.  `source` is the depth it
      speaks for, and `latest` the depth of the source adopted last at that moment. */
  datatype Attempt = Attempt(side: D.Side, payload: Payload, source: nat, latest: nat)

  /** `frames` is the stack of closures that have not ended.  `started` tells that the deferred
      has settled and run its own closure, of depth 0. */
  datatype State = State(maxDepth: nat, frames: seq<Frame>, started: bool, attempts: seq<Attempt>)

  function Initial(): State {
    State(0, [], false, [])
  }

  datatype Event =
    | Start(depth: nat, handler: Handler, args: nat)   // a closure is called
    | Throw(e: nat)                                    // what the top closure is doing throws
    | Give(value: nat)                                 // the value returned is no thenable
    | GiveThenable                                     // the value returned is a thenable
    | HookReturns                                      // the exceptionHook returns
    | Ends                                             // the `then` call, or the callbacks, return

  function Top(s: State): Frame
    requires s.frames != []
  {
    s.frames[|s.frames| - 1]
  }

  function Pop(s: State): State
    requires s.frames != []
  {
    s.(frames := s.frames[..|s.frames| - 1])
  }

  function Retop(s: State, f: Frame): State
    requires s.frames != []
  {
    s.(frames := s.frames[..|s.frames| - 1] + [f])
  }

  function Try(s: State, side: D.Side, payload: Payload, source: nat): State {
    s.(attempts := s.attempts + [Attempt(side, payload, source, s.maxDepth)])
  }

  function Source(f: Frame): nat {
    if f.adopted.Some? then f.adopted.value else f.depth
  }

  /** Only the stand-ins pass all arguments on. */
  function Given(f: Frame, value: nat): Payload {
    if f.handler.Identity? then Original(f.args) else Single(value)
  }

  function Thrown(f: Frame, e: nat): Payload {
    if f.handler.Thrower? then Original(f.args) else Single(e)
  }

  /** Which events can happen.  A closure exists once its depth has been reached, and the
      deferred runs its own closure once. */
  predicate Enabled(s: State, event: Event) {
    match event
    case Start(depth, handler, _) =>
      && (if depth == 0 then !s.started else depth <= s.maxDepth && !handler.User?)
      && (s.frames != [] ==> !(Top(s).phase.Handling? && Top(s).handler.Thrower?))
    case Throw(_) => s.frames != []
    case Give(_) => s.frames != [] && Top(s).phase.Handling? && !Top(s).handler.Thrower?
    case GiveThenable => s.frames != [] && Top(s).phase.Handling? && !Top(s).handler.Thrower?
    case HookReturns => s.frames != [] && Top(s).phase.Hooking?
    case Ends => s.frames != [] && (Top(s).phase.Calling? || Top(s).phase.Resolving? || Top(s).phase.Rejecting?)
  }

  function Step(s: State, event: Event): State {
    if event.Start? then
      var s := s.(started := true);
      if event.depth < s.maxDepth then s
      else s.(frames := s.frames + [Frame(event.depth, event.handler, event.args, None, Handling)])
    else if s.frames == [] then s
    else
      var top := Top(s);
      match event
      case Throw(e) =>
        if top.phase.Hooking? || top.phase.Rejecting? then Pop(s) else Retop(s, top.(phase := Hooking(e)))
      case Give(value) =>
        Try(Retop(s, top.(phase := Resolving)), D.Done, Given(top, value), Source(top))
      case GiveThenable =>
        Retop(s, top.(adopted := Some(s.maxDepth + 1), phase := Calling)).(maxDepth := s.maxDepth + 1)
      case HookReturns =>
        if top.depth + 1 >= s.maxDepth then
          Try(Retop(s, top.(phase := Rejecting)), D.Fail,
              Thrown(top, if top.phase.Hooking? then top.phase.e else 0), Source(top))
        else Pop(s)
      case _ => Pop(s)
  }

  function Run(events: seq<Event>): State
    decreases |events|
  {
    if events == [] then Initial() else Step(Run(events[..|events| - 1]), events[|events| - 1])
  }

  ghost predicate Possible(events: seq<Event>)
    decreases |events|
  {
    events != [] ==>
      Possible(events[..|events| - 1]) && Enabled(Run(events[..|events| - 1]), events[|events| - 1])
  }

  lemma RunSnoc(events: seq<Event>, event: Event)
    ensures Run(events + [event]) == Step(Run(events), event)
    ensures Possible(events) && Enabled(Run(events), event) ==> Possible(events + [event])
  {
    assert (events + [event])[..|events + [event]| - 1] == events;
  }

  ghost predicate FromLatest(a: Attempt) {
    a.source == a.latest
  }

  ghost predicate AllFromLatest(s: State) {
    forall i :: 0 <= i < |s.attempts| ==> FromLatest(s.attempts[i])
  }

  // ----- Closures and the events between their start and their end

  function Height(events: seq<Event>, k: nat): nat
    requires k <= |events|
  {
    |Run(events[..k]).frames|
  }

  /** Event `i` started the closure that is now the `q`-th on the stack. */
  ghost predicate Opens(events: seq<Event>, i: nat, q: nat) {
    && i < |events| && events[i].Start? && Height(events, i) == q
    && forall k :: i < k <= |events| ==> Height(events, k) > q
  }

  /** How many thenables are adopted. */
  function Adoptions(events: seq<Event>): nat
    decreases |events|
  {
    if events == [] then 0 else Adoptions(events[..|events| - 1]) + if events[|events| - 1].GiveThenable? then 1 else 0
  }

  lemma {:induction false} AdoptionsAppend(a: seq<Event>, b: seq<Event>)
    ensures Adoptions(a + b) == Adoptions(a) + Adoptions(b)
    decreases |b|
  {
    if b == [] {
      assert a + b == a;
    } else {
      assert (a + b)[..|a + b| - 1] == a + b[..|b| - 1];
      AdoptionsAppend(a, b[..|b| - 1]);
    }
  }

  lemma {:induction false} DepthIsAdoptions(events: seq<Event>)
    requires Possible(events)
    ensures Run(events).maxDepth == Adoptions(events)
    decreases |events|
  {
    if events != [] {
      DepthIsAdoptions(events[..|events| - 1]);
      StepDepth(Run(events[..|events| - 1]), events[|events| - 1]);
    }
  }

  lemma StepDepth(s: State, event: Event)
    requires Enabled(s, event)
    ensures Step(s, event).maxDepth == s.maxDepth + if event.GiveThenable? then 1 else 0
  {
  }

  /** Only one event can have started a closure that has not ended. */
  lemma OpensOnce(events: seq<Event>, i: nat, j: nat, q: nat)
    requires Opens(events, i, q) && Opens(events, j, q)
    ensures i == j
  {
  }

  /** The closure `f`, `q`-th on the stack, was started by event `i`, when nothing adopted had
      superseded it; and what it was thrown has been thrown since. */
  ghost predicate OpenedBy(events: seq<Event>, i: nat, q: nat, f: Frame) {
    && Opens(events, i, q) && events[i] == Start(f.depth, f.handler, f.args)
    && Run(events[..i]).maxDepth == f.depth
    && (f.phase.Hooking? ==> ThrownSince(events, i, q, f.phase.e))
  }

  ghost predicate ThrownSince(events: seq<Event>, i: nat, q: nat, e: nat) {
    exists k :: i < k < |events| && events[k] == Throw(e) && Height(events, k) == q + 1
  }

  ghost predicate IsOpened(events: seq<Event>, q: nat, f: Frame) {
    exists i: nat :: OpenedBy(events, i, q, f)
  }

  ghost predicate AllOpened(events: seq<Event>) {
    forall q :: 0 <= q < |Run(events).frames| ==> IsOpened(events, q, Run(events).frames[q])
  }

  lemma HeightStays(events: seq<Event>, event: Event, k: nat)
    requires k <= |events|
    ensures (events + [event])[..k] == events[..k] && Height(events + [event], k) == Height(events, k)
    ensures Height(events, |events|) == |Run(events).frames|
  {
    assert (events + [event])[..k] == events[..k];
    assert events[..|events|] == events;
  }

  /** A closure that stays on the stack keeps its opener. */
  lemma OpenerStays(events: seq<Event>, event: Event, i: nat, q: nat, f: Frame, f': Frame)
    requires OpenedBy(events, i, q, f) && q < |Step(Run(events), event).frames|
    requires f' == f.(adopted := f'.adopted, phase := f'.phase)
    requires f'.phase.Hooking? ==> f'.phase == f.phase || (event == Throw(f'.phase.e) && q + 1 == |Run(events).frames|)
    ensures OpenedBy(events + [event], i, q, f')
  {
    var more := events + [event];
    RunSnoc(events, event);
    forall k | i < k <= |more| ensures Height(more, k) > q {
      if k <= |events| {
        HeightStays(events, event, k);
      } else {
        assert more[..k] == more;
      }
    }
    HeightStays(events, event, i);
    if f'.phase.Hooking? {
      if f'.phase == f.phase {
        var k :| i < k < |events| && events[k] == Throw(f.phase.e) && Height(events, k) == q + 1;
        HeightStays(events, event, k);
        assert more[k] == Throw(f'.phase.e);
      } else {
        HeightStays(events, event, |events|);
        assert more[|events|] == event;
      }
    }
  }

  lemma NewIsOpened(events: seq<Event>, event: Event)
    requires Enabled(Run(events), event) && event.Start? && event.depth >= Run(events).maxDepth
    requires Run(events).maxDepth > 0 ==> Run(events).started
    ensures OpenedBy(events + [event], |events|, |Run(events).frames|,
                     Frame(event.depth, event.handler, event.args, None, Handling))
  {
    var more := events + [event];
    RunSnoc(events, event);
    HeightStays(events, event, |events|);
    assert more[..|events|] == events && more[..|more|] == more;
  }

  /** What else holds of the stack. */
  ghost predicate Sound(s: State) {
    && (s.maxDepth > 0 ==> s.started)
    && forall q :: 0 <= q < |s.frames| ==> SoundFrame(s.frames[q], s.maxDepth)
  }

  ghost predicate SoundFrame(f: Frame, maxDepth: nat) {
    && f.depth <= maxDepth
    && (f.adopted.Some? ==> f.depth < f.adopted.value <= maxDepth)
    && (f.phase.Calling? ==> f.adopted.Some?)
    && (f.phase.Handling? || f.phase.Resolving? ==> f.adopted.None?)
  }

  lemma StepSound(s: State, event: Event)
    requires Sound(s) && Enabled(s, event)
    requires s.frames != [] ==> s.started
    ensures Sound(Step(s, event)) && (Step(s, event).frames != [] ==> Step(s, event).started)
  {
  }

  lemma {:induction false} RunSound(events: seq<Event>)
    requires Possible(events)
    ensures Sound(Run(events)) && (Run(events).frames != [] ==> Run(events).started)
    decreases |events|
  {
    if events != [] {
      RunSound(events[..|events| - 1]);
      StepSound(Run(events[..|events| - 1]), events[|events| - 1]);
    }
  }

  lemma StepOpened(events: seq<Event>, event: Event)
    requires Possible(events) && Enabled(Run(events), event) && AllOpened(events)
    ensures AllOpened(events + [event])
  {
    var s, s' := Run(events), Step(Run(events), event);
    RunSnoc(events, event);
    RunSound(events);
    assert |s'.frames| <= |s.frames| + 1;
    forall q | 0 <= q < |s'.frames| ensures IsOpened(events + [event], q, s'.frames[q]) {
      if q == |s.frames| {
        PushedLast(s, event);
        NewIsOpened(events, event);
      } else {
        FrameStays(s, event, q);
        assert IsOpened(events, q, s.frames[q]);
        var i: nat :| OpenedBy(events, i, q, s.frames[q]);
        OpenerStays(events, event, i, q, s.frames[q], s'.frames[q]);
      }
    }
  }

  lemma FrameStays(s: State, event: Event, q: nat)
    requires Enabled(s, event) && q < |s.frames| && q < |Step(s, event).frames|
    ensures var f, f' := s.frames[q], Step(s, event).frames[q];
            && f' == f.(adopted := f'.adopted, phase := f'.phase)
            && (f'.phase.Hooking? ==> f'.phase == f.phase || (event == Throw(f'.phase.e) && q + 1 == |s.frames|))
  {
  }

  lemma PushedLast(s: State, event: Event)
    requires Enabled(s, event) && |Step(s, event).frames| > |s.frames|
    ensures event.Start? && event.depth >= s.maxDepth && |Step(s, event).frames| == |s.frames| + 1
    ensures Step(s, event).frames[|s.frames|] == Frame(event.depth, event.handler, event.args, None, Handling)
  {
  }

  lemma {:induction false} RunOpened(events: seq<Event>)
    requires Possible(events)
    ensures AllOpened(events)
    decreases |events|
  {
    if events != [] {
      var before, last := events[..|events| - 1], events[|events| - 1];
      RunOpened(before);
      StepOpened(before, last);
      assert before + [last] == events;
    }
  }

  // ----- When superseded sources are silent

  /** Where `event` settles or tests whether to reject: if the top closure gives a value, no
      thenable has been adopted since it was started; if its exception has been through the
      hook, and it has adopted nothing itself, not exactly one has. */
  ghost predicate Unovertaken(events: seq<Event>, event: Event) {
    Run(events).frames != [] ==> forall i: nat :: Opens(events, i, |Run(events).frames| - 1) ==>
      && (event.Give? ==> Adoptions(events[i..]) == 0)
      && (event.HookReturns? && Top(Run(events)).adopted.None? ==> Adoptions(events[i..]) != 1)
  }

  /** Since the start of a closure in progress, `maxDepth` has grown by what was adopted since. */
  lemma AdoptedSince(events: seq<Event>, i: nat, q: nat)
    requires Possible(events)
    ensures Opens(events, i, q) && q < |Run(events).frames| ==>
              Run(events).maxDepth == Run(events).frames[q].depth + Adoptions(events[i..])
  {
    if Opens(events, i, q) && q < |Run(events).frames| {
      OpenerOf(events, i, q);
      DepthGrows(events, i);
    }
  }

  /** Whatever event started it stands for the closure. */
  lemma OpenerOf(events: seq<Event>, i: nat, q: nat)
    requires Possible(events)
    ensures Opens(events, i, q) && q < |Run(events).frames| ==> OpenedBy(events, i, q, Run(events).frames[q])
  {
    RunOpened(events);
    if Opens(events, i, q) && q < |Run(events).frames| {
      assert IsOpened(events, q, Run(events).frames[q]);
      var j: nat :| OpenedBy(events, j, q, Run(events).frames[q]);
      OpensOnce(events, i, j, q);
    }
  }

  lemma DepthGrows(events: seq<Event>, i: nat)
    requires Possible(events) && i <= |events|
    ensures Run(events).maxDepth == Run(events[..i]).maxDepth + Adoptions(events[i..])
  {
    PossiblePrefix(events, i);
    DepthIsAdoptions(events);
    DepthIsAdoptions(events[..i]);
    AdoptionsSplit(events, i);
  }

  lemma AdoptionsSplit(events: seq<Event>, i: nat)
    requires i <= |events|
    ensures Adoptions(events) == Adoptions(events[..i]) + Adoptions(events[i..])
  {
    assert events == events[..i] + events[i..];
    AdoptionsAppend(events[..i], events[i..]);
  }

  lemma {:induction false} PossiblePrefix(events: seq<Event>, i: nat)
    requires Possible(events) && i <= |events|
    ensures Possible(events[..i])
    decreases |events|
  {
    if i < |events| {
      PossiblePrefix(events[..|events| - 1], i);
      assert events[..|events| - 1][..i] == events[..i];
    } else {
      assert events[..i] == events;
    }
  }

  /** Whether the event made an attempt that did not speak for the source adopted last. */
  ghost predicate Stale(s: State, event: Event) {
    var s' := Step(s, event);
    s'.attempts != s.attempts && !FromLatest(s'.attempts[|s'.attempts| - 1])
  }

  lemma AttemptsGrow(s: State, event: Event)
    ensures s.attempts <= Step(s, event).attempts && |Step(s, event).attempts| <= |s.attempts| + 1
  {
  }

  lemma StaleIff(events: seq<Event>, event: Event)
    requires Possible(events) && Enabled(Run(events), event)
    ensures Stale(Run(events), event) <==> !Unovertaken(events, event)
  {
    var s := Run(events);
    RunSound(events);
    if event.Give? || event.HookReturns? {
      var q: nat := |s.frames| - 1;
      RunOpened(events);
      assert IsOpened(events, q, s.frames[q]);
      var i: nat :| OpenedBy(events, i, q, s.frames[q]);
      AdoptedSince(events, i, q);
      forall j: nat | Opens(events, j, q) ensures j == i {
        OpensOnce(events, i, j, q);
      }
      StaleByDepth(s, event);
    }
  }

  /** The same by the depths that the code compares. */
  lemma StaleByDepth(s: State, event: Event)
    requires Sound(s) && Enabled(s, event) && (event.Give? || event.HookReturns?)
    ensures Stale(s, event) <==>
            if event.Give? then s.maxDepth != Top(s).depth else Top(s).adopted.None? && s.maxDepth == Top(s).depth + 1
  {
    assert SoundFrame(s.frames[|s.frames| - 1], s.maxDepth);
  }

  /** Whether a caught exception rejects: if and only if at most one thenable has been adopted
      since the closure was started. */
  lemma CaughtIff(events: seq<Event>, i: nat)
    requires Possible(events) && Enabled(Run(events), HookReturns)
    requires Opens(events, i, |Run(events).frames| - 1)
    ensures var s, s' := Run(events), Run(events + [HookReturns]);
            s'.attempts == s.attempts +
              if Adoptions(events[i..]) <= 1 then [Attempt(D.Fail, Thrown(Top(s), Top(s).phase.e), Source(Top(s)), s.maxDepth)] else []
  {
    AdoptedSince(events, i, |Run(events).frames| - 1);
    RunSnoc(events, HookReturns);
    assert Run(events).attempts + [] == Run(events).attempts;
  }

  /** What the `then` of the thenable adopted last throws rejects the new deferred. */
  lemma AdoptedThrows(events: seq<Event>, e: nat)
    requires Possible(events) && Run(events).frames != []
    requires var s, top := Run(events), Top(Run(events));
             top.phase.Calling? && top.adopted == Some(s.maxDepth) && top.depth + 1 == s.maxDepth
    ensures var s, more := Run(events), events + [Throw(e)] + [HookReturns];
            Possible(more) && Run(more).attempts == s.attempts + [Attempt(D.Fail, Thrown(Top(s), e), s.maxDepth, s.maxDepth)]
  {
    RunSnoc(events, Throw(e));
    RunSnoc(events + [Throw(e)], HookReturns);
  }

  /** No closure is overtaken. */
  ghost predicate NoneOvertaken(events: seq<Event>) {
    forall j :: 0 <= j < |events| ==> Unovertaken(events[..j], events[j])
  }

  ghost predicate InTimeAt(events: seq<Event>, j: nat)
    requires j < |events|
  {
    Run(events[..j]).attempts == [] ==> Unovertaken(events[..j], events[j])
  }

  /** No closure is overtaken before the new deferred has been settled. */
  ghost predicate NoneOvertakenInTime(events: seq<Event>) {
    forall j :: 0 <= j < |events| ==> InTimeAt(events, j)
  }

  lemma PrefixOfSnoc(events: seq<Event>, j: nat)
    requires j < |events|
    ensures j < |events| - 1 ==> events[..|events| - 1][..j] == events[..j] && events[..|events| - 1][j] == events[j]
    ensures j < |events| - 1 ==> (InTimeAt(events[..|events| - 1], j) <==> InTimeAt(events, j))
  {
  }

  /** Over every run: every attempt to settle the new deferred, by value or exception, comes
      from the source adopted last if and only if no closure is overtaken by an adoption in code
      that it runs between its first test of `maxDepth` and its attempt: a getter of `then`, or
      the exceptionHook. */
  lemma {:induction false} AllLatestIff(events: seq<Event>)
    requires Possible(events)
    ensures AllFromLatest(Run(events)) <==> NoneOvertaken(events)
    decreases |events|
  {
    if events != [] {
      var before, last := events[..|events| - 1], events[|events| - 1];
      AllLatestIff(before);
      StaleIff(before, last);
      AttemptsGrow(Run(before), last);
      NoneOvertakenSnoc(events);
    }
  }

  lemma NoneOvertakenSnoc(events: seq<Event>)
    requires events != []
    ensures var before, last := events[..|events| - 1], events[|events| - 1];
            NoneOvertaken(events) <==> NoneOvertaken(before) && Unovertaken(before, last)
  {
    var n := |events| - 1;
    forall j | 0 <= j < |events| ensures j < n ==> events[..n][..j] == events[..j] && events[..n][j] == events[j] {
      PrefixOfSnoc(events, j);
    }
    if NoneOvertaken(events) {
      forall j | 0 <= j < n ensures Unovertaken(events[..n][..j], events[..n][j]) {
        assert Unovertaken(events[..j], events[j]);
      }
    }
    if NoneOvertaken(events[..n]) && Unovertaken(events[..n], events[n]) {
      forall j | 0 <= j < |events| ensures Unovertaken(events[..j], events[j]) {
        assert j < n ==> Unovertaken(events[..n][..j], events[..n][j]);
      }
    }
  }

  lemma InTimeSnoc(events: seq<Event>)
    requires events != []
    ensures var before, last := events[..|events| - 1], events[|events| - 1];
            NoneOvertakenInTime(events) <==>
              NoneOvertakenInTime(before) && (Run(before).attempts == [] ==> Unovertaken(before, last))
  {
    var n := |events| - 1;
    forall j | 0 <= j < n ensures InTimeAt(events[..n], j) <==> InTimeAt(events, j) {
      PrefixOfSnoc(events, j);
    }
    assert InTimeAt(events, n) <==> (Run(events[..n]).attempts == [] ==> Unovertaken(events[..n], events[n]));
    if NoneOvertakenInTime(events[..n]) && InTimeAt(events, n) {
      forall j | 0 <= j < |events| ensures InTimeAt(events, j) {
        assert j < n ==> InTimeAt(events[..n], j);
      }
    }
    if NoneOvertakenInTime(events) {
      forall j | 0 <= j < n ensures InTimeAt(events[..n], j) {
        assert InTimeAt(events, j);
      }
    }
  }

  /** The same for the attempt that counts, the first: the new deferred is settled by the source
      adopted last if and only if no closure was overtaken before. */
  lemma {:induction false} LatestSettlesIff(events: seq<Event>)
    requires Possible(events)
    ensures (Run(events).attempts != [] ==> FromLatest(Run(events).attempts[0])) <==> NoneOvertakenInTime(events)
    decreases |events|
  {
    if events != [] {
      var before, last := events[..|events| - 1], events[|events| - 1];
      LatestSettlesIff(before);
      StaleIff(before, last);
      AttemptsGrow(Run(before), last);
      InTimeSnoc(events);
    }
  }

  // ----- A condition on what foreign code does

  /** A closure that may still make an attempt without having adopted anything. */
  predicate Exposed(f: Frame) {
    f.adopted.None? && !f.phase.Rejecting?
  }

  /** Nothing is adopted by closures started from a getter, a hook or a callback of another one
      that is exposed. */
  ghost predicate Undisturbed(events: seq<Event>) {
    forall j :: 0 <= j < |events| && events[j].GiveThenable? ==>
      forall q :: 0 <= q < |Run(events[..j]).frames| - 1 ==> !Exposed(Run(events[..j]).frames[q])
  }

  ghost predicate Nested(s: State) {
    forall q :: 0 <= q < |s.frames| && Exposed(s.frames[q]) ==> s.frames[q].depth == s.maxDepth
  }

  lemma StepNested(s: State, event: Event)
    requires Sound(s) && Nested(s) && Enabled(s, event)
    requires event.GiveThenable? ==> forall q :: 0 <= q < |s.frames| - 1 ==> !Exposed(s.frames[q])
    ensures Nested(Step(s, event))
  {
  }

  lemma {:induction false} RunNested(events: seq<Event>)
    requires Possible(events) && Undisturbed(events)
    ensures Nested(Run(events)) && AllFromLatest(Run(events))
    decreases |events|
  {
    if events != [] {
      var before, last := events[..|events| - 1], events[|events| - 1];
      assert forall j :: 0 <= j < |before| ==> before[..j] == events[..j] && before[j] == events[j];
      RunNested(before);
      RunSound(before);
      StepNested(Run(before), last);
      NestedIsLatest(Run(before), last);
    }
  }

  lemma NestedIsLatest(s: State, event: Event)
    requires Sound(s) && Nested(s) && Enabled(s, event) && AllFromLatest(s)
    ensures AllFromLatest(Step(s, event))
  {
    AttemptsGrow(s, event);
    if event.Give? || event.HookReturns? {
      StaleByDepth(s, event);
    }
  }

  // ----- Runs in which a superseded source settles the new deferred

  /** The closure of depth 1 is called with an object whose `then` getter calls the closure
      again, with a thenable, and then reports that there is no `then`. */
  function Intrusion(): seq<Event> {
    [Start(0, User, 0), GiveThenable, Ends, Start(1, Identity, 1), Start(1, Identity, 2), GiveThenable, Ends, Give(0)]
  }

  function Own(phase: Phase): Frame {
    Frame(0, User, 0, if phase.Calling? then Some(1) else None, phase)
  }

  function IntrusionStates(): seq<State> {
    var outer, inner := Frame(1, Identity, 1, None, Handling), Frame(1, Identity, 2, None, Handling);
    [Initial(),
     State(0, [Own(Handling)], true, []),
     State(1, [Own(Calling)], true, []),
     State(1, [], true, []),
     State(1, [outer], true, []),
     State(1, [outer, inner], true, []),
     State(2, [outer, inner.(adopted := Some(2), phase := Calling)], true, []),
     State(2, [outer], true, []),
     State(2, [outer.(phase := Resolving)], true, [Attempt(D.Done, Original(1), 1, 2)])]
  }

  /** No `then` has a getter.  The thenable adopted first rejects with an object whose `name`
      has one; the exceptionHook reads it, and it resolves that thenable with another. */
  function HookIntrusion(): seq<Event> {
    [Start(0, User, 0), GiveThenable, Start(1, Thrower, 1), Throw(1), Start(1, Identity, 2), GiveThenable, Ends, HookReturns]
  }

  function HookIntrusionStates(): seq<State> {
    var outer, inner := Frame(1, Thrower, 1, None, Handling), Frame(1, Identity, 2, None, Handling);
    [Initial(),
     State(0, [Own(Handling)], true, []),
     State(1, [Own(Calling)], true, []),
     State(1, [Own(Calling), outer], true, []),
     State(1, [Own(Calling), outer.(phase := Hooking(1))], true, []),
     State(1, [Own(Calling), outer.(phase := Hooking(1)), inner], true, []),
     State(2, [Own(Calling), outer.(phase := Hooking(1)), inner.(adopted := Some(2), phase := Calling)], true, []),
     State(2, [Own(Calling), outer.(phase := Hooking(1))], true, []),
     State(2, [Own(Calling), outer.(phase := Rejecting)], true, [Attempt(D.Fail, Original(1), 1, 2)])]
  }

  /** Following states step by step is running the events. */
  lemma {:induction false} RunVia(events: seq<Event>, states: seq<State>)
    requires |states| == |events| + 1 && states[0] == Initial()
    requires forall i :: 0 <= i < |events| ==> Enabled(states[i], events[i]) && Step(states[i], events[i]) == states[i + 1]
    ensures Possible(events) && Run(events) == states[|events|]
    decreases |events|
  {
    if events != [] {
      RunVia(events[..|events| - 1], states[..|states| - 1]);
    }
  }

  lemma IntrusionIsPossible()
    ensures Possible(Intrusion())
    ensures Run(Intrusion()).attempts == [Attempt(D.Done, Original(1), 1, 2)]
  {
    var e, s := Intrusion(), IntrusionStates();
    forall i | 0 <= i < |e| ensures Enabled(s[i], e[i]) && Step(s[i], e[i]) == s[i + 1] {
      assert i == 0 || i == 1 || i == 2 || i == 3 || i == 4 || i == 5 || i == 6 || i == 7;
    }
    RunVia(e, s);
  }

  lemma HookIntrusionIsPossible()
    ensures Possible(HookIntrusion())
    ensures Run(HookIntrusion()).attempts == [Attempt(D.Fail, Original(1), 1, 2)]
  {
    var e, s := HookIntrusion(), HookIntrusionStates();
    forall i | 0 <= i < |e| ensures Enabled(s[i], e[i]) && Step(s[i], e[i]) == s[i + 1] {
      assert i == 0 || i == 1 || i == 2 || i == 3 || i == 4 || i == 5 || i == 6 || i == 7;
    }
    RunVia(e, s);
  }

  // ----- The new deferred settles once, as the first attempt says

  /** The attempts as operations of the new deferred, with listeners and returns in between. */
  ghost predicate Reflects(ops: seq<D.Op>, attempts: seq<Attempt>, encode: Payload -> nat)
    decreases |ops|
  {
    if ops == [] then attempts == []
    else
      var op, before := ops[|ops| - 1], ops[..|ops| - 1];
      if op.Settle? then
        && attempts != []
        && op == D.Settle(attempts[|attempts| - 1].side, encode(attempts[|attempts| - 1].payload))
        && Reflects(before, attempts[..|attempts| - 1], encode)
      else Reflects(before, attempts, encode)
  }

  lemma {:induction false} FirstAttempt(ops: seq<D.Op>, attempts: seq<Attempt>, encode: Payload -> nat)
    requires Reflects(ops, attempts, encode)
    ensures D.First(ops) ==
            if attempts == [] then D.Undecided else D.Chosen(attempts[0].side, encode(attempts[0].payload))
    decreases |ops|
  {
    if ops != [] {
      var before := ops[..|ops| - 1];
      if ops[|ops| - 1].Settle? {
        FirstAttempt(before, attempts[..|attempts| - 1], encode);
      } else {
        FirstAttempt(before, attempts, encode);
      }
    }
  }

  /** What the new deferred shows of the attempts: the first one decides its side, and its
      callbacks on that side are called with that attempt's payload, those on the other never. */
  ghost predicate Shows(d: D.State, ops: seq<D.Op>, attempts: seq<Attempt>, encode: Payload -> nat) {
    if attempts == [] then d.status.Pending? && D.Log(d.done) == [] && D.Log(d.fail) == []
    else
      var side, all := attempts[0].side, D.Calls(D.INTERNAL + D.Registered(ops, attempts[0].side), encode(attempts[0].payload));
      && d.status == D.Settled(side) && D.Log(D.List(d, D.Other(side))) == []
      && D.Log(D.List(d, side)) <= all && (!D.List(d, side).firing ==> D.Log(D.List(d, side)) == all)
  }

  lemma FirstDecides(ops: seq<D.Op>, attempts: seq<Attempt>, encode: Payload -> nat)
    requires Reflects(ops, attempts, encode)
    ensures Shows(D.Run(ops), ops, attempts, encode)
  {
    D.SettlesOnce(ops);
    FirstAttempt(ops, attempts, encode);
  }

  /** Over every run, the new deferred settles at most once, as the first attempt says; and that
      attempt came from the source adopted last iff no closure had been overtaken. */
  lemma ChainSettlesOnce(events: seq<Event>, ops: seq<D.Op>, encode: Payload -> nat)
    requires Possible(events) && Reflects(ops, Run(events).attempts, encode)
    ensures Shows(D.Run(ops), ops, Run(events).attempts, encode)
    ensures (Run(events).attempts != [] ==> FromLatest(Run(events).attempts[0])) <==> NoneOvertakenInTime(events)
  {
    FirstDecides(ops, Run(events).attempts, encode);
    LatestSettlesIff(events);
  }

  // ----- Where an attempt comes from

  /** Attempt `a` was made by event `j` on behalf of a closure that event `i` started: a value
      given by it, or an exception thrown in it, with the arguments of the closure itself where
      a stand-in handler passes them on. */
  ghost predicate MadeBy(events: seq<Event>, a: Attempt, i: nat, j: nat) {
    && j < |events| && Run(events[..j]).frames != [] && Opens(events[..j], i, |Run(events[..j]).frames| - 1)
    && match a.side
       case Done =>
         && events[j].Give? && events[i].depth == a.source
         && a.payload == if events[i].handler.Identity? then Original(events[i].args) else Single(events[j].value)
       case Fail =>
         && events[j].HookReturns? && (events[i].depth == a.source || events[i].depth + 1 == a.source == a.latest)
         && if events[i].handler.Thrower? then a.payload == Original(events[i].args)
            else a.payload.Single? && ThrownSince(events[..j], i, |Run(events[..j]).frames| - 1, a.payload.value)
  }

  ghost predicate Made(events: seq<Event>, a: Attempt) {
    exists i: nat, j: nat :: MadeBy(events, a, i, j)
  }

  lemma AttemptIsMade(events: seq<Event>, event: Event)
    requires Possible(events) && Enabled(Run(events), event) && Run(events + [event]).attempts != Run(events).attempts
    ensures Run(events + [event]).attempts != [] && Made(events + [event], Run(events + [event]).attempts[|Run(events).attempts|])
  {
    var s := Run(events);
    RunSnoc(events, event);
    RunSound(events);
    RunOpened(events);
    var q: nat := |s.frames| - 1;
    assert SoundFrame(s.frames[q], s.maxDepth) && IsOpened(events, q, s.frames[q]);
    var i: nat :| OpenedBy(events, i, q, s.frames[q]);
    assert (events + [event])[..|events|] == events;
    assert MadeBy(events + [event], Run(events + [event]).attempts[|s.attempts|], i, |events|);
  }

  lemma MadeStays(events: seq<Event>, event: Event, a: Attempt)
    requires Made(events, a)
    ensures Made(events + [event], a)
  {
    var i: nat, j: nat :| MadeBy(events, a, i, j);
    assert (events + [event])[..j] == events[..j];
    assert MadeBy(events + [event], a, i, j);
  }

  /** Over every run: the new deferred is only ever settled with what a closure gave or threw
      after it was started by an event that `maxDepth` let pass. */
  lemma {:induction false} Provenance(events: seq<Event>)
    requires Possible(events)
    ensures forall k :: 0 <= k < |Run(events).attempts| ==> Made(events, Run(events).attempts[k])
    decreases |events|
  {
    if events != [] {
      var before, last := events[..|events| - 1], events[|events| - 1];
      assert before + [last] == events;
      Provenance(before);
      AttemptsGrow(Run(before), last);
      forall k | 0 <= k < |Run(events).attempts| ensures Made(events, Run(events).attempts[k]) {
        if k < |Run(before).attempts| {
          MadeStays(before, last, Run(before).attempts[k]);
        } else {
          AttemptIsMade(before, last);
        }
      }
    }
  }

  // ----- What a thenable that has been adopted can do

  /** A stack on which foreign code may be running. */
  predicate Foreign(s: State) {
    s.frames != [] ==> !(Top(s).phase.Handling? && Top(s).handler.Thrower?)
  }

  function On(s: State, f: Frame): State {
    s.(frames := s.frames + [f])
  }

  lemma OnTop(s: State, f: Frame)
    ensures Top(On(s, f)) == f && Pop(On(s, f)) == s && forall g: Frame :: Retop(On(s, f), g) == On(s, g)
  {
    assert (s.frames + [f])[..|s.frames|] == s.frames;
  }

  lemma GivesOn(s: State, f: Frame, value: nat)
    requires f == Frame(s.maxDepth, f.handler, f.args, None, Handling) && !f.handler.Thrower?
    ensures Enabled(On(s, f), Give(value))
    ensures Step(On(s, f), Give(value)) == On(Try(s, D.Done, Given(f, value), s.maxDepth), f.(phase := Resolving))
  {
    OnTop(s, f);
  }

  lemma ThrowsOn(s: State, f: Frame, e: nat)
    requires f.phase.Handling?
    ensures Enabled(On(s, f), Throw(e)) && Step(On(s, f), Throw(e)) == On(s, f.(phase := Hooking(e)))
  {
    OnTop(s, f);
  }

  lemma RejectsOn(s: State, f: Frame, e: nat)
    requires f == Frame(s.maxDepth, f.handler, f.args, None, Hooking(e))
    ensures Enabled(On(s, f), HookReturns)
    ensures Step(On(s, f), HookReturns) == On(Try(s, D.Fail, Thrown(f, e), s.maxDepth), f.(phase := Rejecting))
  {
    OnTop(s, f);
  }

  lemma EndsOn(s: State, f: Frame)
    requires f.phase.Resolving? || f.phase.Rejecting?
    ensures Enabled(On(s, f), Ends) && Step(On(s, f), Ends) == s
  {
    OnTop(s, f);
  }

  /** The closure of the thenable adopted last, called from whatever foreign code is running,
      settles the new deferred with its arguments, unchanged, and leaves the stack as it was. */
  lemma AdoptedResolves(events: seq<Event>, args: nat, value: nat)
    requires Possible(events) && Run(events).maxDepth > 0 && Foreign(Run(events))
    ensures var s, d := Run(events), Run(events).maxDepth;
            var more := events + [Start(d, Identity, args)] + [Give(value)] + [Ends];
            Possible(more) && Run(more) == Try(s.(started := true), D.Done, Original(args), d)
  {
    var s, d := Run(events).(started := true), Run(events).maxDepth;
    var f := Frame(d, Identity, args, None, Handling);
    var e1 := events + [Start(d, Identity, args)];
    RunSnoc(events, Start(d, Identity, args));
    assert Run(e1) == On(s, f);
    GivesOn(s, f, value);
    RunSnoc(e1, Give(value));
    EndsOn(Try(s, D.Done, Original(args), d), f.(phase := Resolving));
    RunSnoc(e1 + [Give(value)], Ends);
  }

  lemma AdoptedRejects(events: seq<Event>, args: nat, e: nat)
    requires Possible(events) && Run(events).maxDepth > 0 && Foreign(Run(events))
    ensures var s, d := Run(events), Run(events).maxDepth;
            var more := events + [Start(d, Thrower, args)] + [Throw(e)] + [HookReturns] + [Ends];
            Possible(more) && Run(more) == Try(s.(started := true), D.Fail, Original(args), d)
  {
    var s, d := Run(events).(started := true), Run(events).maxDepth;
    var f := Frame(d, Thrower, args, None, Handling);
    var e1 := events + [Start(d, Thrower, args)];
    RunSnoc(events, Start(d, Thrower, args));
    assert Run(e1) == On(s, f);
    ThrowsOn(s, f, e);
    RunSnoc(e1, Throw(e));
    RejectsOn(s, f.(phase := Hooking(e)), e);
    RunSnoc(e1 + [Throw(e)], HookReturns);
    EndsOn(Try(s, D.Fail, Original(args), d), f.(phase := Rejecting));
    RunSnoc(e1 + [Throw(e)] + [HookReturns], Ends);
  }

  /** Closures of a superseded thenable change nothing, whenever they are called. */
  lemma SupersededIsSilent(events: seq<Event>, depth: nat, handler: Handler, args: nat)
    requires Possible(events) && 0 < depth < Run(events).maxDepth
    ensures Run(events + [Start(depth, handler, args)]) == Run(events)
  {
    RunSound(events);
    RunSnoc(events, Start(depth, handler, args));
  }

  /** A thenable adopted before this one was: whatever its `then` throws after that, once the
      hook has returned, changes nothing but the stack. */
  lemma SupersededThrows(events: seq<Event>, e: nat)
    requires Possible(events) && Run(events).frames != [] && Top(Run(events)).phase.Calling?
    requires Top(Run(events)).adopted.Some? && Top(Run(events)).adopted.value < Run(events).maxDepth
    ensures Run(events + [Throw(e)] + [HookReturns]) == Pop(Run(events))
  {
    RunSound(events);
    RunSnoc(events, Throw(e));
    RunSnoc(events + [Throw(e)], HookReturns);
  }

  /** A handler passed to `then` that gives back a value resolves with that value alone, one
      that throws rejects with what it throws, and without one the arguments are passed on. */
  lemma OwnOutcome(args: nat, value: nat, e: nat)
    ensures Run([Start(0, User, args)] + [Give(value)]).attempts == [Attempt(D.Done, Single(value), 0, 0)]
    ensures Run([Start(0, User, args)] + [Throw(e)] + [HookReturns]).attempts == [Attempt(D.Fail, Single(e), 0, 0)]
    ensures Run([Start(0, Identity, args)] + [Give(value)]).attempts == [Attempt(D.Done, Original(args), 0, 0)]
    ensures Run([Start(0, Thrower, args)] + [Throw(e)] + [HookReturns]).attempts == [Attempt(D.Fail, Original(args), 0, 0)]
  {
    OwnGives(User, args, value);
    OwnGives(Identity, args, value);
    OwnThrows(User, args, e);
    OwnThrows(Thrower, args, e);
  }

  lemma OwnStarts(handler: Handler, args: nat)
    ensures Run([Start(0, handler, args)]) == On(Initial().(started := true), Frame(0, handler, args, None, Handling))
  {
    RunSnoc([], Start(0, handler, args));
    assert [] + [Start(0, handler, args)] == [Start(0, handler, args)];
  }

  lemma OwnGives(handler: Handler, args: nat, value: nat)
    requires !handler.Thrower?
    ensures var f := Frame(0, handler, args, None, Handling);
            Run([Start(0, handler, args)] + [Give(value)]).attempts == [Attempt(D.Done, Given(f, value), 0, 0)]
  {
    OwnStarts(handler, args);
    RunSnoc([Start(0, handler, args)], Give(value));
    GivesOn(Initial().(started := true), Frame(0, handler, args, None, Handling), value);
  }

  lemma OwnThrows(handler: Handler, args: nat, e: nat)
    ensures var f := Frame(0, handler, args, None, Handling);
            Run([Start(0, handler, args)] + [Throw(e)] + [HookReturns]).attempts == [Attempt(D.Fail, Thrown(f, e), 0, 0)]
  {
    var s, f := Initial().(started := true), Frame(0, handler, args, None, Handling);
    OwnStarts(handler, args);
    RunSnoc([Start(0, handler, args)], Throw(e));
    ThrowsOn(s, f, e);
    RunSnoc([Start(0, handler, args)] + [Throw(e)], HookReturns);
    RejectsOn(s, f.(phase := Hooking(e)), e);
  }
}
