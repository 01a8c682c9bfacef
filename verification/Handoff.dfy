/** The ticketed producers and consumers: a shared counter hands out tickets, a shared queue
    carries the items, and a latch that counts polls releases the main thread, which then
    asks the consumers to stop.  Any number of threads of either kind interleave freely. */
module Handoff {
  import opened Collections

  type Tid = nat

  type Item = nat

  /** OfferRunnable.run: at the loop test, holding a ticket, or done. */
  datatype Producer = Test | Offering | Stopped

  /** PollRunnable.run: at the loop test, about to poll, about to count down, or done. */
  datatype Consumer = Check | Polling | Counting | Ended

  /** main: waiting for the latch, or setting the stop flags. */
  datatype Main = Waiting | Stopping

  /** `offered` and `polled` are the items that went in and came out so far, in order. */
  datatype State = State(
    max: int, count: int, queue: seq<Item>, latch: nat,
    producers: map<Tid, Producer>, consumers: map<Tid, Consumer>, stop: set<Tid>, main: Main,
    offered: seq<Item>, polled: seq<Item>)

  datatype Event =
    | Ticket(p: Tid)             // count.incrementAndGet() <= maxCount
    | Offer(p: Tid, item: Item)  // peopleQueue.offer(people)
    | CheckStop(c: Tid)          // while(!stop)
    | Poll(c: Tid)               // peopleQueue.poll()
    | CountDown(c: Tid)          // countDownLatch.countDown()
    | Await                      // countDownLatch.await() returns
    | SetStop(c: Tid)            // setStop(true)

  function Initial(max: nat, producers: set<Tid>, consumers: set<Tid>): State {
    State(max, 0, [], max, map p | p in producers :: Test, map c | c in consumers :: Check, {}, Waiting, [], [])
  }

  predicate Enabled(s: State, event: Event) {
    match event
    case Ticket(p) => p in s.producers && s.producers[p].Test?
    case Offer(p, _) => p in s.producers && s.producers[p].Offering?
    case CheckStop(c) => c in s.consumers && s.consumers[c].Check?
    case Poll(c) => c in s.consumers && s.consumers[c].Polling?
    case CountDown(c) => c in s.consumers && s.consumers[c].Counting?
    case Await => s.main.Waiting? && s.latch == 0
    case SetStop(c) => s.main.Stopping? && c in s.consumers
  }

  /** Every producer begins by drawing a ticket, and every consumer by testing the flag. */
  lemma Begins(max: nat, producers: set<Tid>, consumers: set<Tid>, t: Tid)
    ensures t in producers ==> Enabled(Initial(max, producers, consumers), Ticket(t))
    ensures t in consumers ==> Enabled(Initial(max, producers, consumers), CheckStop(t))
  {
  }

  function Step(s: State, event: Event): State {
    match event
    case Ticket(p) =>
      var n := s.count + 1;
      s.(count := n, producers := s.producers[p := if n <= s.max then Offering else Stopped])
    case Offer(p, item) =>
      s.(queue := s.queue + [item], offered := s.offered + [item], producers := s.producers[p := Test])
    case CheckStop(c) => s.(consumers := s.consumers[c := if c in s.stop then Ended else Polling])
    case Poll(c) =>
      if s.queue == [] then s.(consumers := s.consumers[c := Check])
      else s.(queue := s.queue[1..], polled := s.polled + [s.queue[0]], consumers := s.consumers[c := Counting])
    case CountDown(c) =>
      s.(latch := if s.latch > 0 then s.latch - 1 else 0, consumers := s.consumers[c := Check])
    case Await => s.(main := Stopping)
    case SetStop(c) => s.(stop := s.stop + {c})
  }

  function Run(s: State, events: seq<Event>): State
    decreases |events|
  {
    if events == [] then s else Step(Run(s, events[..|events| - 1]), events[|events| - 1])
  }

  ghost predicate Possible(s: State, events: seq<Event>)
    decreases |events|
  {
    events != [] ==>
      Possible(s, events[..|events| - 1]) && Enabled(Run(s, events[..|events| - 1]), events[|events| - 1])
  }

  // ----- The invariant

  function At(producers: map<Tid, Producer>, pc: Producer): set<Tid> {
    set p | p in producers && producers[p] == pc
  }

  function In(consumers: map<Tid, Consumer>, pc: Consumer): set<Tid> {
    set c | c in consumers && consumers[c] == pc
  }

  function Min(a: int, b: int): int {
    if a <= b then a else b
  }

  ghost predicate Invariant(s: State) {
    && 0 <= s.max && 0 <= s.count
    && s.polled + s.queue == s.offered
    // every ticket up to max is an item offered or about to be; the others stopped someone
    && |s.offered| + |At(s.producers, Offering)| == Min(s.count, s.max)
    && |At(s.producers, Stopped)| == s.count - Min(s.count, s.max)
    // every poll has been counted down or is about to be
    && s.latch + |s.polled| == s.max + |In(s.consumers, Counting)|
    && (s.main.Stopping? ==> s.latch == 0)
    && (s.stop != {} ==> s.main.Stopping?)
    && (In(s.consumers, Ended) != {} ==> s.main.Stopping?)
  }

  lemma ProducerMoves(ps: map<Tid, Producer>, p: Tid, to: Producer, pc: Producer)
    requires p in ps
    ensures |At(ps[p := to], pc)| == |At(ps, pc)| + (if to == pc then 1 else 0) - (if ps[p] == pc then 1 else 0)
  {
    assert At(ps[p := to], pc) - {p} == At(ps, pc) - {p};
    Resize(At(ps, pc), At(ps[p := to], pc), p);
  }

  lemma ConsumerMoves(cs: map<Tid, Consumer>, c: Tid, to: Consumer, pc: Consumer)
    requires c in cs
    ensures |In(cs[c := to], pc)| == |In(cs, pc)| + (if to == pc then 1 else 0) - (if cs[c] == pc then 1 else 0)
    ensures In(cs[c := to], pc) != {} ==> to == pc || In(cs, pc) != {}
  {
    assert In(cs[c := to], pc) - {c} == In(cs, pc) - {c};
    Resize(In(cs, pc), In(cs[c := to], pc), c);
    if In(cs[c := to], pc) != {} {
      var d :| d in In(cs[c := to], pc);
      assert d == c || d in In(cs, pc);
    }
  }

  lemma StepKeeps(s: State, event: Event)
    requires Invariant(s) && Enabled(s, event)
    ensures Invariant(Step(s, event))
  {
    match event {
      case Ticket(p) =>
        ProducerMoves(s.producers, p, Step(s, event).producers[p], Offering);
        ProducerMoves(s.producers, p, Step(s, event).producers[p], Stopped);
      case Offer(p, item) =>
        ProducerMoves(s.producers, p, Test, Offering);
        ProducerMoves(s.producers, p, Test, Stopped);
        assert s.polled + (s.queue + [item]) == (s.polled + s.queue) + [item];
      case CheckStop(c) =>
        ConsumerMoves(s.consumers, c, Step(s, event).consumers[c], Counting);
        ConsumerMoves(s.consumers, c, Step(s, event).consumers[c], Ended);
      case Poll(c) =>
        ConsumerMoves(s.consumers, c, Step(s, event).consumers[c], Counting);
        ConsumerMoves(s.consumers, c, Step(s, event).consumers[c], Ended);
        if s.queue != [] {
          assert (s.polled + [s.queue[0]]) + s.queue[1..] == s.polled + s.queue;
        }
      case CountDown(c) =>
        ConsumerMoves(s.consumers, c, Check, Counting);
        ConsumerMoves(s.consumers, c, Check, Ended);
        PolledBound(s);
        assert c in In(s.consumers, Counting);
      case Await =>
      case SetStop(c) =>
    }
  }

  lemma PolledBound(s: State)
    requires Invariant(s)
    ensures |s.polled| <= |s.offered| <= s.max
  {
    assert |s.offered| == |s.polled| + |s.queue|;
  }

  lemma {:induction false} RunKeeps(max: nat, producers: set<Tid>, consumers: set<Tid>, events: seq<Event>)
    requires Possible(Initial(max, producers, consumers), events)
    ensures Invariant(Run(Initial(max, producers, consumers), events))
    decreases |events|
  {
    var s := Initial(max, producers, consumers);
    if events == [] {
      assert At(s.producers, Offering) == {} && At(s.producers, Stopped) == {};
      assert In(s.consumers, Counting) == {} && In(s.consumers, Ended) == {};
    } else {
      RunKeeps(max, producers, consumers, events[..|events| - 1]);
      StepKeeps(Run(s, events[..|events| - 1]), events[|events| - 1]);
    }
  }

  // ----- What a run shows

  /** Items come out in the order in which they went in, none lost and none twice, and never
      more than `max` go in. */
  lemma FifoAndBounded(max: nat, producers: set<Tid>, consumers: set<Tid>, events: seq<Event>)
    requires Possible(Initial(max, producers, consumers), events)
    ensures var s := Run(Initial(max, producers, consumers), events);
            && s.polled + s.queue == s.offered && |s.offered| <= max
            && s.latch == max - (|s.polled| - |In(s.consumers, Counting)|)
  {
    RunKeeps(max, producers, consumers, events);
    PolledBound(Run(Initial(max, producers, consumers), events));
    MaxIsFixed(Initial(max, producers, consumers), events);
  }

  lemma {:induction false} MaxIsFixed(s: State, events: seq<Event>)
    ensures Run(s, events).max == s.max
    decreases |events|
  {
    if events != [] {
      MaxIsFixed(s, events[..|events| - 1]);
    }
  }

  /** Once await has returned, exactly `max` items have been offered and polled, the queue is
      empty, and nothing can be offered or counted any more. */
  lemma AfterAwait(max: nat, producers: set<Tid>, consumers: set<Tid>, events: seq<Event>)
    requires Possible(Initial(max, producers, consumers), events)
    requires Run(Initial(max, producers, consumers), events).main.Stopping?
    ensures var s := Run(Initial(max, producers, consumers), events);
            && |s.offered| == |s.polled| == max && s.queue == [] && s.polled == s.offered
            && (forall p :: p in s.producers ==> !s.producers[p].Offering?)
            && (forall c :: c in s.consumers ==> !s.consumers[c].Counting?)
  {
    var s := Run(Initial(max, producers, consumers), events);
    RunKeeps(max, producers, consumers, events);
    MaxIsFixed(Initial(max, producers, consumers), events);
    PolledBound(s);
    assert |s.offered| == |s.polled| + |s.queue|;
    assert At(s.producers, Offering) == {} && In(s.consumers, Counting) == {};
    forall p | p in s.producers ensures !s.producers[p].Offering? {
      assert p !in At(s.producers, Offering);
    }
    forall c | c in s.consumers ensures !s.consumers[c].Counting? {
      assert c !in In(s.consumers, Counting);
    }
  }

  /** No consumer leaves its loop before every item has been polled. */
  lemma NoneLeavesEarly(max: nat, producers: set<Tid>, consumers: set<Tid>, events: seq<Event>, c: Tid)
    requires Possible(Initial(max, producers, consumers), events)
    requires var s := Run(Initial(max, producers, consumers), events);
             c in s.consumers && s.consumers[c].Ended?
    ensures |Run(Initial(max, producers, consumers), events).polled| == max
  {
    RunKeeps(max, producers, consumers, events);
    assert c in In(Run(Initial(max, producers, consumers), events).consumers, Ended);
    AfterAwait(max, producers, consumers, events);
  }

  lemma {:induction false} ProducersAreFixed(s: State, events: seq<Event>)
    requires Possible(s, events)
    ensures Run(s, events).producers.Keys == s.producers.Keys
    decreases |events|
  {
    if events != [] {
      ProducersAreFixed(s, events[..|events| - 1]);
    }
  }

  /** When all producers have stopped, each has drawn one ticket too many. */
  lemma FinalCount(max: nat, producers: set<Tid>, consumers: set<Tid>, events: seq<Event>)
    requires Possible(Initial(max, producers, consumers), events) && producers != {}
    requires var s := Run(Initial(max, producers, consumers), events);
             forall p :: p in s.producers ==> s.producers[p].Stopped?
    ensures var s := Run(Initial(max, producers, consumers), events);
            s.count == max + |producers| && |s.offered| == max
  {
    var init := Initial(max, producers, consumers);
    var s := Run(init, events);
    RunKeeps(max, producers, consumers, events);
    MaxIsFixed(init, events);
    ProducersAreFixed(init, events);
    assert s.producers.Keys == producers;
    assert At(s.producers, Stopped) == producers && At(s.producers, Offering) == {};
  }

  // ----- The hand-off can always be completed

  /** How far main is from being released. */
  function Distance(s: State): int {
    10 * (s.max - Min(s.count, s.max)) + 8 * |At(s.producers, Offering)| + 6 * |s.queue|
    + |In(s.consumers, Check)| + 2 * |In(s.consumers, Counting)| + if s.main.Waiting? then 1 else 0
  }

  lemma Offers(s: State, p: Tid)
    requires p in s.producers && s.producers[p].Offering?
    ensures Distance(Step(s, Offer(p, 0))) < Distance(s)
  {
    ProducerMoves(s.producers, p, Test, Offering);
  }

  lemma Draws(s: State, p: Tid)
    requires p in s.producers && s.producers[p].Test? && s.count < s.max
    ensures Distance(Step(s, Ticket(p))) < Distance(s)
  {
    ProducerMoves(s.producers, p, Offering, Offering);
  }

  lemma Counts(s: State, c: Tid)
    requires c in s.consumers && s.consumers[c].Counting?
    ensures Distance(Step(s, CountDown(c))) < Distance(s)
  {
    ConsumerMoves(s.consumers, c, Check, Check);
    ConsumerMoves(s.consumers, c, Check, Counting);
  }

  lemma Polls(s: State, c: Tid)
    requires c in s.consumers && s.consumers[c].Polling? && s.queue != []
    ensures Distance(Step(s, Poll(c))) < Distance(s)
  {
    ConsumerMoves(s.consumers, c, Counting, Check);
    ConsumerMoves(s.consumers, c, Counting, Counting);
  }

  lemma Checks(s: State, c: Tid)
    requires c in s.consumers && s.consumers[c].Check? && c !in s.stop
    ensures Distance(Step(s, CheckStop(c))) < Distance(s)
  {
    ConsumerMoves(s.consumers, c, Polling, Check);
    ConsumerMoves(s.consumers, c, Polling, Counting);
  }

  /** While main waits, some thread can take a step that brings its release closer. */
  lemma NeverStuck(s: State) returns (event: Event)
    requires Invariant(s) && s.main.Waiting? && s.producers != map[] && s.consumers != map[]
    ensures Enabled(s, event) && Distance(Step(s, event)) < Distance(s)
  {
    var p :| p in s.producers;
    var c :| c in s.consumers;
    if At(s.producers, Offering) != {} {
      var q :| q in At(s.producers, Offering);
      Offers(s, q);
      event := Offer(q, 0);
    } else if s.count < s.max {
      assert At(s.producers, Stopped) == {} && p !in At(s.producers, Stopped) && p !in At(s.producers, Offering);
      Draws(s, p);
      event := Ticket(p);
    } else if In(s.consumers, Counting) != {} {
      var d :| d in In(s.consumers, Counting);
      Counts(s, d);
      event := CountDown(d);
    } else if s.latch == 0 {
      event := Await;
    } else {
      event := ConsumerStep(s, c);
    }
  }

  lemma ConsumerStep(s: State, c: Tid) returns (event: Event)
    requires Invariant(s) && s.main.Waiting? && s.latch > 0 && s.count >= s.max && c in s.consumers
    requires At(s.producers, Offering) == {} && In(s.consumers, Counting) == {}
    ensures Enabled(s, event) && Distance(Step(s, event)) < Distance(s)
  {
    assert |s.polled| + |s.queue| == |s.offered|;
    assert c !in In(s.consumers, Counting) && c !in In(s.consumers, Ended);
    if s.consumers[c].Polling? {
      Polls(s, c);
      event := Poll(c);
    } else {
      Checks(s, c);
      event := CheckStop(c);
    }
  }

  lemma {:induction false} ConsumersAreFixed(s: State, events: seq<Event>)
    requires Possible(s, events)
    ensures Run(s, events).consumers.Keys == s.consumers.Keys
    decreases |events|
  {
    if events != [] {
      ConsumersAreFixed(s, events[..|events| - 1]);
    }
  }

  lemma Closer(max: nat, producers: set<Tid>, consumers: set<Tid>, events: seq<Event>) returns (event: Event)
    requires Possible(Initial(max, producers, consumers), events) && producers != {} && consumers != {}
    requires Run(Initial(max, producers, consumers), events).main.Waiting?
    ensures var init := Initial(max, producers, consumers);
            Possible(init, events + [event]) && 0 <= Distance(Run(init, events + [event])) < Distance(Run(init, events))
  {
    var init := Initial(max, producers, consumers);
    RunKeeps(max, producers, consumers, events);
    ProducersAreFixed(init, events);
    ConsumersAreFixed(init, events);
    assert init.producers.Keys == producers && init.consumers.Keys == consumers;
    event := NeverStuck(Run(init, events));
    assert (events + [event])[..|events + [event]| - 1] == events;
    DistanceIsNatural(Run(init, events + [event]));
  }

  /** From every state that can be reached there is a run that releases main: the threads
      cannot get into each other's way for good. */
  lemma {:induction false} CanFinish(max: nat, producers: set<Tid>, consumers: set<Tid>, events: seq<Event>) returns (more: seq<Event>)
    requires Possible(Initial(max, producers, consumers), events) && producers != {} && consumers != {}
    ensures Possible(Initial(max, producers, consumers), events + more)
    ensures Run(Initial(max, producers, consumers), events + more).main.Stopping?
    decreases Distance(Run(Initial(max, producers, consumers), events))
  {
    if Run(Initial(max, producers, consumers), events).main.Stopping? {
      more := [];
      assert events + more == events;
    } else {
      var event := Closer(max, producers, consumers, events);
      var rest := CanFinish(max, producers, consumers, events + [event]);
      more := [event] + rest;
      Assoc(events, [event], rest);
    }
  }

  lemma DistanceIsNatural(s: State)
    ensures Distance(s) >= 0
  {
  }

  // ----- Everything can come to an end

  /** How far the threads are from having all ended, once main is released. */
  function Remaining(s: State): nat {
    |At(s.producers, Test)| + |s.consumers.Keys - s.stop| + |In(s.consumers, Check)| + 2 * |In(s.consumers, Polling)|
  }

  ghost predicate AllEnded(s: State) {
    && s.main.Stopping?
    && (forall p :: p in s.producers ==> s.producers[p].Stopped?)
    && forall c :: c in s.consumers ==> s.consumers[c].Ended?
  }

  lemma ProducerEnds(s: State, p: Tid)
    requires p in s.producers && s.producers[p].Test? && s.count >= s.max
    ensures Remaining(Step(s, Ticket(p))) < Remaining(s)
  {
    ProducerMoves(s.producers, p, Stopped, Test);
  }

  /** A consumer that has been told to stop ends as soon as it tests the flag again, at the
      latest after one more poll. */
  lemma ConsumerEnds(s: State, c: Tid) returns (event: Event)
    requires c in s.consumers && c in s.stop && s.queue == [] && (s.consumers[c].Check? || s.consumers[c].Polling?)
    ensures Enabled(s, event) && Remaining(Step(s, event)) < Remaining(s)
    ensures Step(s, event).consumers == s.consumers[c := if s.consumers[c].Check? then Ended else Check]
  {
    if s.consumers[c].Check? {
      event := CheckStop(c);
      ConsumerMoves(s.consumers, c, Ended, Check);
      ConsumerMoves(s.consumers, c, Ended, Polling);
      assert s.consumers[c := Ended].Keys == s.consumers.Keys;
    } else {
      event := Poll(c);
      ConsumerMoves(s.consumers, c, Check, Check);
      ConsumerMoves(s.consumers, c, Check, Polling);
      assert s.consumers[c := Check].Keys == s.consumers.Keys;
    }
  }

  lemma FlagSet(s: State, c: Tid)
    requires c in s.consumers && c !in s.stop
    ensures Remaining(Step(s, SetStop(c))) < Remaining(s)
  {
    var rest := s.consumers.Keys - s.stop;
    assert s.consumers.Keys - (s.stop + {c}) == rest - {c};
    assert c in rest;
  }

  lemma SomeoneEnds(s: State) returns (event: Event)
    requires Invariant(s) && s.main.Stopping? && !AllEnded(s)
    ensures Enabled(s, event) && Remaining(Step(s, event)) < Remaining(s)
  {
    PolledBound(s);
    assert |s.offered| == |s.polled| + |s.queue| && s.queue == [];
    assert At(s.producers, Offering) == {} && In(s.consumers, Counting) == {};
    if p :| p in s.producers && !s.producers[p].Stopped? {
      assert p !in At(s.producers, Offering);
      ProducerEnds(s, p);
      event := Ticket(p);
    } else {
      var c :| c in s.consumers && !s.consumers[c].Ended?;
      assert c !in In(s.consumers, Counting);
      if c in s.stop {
        event := ConsumerEnds(s, c);
      } else {
        FlagSet(s, c);
        event := SetStop(c);
      }
    }
  }

  lemma {:induction false} CanEndAfterAwait(max: nat, producers: set<Tid>, consumers: set<Tid>, events: seq<Event>) returns (more: seq<Event>)
    requires Possible(Initial(max, producers, consumers), events)
    requires Run(Initial(max, producers, consumers), events).main.Stopping?
    ensures Possible(Initial(max, producers, consumers), events + more)
    ensures AllEnded(Run(Initial(max, producers, consumers), events + more))
    decreases Remaining(Run(Initial(max, producers, consumers), events))
  {
    var init := Initial(max, producers, consumers);
    if AllEnded(Run(init, events)) {
      more := [];
      assert events + more == events;
    } else {
      RunKeeps(max, producers, consumers, events);
      var event := SomeoneEnds(Run(init, events));
      assert (events + [event])[..|events + [event]| - 1] == events;
      var rest := CanEndAfterAwait(max, producers, consumers, events + [event]);
      more := [event] + rest;
      Assoc(events, [event], rest);
    }
  }

  /** From every state that can be reached, all threads can come to their ends. */
  lemma CanEnd(max: nat, producers: set<Tid>, consumers: set<Tid>, events: seq<Event>) returns (more: seq<Event>)
    requires Possible(Initial(max, producers, consumers), events) && producers != {} && consumers != {}
    ensures Possible(Initial(max, producers, consumers), events + more)
    ensures AllEnded(Run(Initial(max, producers, consumers), events + more))
  {
    var first := CanFinish(max, producers, consumers, events);
    var second := CanEndAfterAwait(max, producers, consumers, events + first);
    more := first + second;
    Assoc(events, first, second);
  }
}
