/** Interleaved calls on one registry. Every call validates without the lock and then does its whole
    effect in one locked section; every run is shown equal to a sequential one. */
module RegistryRuns {
  import opened Wrappers
  import opened Store
  import opened RegistryModel

  type Id = nat

  // Where one call stands. Ready holds what the checks made of it and waits for the lock.
  datatype Phase =
    | Called(call: Call)
    | Ready(call: Call, prepared: Prepared)
    | Answered(call: Call, answer: Answer)
    | Returned(call: Call, answer: Answer)

  datatype Event = Invoke(id: Id, call: Call) | Validate(id: Id) | Lock(id: Id) | Return(id: Id)

  datatype System = System(state: State<Entry>, calls: map<Id, Phase>)

  const START := System(State(false, map[]), map[])

  // One event, if it can happen.
  ghost function Step(s: System, e: Event): Option<System> {
    match e
    case Invoke(id, call) =>
      if id in s.calls then None else Some(s.(calls := s.calls[id := Called(call)]))
    case Validate(id) =>
      if id !in s.calls || !s.calls[id].Called? then None
      else
        var call := s.calls[id].call;
        var p := Prepare(call);
        Some(s.(calls := s.calls[id := if p.Rejected? then Answered(call, Failed(p.error)) else Ready(call, p)]))
    case Lock(id) =>
      if id !in s.calls || !s.calls[id].Ready? then None
      else
        var call := s.calls[id].call;
        var (state, answer) := Locked(s.state, call, s.calls[id].prepared);
        Some(System(state, s.calls[id := Answered(call, answer)]))
    case Return(id) =>
      if id !in s.calls || !s.calls[id].Answered? then None
      else Some(s.(calls := s.calls[id := Returned(s.calls[id].call, s.calls[id].answer)]))
  }

  // A call waiting for the lock brings what its own checks made.
  predicate Sane(p: Phase) { p.Ready? ==> p.prepared == Prepare(p.call) && !p.prepared.Rejected? }

  predicate Finished(p: Phase) { p.Answered? || p.Returned? }

  ghost function Run(events: seq<Event>): Option<System> {
    if events == [] then Some(START)
    else match Run(events[..|events| - 1])
      case None => None
      case Some(s) => Step(s, events[|events| - 1])
  }

  // The event at which a call takes effect: its locked section, or its refusal before the lock.
  ghost predicate TakesEffect(s: System, e: Event) {
    e.Lock? || (e.Validate? && e.id in s.calls && s.calls[e.id].Called? && Prepare(s.calls[e.id].call).Rejected?)
  }

  // The calls in the order in which they took effect.
  ghost function Order(events: seq<Event>): seq<Id>
    requires Run(events).Some?
  {
    if events == [] then []
    else
      var init, e := events[..|events| - 1], events[|events| - 1];
      Order(init) + if TakesEffect(Run(init).value, e) then [e.id] else []
  }

  // Running the calls of a list one after another, each as a whole.
  ghost function Serial(order: seq<Id>, calls: map<Id, Phase>): State<Entry>
    requires forall k :: 0 <= k < |order| ==> order[k] in calls
  {
    if order == [] then START.state
    else Atomic(Serial(order[..|order| - 1], calls), calls[order[|order| - 1]].call).0
  }

  // The sequential order explains the run: it holds exactly the finished calls, once each, ends in
  // the same state, and gives every call the answer it got.
  ghost predicate Explains(order: seq<Id>, s: System) {
    Orders(order, s.calls)
    && Serial(order, s.calls) == s.state
    && (forall k :: 0 <= k < |order| ==> AnswerFits(order, k, s))
    && (forall id :: id in s.calls ==> Sane(s.calls[id]))
  }

  ghost predicate AnswerFits(order: seq<Id>, k: nat, s: System)
    requires k < |order| && forall i :: 0 <= i < |order| ==> order[i] in s.calls
    requires Finished(s.calls[order[k]])
  {
    s.calls[order[k]].answer == Atomic(Serial(order[..k], s.calls), s.calls[order[k]].call).1
  }

  // Only the calls themselves matter to a sequential run, not how far they have come.
  lemma {:induction false} SerialSame(order: seq<Id>, a: map<Id, Phase>, b: map<Id, Phase>)
    requires forall k :: 0 <= k < |order| ==> order[k] in a && order[k] in b && a[order[k]].call == b[order[k]].call
    ensures Serial(order, a) == Serial(order, b)
  {
    if order != [] { SerialSame(order[..|order| - 1], a, b); }
  }

  // Moving a call that has not taken effect, or returning one that has, disturbs nothing.
  lemma QuietStep(order: seq<Id>, s: System, t: System, id: Id)
    requires Explains(order, s) && t.state == s.state && id in t.calls && t.calls == s.calls[id := t.calls[id]]
    requires Sane(t.calls[id])
    requires id in s.calls ==> t.calls[id].call == s.calls[id].call
    requires Finished(t.calls[id]) <==> id in s.calls && Finished(s.calls[id])
    requires Finished(t.calls[id]) ==> t.calls[id].answer == s.calls[id].answer
    ensures Explains(order, t)
  {
    assert forall k :: 0 <= k < |order| ==>
      order[k] in t.calls && t.calls[order[k]].call == s.calls[order[k]].call && Finished(t.calls[order[k]]);
    SerialSame(order, s.calls, t.calls);
    forall k | 0 <= k < |order| ensures AnswerFits(order, k, t) {
      assert AnswerFits(order, k, s);
      SerialSame(order[..k], s.calls, t.calls);
    }
  }

  // A call taking effect goes to the end of the order.
  lemma EffectStep(order: seq<Id>, s: System, t: System, id: Id)
    requires Explains(order, s) && id in s.calls && !Finished(s.calls[id])
    requires id in t.calls && t.calls == s.calls[id := t.calls[id]] && t.calls[id].Answered?
    requires t.calls[id].call == s.calls[id].call
    requires (t.state, t.calls[id].answer) == Atomic(s.state, s.calls[id].call)
    ensures Explains(order + [id], t)
  {
    hide Atomic, AnswerFits, Serial;
    var longer := order + [id];
    EffectOrder(order, s, t, id);
    EffectSerial(order, s, t, id);
    forall k | 0 <= k < |longer| ensures AnswerFits(longer, k, t) {
      if k < |order| { EffectAnswer(order, s, t, id, k); }
    }
  }

  // The finished calls, once each.
  ghost predicate Orders(order: seq<Id>, calls: map<Id, Phase>) {
    (forall k :: 0 <= k < |order| ==> order[k] in calls && Finished(calls[order[k]]))
    && (forall id :: id in calls && Finished(calls[id]) ==> id in order)
    && (forall j, k :: 0 <= j < k < |order| ==> order[j] != order[k])
  }

  lemma EffectOrder(order: seq<Id>, s: System, t: System, id: Id)
    requires Orders(order, s.calls) && id in s.calls && !Finished(s.calls[id])
    requires id in t.calls && t.calls == s.calls[id := t.calls[id]] && t.calls[id].Answered?
    ensures id !in order && Orders(order + [id], t.calls)
    ensures forall k :: 0 <= k < |order| ==> order[k] in t.calls && t.calls[order[k]] == s.calls[order[k]]
  {
    var longer := order + [id];
    assert forall k :: 0 <= k < |order| ==> longer[k] == order[k];
    forall i | i in t.calls && Finished(t.calls[i]) ensures i in longer {
      if i != id { assert i in order; } else { assert longer[|order|] == id; }
    }
  }

  lemma {:induction false} EffectSerial(order: seq<Id>, s: System, t: System, id: Id)
    requires id !in order && id in t.calls
    requires forall k :: 0 <= k < |order| ==>
      order[k] in s.calls && order[k] in t.calls && s.calls[order[k]] == t.calls[order[k]]
    requires Serial(order, s.calls) == s.state
    requires t.calls[id].Answered? && (t.state, t.calls[id].answer) == Atomic(s.state, t.calls[id].call)
    ensures var longer := order + [id];
      && longer[|order|] == id && (forall k :: 0 <= k < |longer| ==> longer[k] in t.calls)
      && Serial(longer, t.calls) == t.state && AnswerFits(longer, |order|, t)
  {
    var longer := order + [id];
    assert longer[..|order|] == order;
    SerialSame(order, s.calls, t.calls);
  }

  lemma EffectAnswer(order: seq<Id>, s: System, t: System, id: Id, k: nat)
    requires k < |order| && id in t.calls
    requires forall k :: 0 <= k < |order| ==>
      order[k] in s.calls && order[k] in t.calls && s.calls[order[k]] == t.calls[order[k]]
    requires Finished(s.calls[order[k]]) && AnswerFits(order, k, s)
    ensures AnswerFits(order + [id], k, t)
  {
    assert (order + [id])[..k] == order[..k];
    SerialSame(order[..k], s.calls, t.calls);
  }

  // Every run equals the sequential run of its finished calls in the order they took effect.
  lemma {:induction false} EveryRunIsSerial(events: seq<Event>)
    requires Run(events).Some?
    ensures Explains(Order(events), Run(events).value)
  {
    if events != [] {
      hide Step, Explains, TakesEffect;
      var init, e := events[..|events| - 1], events[|events| - 1];
      EveryRunIsSerial(init);
      var s, t, order := Run(init).value, Run(events).value, Order(init);
      if TakesEffect(s, e) {
        EffectEvent(order, s, t, e);
      } else {
        QuietEvent(order, s, t, e);
        assert order + [] == order;
      }
    } else {
      StartIsExplained();
    }
  }

  lemma StartIsExplained()
    ensures Explains([], START)
  {}

  lemma EffectEvent(order: seq<Id>, s: System, t: System, e: Event)
    requires Explains(order, s) && Step(s, e) == Some(t) && TakesEffect(s, e)
    ensures Explains(order + [e.id], t)
  {
    hide Orders, Serial, AnswerFits, Prepare, Locked;
    EffectStep(order, s, t, e.id);
  }

  lemma QuietEvent(order: seq<Id>, s: System, t: System, e: Event)
    requires Explains(order, s) && Step(s, e) == Some(t) && !TakesEffect(s, e)
    ensures Explains(order, t)
  {
    hide Orders, Serial, AnswerFits, Prepare, Locked, Atomic;
    QuietStep(order, s, t, e.id);
  }

  // ----- Real time

  lemma {:induction false} OrderGrows(events: seq<Event>, n: nat)
    requires Run(events).Some? && n <= |events|
    ensures Run(events[..n]).Some? && Order(events[..n]) <= Order(events)
    decreases |events|
  {
    if n < |events| {
      var init := events[..|events| - 1];
      assert init[..n] == events[..n];
      OrderGrows(init, n);
    } else {
      assert events[..n] == events;
    }
  }

  // A call that has returned has taken effect; one not yet invoked has not.
  lemma {:induction false} ReturnTookEffect(events: seq<Event>, i: nat)
    requires Run(events).Some? && i < |events| && events[i].Return?
    ensures Run(events[..i]).Some? && events[i].id in Order(events[..i])
  {
    StepHappened(events, i);
    EveryRunIsSerial(events[..i]);
  }

  lemma {:induction false} InvokeTakesEffectLater(events: seq<Event>, j: nat)
    requires Run(events).Some? && j < |events| && events[j].Invoke?
    ensures Run(events[..j]).Some? && events[j].id !in Order(events[..j])
  {
    StepHappened(events, j);
    EveryRunIsSerial(events[..j]);
  }

  // The order respects real time: a call that returned before another was invoked comes first.
  lemma {:induction false} OrderRespectsTime(events: seq<Event>, i: nat, j: nat, a: Id, b: Id, call: Call)
    requires Run(events).Some? && i < j < |events|
    requires events[i] == Return(a) && events[j] == Invoke(b, call)
    ensures exists p ::
      (0 <= p < |Order(events)| && Order(events)[p] == a
       && forall q :: 0 <= q < |Order(events)| && Order(events)[q] == b ==> p < q)
  {
    ReturnTookEffect(events, i);
    InvokeTakesEffectLater(events, j);
    OrderGrows(events, j);
    assert events[..j][..i] == events[..i];
    OrderGrows(events[..j], i);
    Separated(Order(events[..i]), Order(events[..j]), Order(events), a, b);
  }

  lemma Separated(early: seq<Id>, before: seq<Id>, all: seq<Id>, a: Id, b: Id)
    requires early <= before <= all && a in early && b !in before
    ensures exists p :: 0 <= p < |all| && all[p] == a && forall q :: 0 <= q < |all| && all[q] == b ==> p < q
  {
    var p :| 0 <= p < |early| && early[p] == a;
    assert all[p] == a;
    assert forall q :: 0 <= q < |before| ==> all[q] == before[q] && before[q] in before;
  }

  lemma {:induction false} StepHappened(events: seq<Event>, n: nat)
    requires Run(events).Some? && n < |events|
    ensures Run(events[..n]).Some? && Step(Run(events[..n]).value, events[n]).Some?
  {
    OrderGrows(events, n);
    OrderGrows(events, n + 1);
    assert events[..n + 1][..n] == events[..n];
  }

  // ----- What holds in every run

  lemma StepGrows(s: System, e: Event)
    requires Step(s, e).Some? && forall id :: id in s.calls ==> Sane(s.calls[id])
    ensures Grows(s.state, Step(s, e).value.state)
  {
    if e.Lock? { AtomicGrows(s.state, s.calls[e.id].call); }
  }

  // Along every run entries are never removed or replaced, and after a freeze nothing changes.
  lemma {:induction false} RunsOnlyGrow(events: seq<Event>, n: nat)
    requires Run(events).Some? && n <= |events|
    ensures Run(events[..n]).Some? && Grows(Run(events[..n]).value.state, Run(events).value.state)
    decreases |events|
  {
    if n < |events| {
      var init := events[..|events| - 1];
      assert init[..n] == events[..n];
      RunsOnlyGrow(init, n);
      EveryRunIsSerial(init);
      StepGrows(Run(init).value, events[|events| - 1]);
      GrowsTransitive(Run(events[..n]).value.state, Run(init).value.state, Run(events).value.state);
    } else {
      assert events[..n] == events;
    }
  }

  // In every run each stored entry lies under its own identity, passed the descriptor check and
  // offers a Reconciler if it needs one.
  lemma {:induction false} RunsStaySound(events: seq<Event>)
    requires Run(events).Some?
    ensures Sound(Run(events).value.state)
  {
    if events != [] {
      var init, e := events[..|events| - 1], events[|events| - 1];
      RunsStaySound(init);
      EveryRunIsSerial(init);
      var s := Run(init).value;
      if e.Lock? { AtomicKeepsSound(s.state, s.calls[e.id].call); }
    }
  }

  // A refused call, wherever the refusal happened, leaves no trace: taking it out of the sequential
  // order changes no state.
  lemma {:induction false} RefusedCallsLeaveNoTrace(order: seq<Id>, calls: map<Id, Phase>, k: nat)
    requires k < |order| && forall i :: 0 <= i < |order| ==> order[i] in calls
    requires Atomic(Serial(order[..k], calls), calls[order[k]].call).1.Failed?
    ensures Serial(order[..k] + order[k + 1..], calls) == Serial(order, calls)
    decreases |order|
  {
    hide Atomic;
    var last := |order| - 1;
    var shorter := order[..k] + order[k + 1..];
    if k == last {
      assert shorter == order[..last];
      AtomicGrows(Serial(order[..k], calls), calls[order[k]].call);
    } else {
      var init := order[..last];
      assert init[..k] == order[..k] && init[k] == order[k];
      RefusedCallsLeaveNoTrace(init, calls, k);
      DropSnoc(order, k + 1);
      assert shorter == (init[..k] + init[k + 1..]) + [order[last]];
      assert shorter[..|shorter| - 1] == init[..k] + init[k + 1..];
    }
  }
}
