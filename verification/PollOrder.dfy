// In which order the two tasks of every run do what, and what they can do next, by the events so
// far alone (main/serial_controller.h:911-1038).
module PollOrder {
  import opened Tokenizing
  import opened Sensors
  import opened Frames
  import opened WebBuffer
  import opened Cycles
  import opened Freshness
  import opened PollProtocol

  predicate OfReceiver(e: Event) {
    e.Received? || e.Enqueued? || e.Dropped?
  }

  // The last thing the poll task did
  function LastPoll(log: seq<Event>): Option<Event> {
    if log == [] then None
    else if OfReceiver(log[|log| - 1]) then LastPoll(log[..|log| - 1])
    else Some(log[|log| - 1])
  }

  // The receive task holds a text it has not tried to enqueue.
  predicate HasText(log: seq<Event>) {
    log != [] &&
    if OfReceiver(log[|log| - 1]) then log[|log| - 1].Received? else HasText(log[..|log| - 1])
  }

  predicate IsWait(e: Event, n: nat) {
    e == TimedOut(n) || e == Woke(n)
  }

  // Exchange n ended, with an answer or without.
  predicate Ended(last: Option<Event>, n: nat) {
    last == Some(NoReply(n)) ||
    (last.Some? && last.value.Parse? && last.value.exchange == n && last.value.status != UndefinedBehaviour)
  }

  predicate Waited(last: Option<Event>, n: nat) {
    last.Some? && IsWait(last.value, n)
  }

  // ---- The order of the poll task's steps ----------------------------------------------

  // A cycle begins at the very start or after the last one was published or found not due.
  predicate CycleOver(last: Option<Event>) {
    last.None? || last.value.Built? || last.value.Skipped?
  }

  // Undefined behaviour
  predicate Stopped(last: Option<Event>) {
    last.Some? && (last.value.Overran? || (last.value.Parse? && last.value.status == UndefinedBehaviour))
  }

  // Where the queue is waited on in exchange n: after the event bit, but directly after the second
  // exchange for the third
  predicate QueueTurn(last: Option<Event>, n: nat) {
    if n == 3 then Ended(last, 2) else n in {1, 2} && Waited(last, n)
  }

  // What the poll task does next
  ghost predicate Follows(last: Option<Event>, e: Event) {
    match e
    case TimedOut(n) => (n == 1 && CycleOver(last)) || (n == 2 && Ended(last, 1))
    case Woke(n) => (n == 1 && CycleOver(last)) || (n == 2 && Ended(last, 1))
    case NoReply(n) => QueueTurn(last, n)
    case Taken => QueueTurn(last, 1) || QueueTurn(last, 2) || QueueTurn(last, 3)
    case Copied(_) => last == Some(Taken)
    case Parse(n, text, _) => last == Some(Copied(text)) && 1 <= n <= 3
    case Built(_) => Ended(last, 3)
    case Overran(_) => Ended(last, 3)
    case Skipped => Ended(last, 3)
    case _ => true
  }

  ghost predicate AllFollow(log: seq<Event>) {
    forall i | 0 <= i < |log| :: Follows(LastPoll(log[..i]), log[i])
  }

  // Where the poll task is, by what it did last
  ghost predicate PlacedBy(pc: Pc, last: Option<Event>, taken: nat) {
    match pc
    case BitWait(n) => if n == 1 then CycleOver(last) else n == 2 && Ended(last, 1)
    case QueueWait(n) => QueueTurn(last, n)
    case Copying(n) => last == Some(Taken) && n == taken + 1
    case Parsing(n, copy) => last == Some(Copied(copy)) && n == taken + 1
    case Publish => Ended(last, 3)
    case Halted => Stopped(last)
  }

  ghost predicate Ordered(s: State) {
    && PlacedBy(s.pc, LastPoll(s.log), |Observed(s.log).took|)
    && (s.rx == Sending <==> HasText(s.log))
    && AllFollow(s.log)
  }

  lemma LastNext(log: seq<Event>, e: Event)
    ensures LastPoll(log + [e]) == if OfReceiver(e) then LastPoll(log) else Some(e)
    ensures HasText(log + [e]) <==> if OfReceiver(e) then e.Received? else HasText(log)
  {
    assert (log + [e])[..|log|] == log;
  }

  lemma FollowsNext(log: seq<Event>, e: Event)
    requires AllFollow(log) && Follows(LastPoll(log), e)
    ensures AllFollow(log + [e])
  {
    hide Follows, LastPoll;
    var all := log + [e];
    assert all[..|log|] == log;
    forall i | 0 <= i < |all| ensures Follows(LastPoll(all[..i]), all[i]) {
      if i < |log| { assert all[..i] == log[..i] && all[i] == log[i]; }
    }
  }

  lemma ReceiverKeepsOrder(s: State, a: Action)
    requires Shaped(s.store) && Inv(s) && Ordered(s) && Do(s, a).Some? && (a.Receive? || a.Send? || a.GiveUp?)
    ensures Ordered(Do(s, a).value)
  {
    hide ParseData, Shaped, GpsKnown, Observed, AllExplained, Sequential, Shows, Balanced, AllFollow, LastPoll, HasText,
         Publishable, WebText, Records, EndpointTexts, Rebuilds, RaiseOf, Advance;
    var t := Do(s, a).value;
    var e := t.log[|s.log|];
    assert t.log == s.log + [e];
    LastNext(s.log, e);
    FollowsNext(s.log, e);
    TookNext(s.log, e);
  }

  lemma WaitKeepsOrder(s: State, a: Action)
    requires Shaped(s.store) && Inv(s) && Ordered(s) && Do(s, a).Some? && (a.WaitBit? || a.Miss?)
    ensures Ordered(Do(s, a).value)
  {
    hide ParseData, Shaped, GpsKnown, Observed, AllExplained, Sequential, Shows, Balanced, AllFollow, LastPoll, HasText,
         Publishable, WebText, Records, EndpointTexts, Rebuilds, RaiseOf, Advance;
    var t := Do(s, a).value;
    var e := t.log[|s.log|];
    assert t.log == s.log + [e];
    LastNext(s.log, e);
    FollowsNext(s.log, e);
    TookNext(s.log, e);
  }

  lemma TakeKeepsOrder(s: State, a: Action)
    requires Shaped(s.store) && Inv(s) && Ordered(s) && Do(s, a).Some? && (a.Take? || a.Copy?)
    ensures Ordered(Do(s, a).value)
  {
    hide ParseData, Shaped, GpsKnown, Observed, AllExplained, Sequential, Shows, Balanced, AllFollow, LastPoll, HasText,
         Publishable, WebText, Records, EndpointTexts, Rebuilds, RaiseOf, Advance;
    var t := Do(s, a).value;
    var e := t.log[|s.log|];
    assert t.log == s.log + [e];
    LastNext(s.log, e);
    FollowsNext(s.log, e);
    TookNext(s.log, e);
  }

  lemma ParseKeepsOrder(s: State, a: Action)
    requires Shaped(s.store) && Inv(s) && Ordered(s) && Do(s, a).Some? && (a.ParseCopy?)
    ensures Ordered(Do(s, a).value)
  {
    hide ParseData, Shaped, GpsKnown, Observed, AllExplained, Sequential, Shows, Balanced, AllFollow, LastPoll, HasText,
         Publishable, WebText, Records, EndpointTexts, Rebuilds, RaiseOf, Advance;
    var t := Do(s, a).value;
    var e := t.log[|s.log|];
    assert t.log == s.log + [e];
    LastNext(s.log, e);
    FollowsNext(s.log, e);
    TookNext(s.log, e);
  }

  lemma FinishKeepsOrder(s: State, a: Action)
    requires Shaped(s.store) && Inv(s) && Ordered(s) && Do(s, a).Some? && (a.Finish?)
    ensures Ordered(Do(s, a).value)
  {
    hide ParseData, Shaped, GpsKnown, Observed, AllExplained, Sequential, Shows, Balanced, AllFollow, LastPoll, HasText,
         Publishable, WebText, Records, EndpointTexts, Rebuilds, RaiseOf, Advance;
    var t := Do(s, a).value;
    var e := t.log[|s.log|];
    assert t.log == s.log + [e];
    LastNext(s.log, e);
    FollowsNext(s.log, e);
    TookNext(s.log, e);
  }

  lemma StepKeepsOrder(s: State, a: Action)
    requires Shaped(s.store) && Inv(s) && Ordered(s) && Do(s, a).Some?
    ensures Ordered(Do(s, a).value)
  {
    hide Inv, Ordered, Do, Shaped;
    match a
    case WaitBit => WaitKeepsOrder(s, a);
    case Miss => WaitKeepsOrder(s, a);
    case Take => TakeKeepsOrder(s, a);
    case Copy => TakeKeepsOrder(s, a);
    case ParseCopy => ParseKeepsOrder(s, a);
    case Finish(_) => FinishKeepsOrder(s, a);
    case _ => ReceiverKeepsOrder(s, a);
  }

  lemma TookNext(log: seq<Event>, e: Event)
    ensures e.Received? || e.Enqueued? || e.Dropped? || e.Taken? || e.Copied? ==>
              Observed(log + [e]).took == Observed(log).took
  {
    hide ParseData, Shaped, GpsKnown, Observed;
    ObservedNext(log, e);
  }

  // Over every run: each step of the poll task is one that follows its last one, so that a cycle
  // always waits, exchanges, waits, exchanges, exchanges and then publishes or finds nothing due.
  lemma {:induction false} EveryRunOrdered(actions: seq<Action>)
    requires Exec(actions).Some?
    ensures Ordered(Exec(actions).value)
  {
    hide Shaped, Inv, Do, Ordered;
    if actions == [] {
      InitialOrdered();
    } else {
      var n := |actions| - 1;
      EveryRun(actions[..n]);
      EveryRunOrdered(actions[..n]);
      StepKeepsOrder(Exec(actions[..n]).value, actions[n]);
    }
  }

  lemma InitialOrdered()
    ensures Ordered(Initial())
  {
    hide Shaped, GpsKnown, BootStore;
  }

  // Each cycle but the first begins directly after the one before it was published or found not
  // due, and once the third exchange has ended, nothing else comes before one of these.
  lemma CyclesAreWhole(actions: seq<Action>, i: nat)
    requires Exec(actions).Some? && i < |Exec(actions).value.log|
    ensures var log := Exec(actions).value.log;
            var last := LastPoll(log[..i]);
            && (IsWait(log[i], 1) ==> last.None? || last.value.Built? || last.value.Skipped?)
            && (last.None? ==> forall j | 0 <= j < i :: OfReceiver(log[j]))
            && (Ended(last, 3) && !OfReceiver(log[i]) ==> log[i].Built? || log[i].Overran? || log[i].Skipped?)
  {
    hide Exec, LastPoll, Observed;
    EveryRunOrdered(actions);
    NothingPolled(Exec(actions).value.log[..i]);
  }

  lemma {:induction false} NothingPolled(log: seq<Event>)
    ensures LastPoll(log).None? ==> forall j | 0 <= j < |log| :: OfReceiver(log[j])
  {
    if log == [] {
    } else {
      NothingPolled(log[..|log| - 1]);
    }
  }

  // ---- What can happen next ----------------------------------------------------------------

  // What an action adds to the log, by the log alone; None where it is not possible.
  ghost function NextEvent(log: seq<Event>, a: Action): Option<Event> {
    var h, last := Observed(log), LastPoll(log);
    match a
    case Receive(text) => if HasText(log) then None else Some(Received(text))
    case Send => if HasText(log) && h.pending == 0 then Some(Enqueued) else None
    case GiveUp => if HasText(log) && h.pending != 0 then Some(Dropped) else None
    case WaitBit =>
      if CycleOver(last) then Some(if h.completed > 0 then Woke(1) else TimedOut(1))
      else if Ended(last, 1) then Some(if h.completed > 0 then Woke(2) else TimedOut(2))
      else None
    case Miss =>
      if h.pending != 0 then None
      else if QueueTurn(last, 1) then Some(NoReply(1))
      else if QueueTurn(last, 2) then Some(NoReply(2))
      else if QueueTurn(last, 3) then Some(NoReply(3))
      else None
    case Take =>
      if h.pending != 0 && (QueueTurn(last, 1) || QueueTurn(last, 2) || QueueTurn(last, 3)) then Some(Taken) else None
    case Copy => if last == Some(Taken) then Some(Copied(h.received)) else None
    case ParseCopy =>
      if last.Some? && last.value.Copied? then
        Some(Event.Parse(|h.took| + 1, last.value.text, ParseData(last.value.text, h.store).status))
      else None
    case Finish(keys) =>
      if !Ended(last, 3) || !Loaded(keys) then None
      else if !Rebuilds(FlagsOf(h.took)) then Some(Skipped)
      else if Publishable(h.store, FlagsOf(h.took), keys) then Some(Built(keys))
      else Some(Overran(keys))
  }

  // The action is possible exactly when NextEvent has an event for it, and adds that one.
  ghost predicate Stepped(s: State, a: Action)
    requires Shaped(s.store)
  {
    && (Do(s, a).Some? <==> NextEvent(s.log, a).Some?)
    && (Do(s, a).Some? ==> Do(s, a).value.log == s.log + [NextEvent(s.log, a).value])
  }

  lemma ReceiverStepped(s: State, a: Action)
    requires Shaped(s.store) && Inv(s) && Ordered(s) && (a.Receive? || a.Send? || a.GiveUp?)
    ensures Stepped(s, a)
  {
    hide ParseData, Shaped, GpsKnown, Observed, AllExplained, Sequential, Shows, AllFollow, LastPoll, HasText,
         Publishable, WebText, Records, EndpointTexts, Rebuilds, RaiseOf, FlagsOf;
  }

  lemma WaitStepped(s: State, a: Action)
    requires Shaped(s.store) && Inv(s) && Ordered(s) && (a.WaitBit? || a.Miss?)
    ensures Stepped(s, a)
  {
    hide ParseData, Shaped, GpsKnown, Observed, AllExplained, Sequential, Shows, AllFollow, LastPoll, HasText,
         Publishable, WebText, Records, EndpointTexts, Rebuilds, RaiseOf, FlagsOf;
  }

  lemma TakeStepped(s: State, a: Action)
    requires Shaped(s.store) && Inv(s) && Ordered(s) && (a.Take? || a.Copy? || a.ParseCopy?)
    ensures Stepped(s, a)
  {
    hide ParseData, Shaped, GpsKnown, Observed, AllExplained, Sequential, Shows, AllFollow, LastPoll, HasText,
         Publishable, WebText, Records, EndpointTexts, Rebuilds, RaiseOf, FlagsOf;
  }

  lemma FinishStepped(s: State, a: Action)
    requires Shaped(s.store) && Inv(s) && Ordered(s) && (a.Finish?)
    ensures Stepped(s, a)
  {
    hide ParseData, Shaped, GpsKnown, Observed, AllExplained, Sequential, Shows, AllFollow, LastPoll, HasText,
         Publishable, WebText, Records, EndpointTexts, Rebuilds, RaiseOf, FlagsOf;
    if s.pc != Halted { SequentialFlags(Observed(s.log), s.flags); }
  }

  // Which actions are possible at the end of any run, and what each of them does, exactly.
  lemma StepOfRun(actions: seq<Action>, a: Action)
    requires Exec(actions).Some?
    ensures Stepped(Exec(actions).value, a)
  {
    hide Inv, Ordered, Shaped, Exec, Stepped;
    EveryRun(actions);
    EveryRunOrdered(actions);
    var s := Exec(actions).value;
    match a
    case WaitBit => WaitStepped(s, a);
    case Miss => WaitStepped(s, a);
    case Take => TakeStepped(s, a);
    case Copy => TakeStepped(s, a);
    case ParseCopy => TakeStepped(s, a);
    case Finish(_) => FinishStepped(s, a);
    case _ => ReceiverStepped(s, a);
  }

  // At the end of the third exchange, however it ended, and only there, the flags are tested: the
  // rebuild is the one thing the poll task can do, for any keys, until it is done.
  lemma ThirdExchangeIsTested(actions: seq<Action>, keys: seq<Assigned>)
    requires Exec(actions).Some? && Loaded(keys)
    ensures var s := Exec(actions).value;
            && (s.pc == Publish <==> Ended(LastPoll(s.log), 3))
            && (Do(s, Finish(keys)).Some? <==> Ended(LastPoll(s.log), 3))
            && (Ended(LastPoll(s.log), 3) ==>
                  && Do(s, WaitBit).None? && Do(s, Miss).None? && Do(s, Take).None?
                  && Do(s, Copy).None? && Do(s, ParseCopy).None?)
  {
    hide Exec, LastPoll, Observed, Shaped, AllFollow, PublishFor, ParseData, Loaded;
    EveryRunOrdered(actions);
    TestedAt(Exec(actions).value);
  }

  lemma TestedAt(s: State)
    requires Ordered(s)
    ensures s.pc == Publish <==> Ended(LastPoll(s.log), 3)
  {
    hide LastPoll, Observed, AllFollow, HasText;
  }
}
