// The poll task, the receive task, the one-slot queue and the event bit as interleaved steps
// (main/serial_controller.h:911-1038, main/esp_http_client_example.c:138-142). Taking a pointer from
// the queue, copying what it points to, and parsing the copy are three steps.
module PollProtocol {
  import opened Tokenizing
  import opened Sensors
  import opened Frames
  import opened WebBuffer
  import opened Endpoints
  import opened Cycles
  import opened Freshness

  // Where the poll task is: before its first or second xEventGroupWaitBits, in one of its three
  // xQueueReceive calls, holding the pointer it dequeued, about to parse its private copy, about to
  // test the flags, or stopped by undefined behaviour.
  datatype Pc =
    | BitWait(n: nat)
    | QueueWait(n: nat)
    | Copying(n: nat)
    | Parsing(n: nat, copy: string)
    | Publish
    | Halted

  // Where the receive task is: in uart_read_bytes, or in xQueueSend.
  datatype RxPc = Reading | Sending

  datatype Event =
    | Received(text: string)
    | Enqueued
    | Dropped
    | TimedOut(wait: nat)
    | Woke(wait: nat)
    | NoReply(exchange: nat)
    | Taken
    | Copied(text: string)
    | Parse(exchange: nat, text: string, status: Status)
    | Built(keys: seq<Assigned>)
    | Overran(keys: seq<Assigned>)
    | Skipped

  // The only pointer that is ever queued: the receive task's buffer
  const RX_BUFFER := 1

  datatype State = State(pc: Pc, rx: RxPc, bit: bool, queue: seq<int>, buffer: string, store: Store, flags: Flags,
                         web: string, endpoints: seq<string>, log: seq<Event>)

  // Receive's text is the C string that a read of at least one byte leaves in the buffer; Finish's
  // keys are the loaded keys with the ports the registry holds at that moment.
  datatype Action =
    | Receive(text: string) | Send | GiveUp
    | WaitBit | Miss | Take | Copy | ParseCopy | Finish(keys: seq<Assigned>)

  function EndpointTexts(records: seq<string>): (r: seq<string>)
    ensures |r| == 9 && forall g | 0 <= g < 9 :: r[g] == EndpointText(records, g)
  {
    seq(9, g requires 0 <= g < 9 => EndpointText(records, g))
  }

  function Initial(): State {
    State(BitWait(1), Reading, false, [], "", BootStore(), NO_FLAGS, "|", seq(9, _ => ""), [])
  }

  function Log(s: State, e: Event): State {
    s.(log := s.log + [e])
  }

  // The poll task after exchange n
  function AfterExchange(s: State, n: nat): State {
    s.(pc := if n == 1 then BitWait(2) else if n == 2 then QueueWait(3) else Publish)
  }

  // One step of either task; None where the action is not enabled.
  function Do(s: State, a: Action): Option<State>
    requires Shaped(s.store)
  {
    match a
    case Receive(text) =>
      if s.rx == Reading then Some(Log(s.(rx := Sending, buffer := text), Received(text))) else None
    case Send =>
      if s.rx == Sending && s.queue == [] then Some(Log(s.(rx := Reading, queue := [RX_BUFFER]), Enqueued)) else None
    case GiveUp =>
      if s.rx == Sending && s.queue != [] then Some(Log(s.(rx := Reading), Dropped)) else None
    case WaitBit =>
      if !s.pc.BitWait? then None
      else
        var t := if s.pc.n == 1 then s.(flags := NO_FLAGS) else s;
        Some(Log(t.(bit := false, pc := QueueWait(s.pc.n)), if s.bit then Woke(s.pc.n) else TimedOut(s.pc.n)))
    case Take =>
      if s.pc.QueueWait? && s.queue != [] then Some(Log(s.(queue := [], pc := Copying(s.pc.n)), Taken)) else None
    case Copy =>
      if s.pc.Copying? then Some(Log(s.(pc := Parsing(s.pc.n, s.buffer)), Copied(s.buffer))) else None
    case ParseCopy =>
      if s.pc.Parsing? then Some(Parsed(s, s.pc.n, s.pc.copy, ParseData(s.pc.copy, s.store))) else None
    case Miss =>
      if !s.pc.QueueWait? || s.queue != [] then None else Some(AfterExchange(Log(s, NoReply(s.pc.n)), s.pc.n))
    case Finish(keys) =>
      if s.pc != Publish || !Loaded(keys) then None else Some(PublishFor(s, keys))
  }

  // parse_data answered r for the copy.
  function Parsed(s: State, n: nat, copy: string, r: Frames.Parse): State {
    var t := Log(s, Event.Parse(n, copy, r.status));
    if r.status == UndefinedBehaviour then t.(pc := Halted)
    else
      var flags := RaiseOf(n - 1)(s.flags, r.status == EspOk);
      AfterExchange(t.(bit := true, store := r.store, flags := flags), n)
  }

  function PublishFor(s: State, keys: seq<Assigned>): State
    requires Shaped(s.store)
  {
    if !Rebuilds(s.flags) then Log(s.(pc := BitWait(1)), Skipped)
    else if !Publishable(s.store, s.flags, keys) then Log(s.(pc := Halted), Overran(keys))
    else
      Log(s.(pc := BitWait(1), web := WebText(s.store, s.flags, keys),
             endpoints := EndpointTexts(Records(s.store, s.flags, keys))), Built(keys))
  }

  lemma DoShaped(s: State, a: Action)
    requires Shaped(s.store) && Do(s, a).Some?
    ensures Shaped(Do(s, a).value.store)
  {
    hide ParseData, Shaped, Publishable, WebText, EndpointText;
    if a.ParseCopy? && s.pc.Parsing? { ParseDataFrame(s.pc.copy, s.store, s.store); }
  }

  // The state after a whole run, if every action was enabled in turn.
  function Exec(actions: seq<Action>): (r: Option<State>)
    ensures r.Some? ==> Shaped(r.value.store)
  {
    if actions == [] then Some(Initial())
    else
      var before := Exec(actions[..|actions| - 1]);
      if before.None? then None
      else
        var r := Do(before.value, actions[|actions| - 1]);
        if r.Some? then DoShaped(before.value, actions[|actions| - 1]); r else r
  }

  // ---- What the log says ----------------------------------------------------------

  // A rebuild: the arrays before its cycle, the replies of the cycle, and the keys
  datatype Edition = Edition(before: Store, took: seq<Option<string>>, keys: seq<Assigned>)

  // Everything that follows from the events so far.
  //   store, before   what the parses made of the boot arrays: now, and when the current cycle began
  //   took            what the queue waits of the current cycle ended with
  //   completed       parses that completed since the bit was last consumed
  //   accepted        whether any reply was accepted so far
  //   pending, held   pointers in the queue, and dequeued but not yet followed
  //   received        the text received last
  //   overwrote       how many pointers were queued or held when that text arrived
  //   enqueued        how many pointers were enqueued for it
  //   copies          how often it was copied to be parsed
  //   copy            the text copied last
  //   edition         the last rebuild
  datatype History = History(store: Store, before: Store, took: seq<Option<string>>, completed: nat, accepted: bool,
                             pending: int, held: int, received: string, overwrote: int, enqueued: nat, copies: nat,
                             copy: string, edition: Option<Edition>)

  function NewWait(h: History, wait: nat): History {
    if wait == 1 then h.(before := h.store, took := []) else h
  }

  function Advance(h: History, e: Event): History
    requires Shaped(h.store)
  {
    match e
    case Received(text) => h.(received := text, overwrote := h.pending + h.held, enqueued := 0, copies := 0)
    case Enqueued => h.(pending := h.pending + 1, enqueued := h.enqueued + 1)
    case Dropped => h
    case TimedOut(wait) => NewWait(h, wait)
    case Woke(wait) => NewWait(h.(completed := 0), wait)
    case NoReply(_) => h.(took := h.took + [None])
    case Taken => h.(pending := h.pending - 1, held := h.held + 1)
    case Copied(text) => h.(held := h.held - 1, copies := h.copies + 1, copy := text)
    case Parse(_, text, status) =>
      h.(store := ParseData(text, h.store).store, took := h.took + [Some(text)],
         accepted := h.accepted || status == EspOk,
         completed := if status == UndefinedBehaviour then h.completed else h.completed + 1)
    case Built(keys) => h.(edition := Some(Edition(h.before, h.took, keys)))
    case Overran(_) => h
    case Skipped => h
  }

  function Observed(log: seq<Event>): (h: History)
    ensures Shaped(h.store) && GpsKnown(h.store) && Shaped(h.before) && GpsKnown(h.before)
  {
    if log == [] then
      BootShaped();
      History(BootStore(), BootStore(), [], 0, false, 0, 0, "", 0, 0, 0, "", None)
    else
      var h := Observed(log[..|log| - 1]);
      AdvanceShaped(h, log[|log| - 1]);
      Advance(h, log[|log| - 1])
  }

  lemma AdvanceShaped(h: History, e: Event)
    requires Shaped(h.store) && GpsKnown(h.store) && Shaped(h.before) && GpsKnown(h.before)
    ensures var h' := Advance(h, e);
            Shaped(h'.store) && GpsKnown(h'.store) && Shaped(h'.before) && GpsKnown(h'.before)
  {
    hide ParseData, Shaped, GpsKnown;
    if e.Parse? {
      ParseDataFrame(e.text, h.store, h.store);
      ParseKeepsGpsKnown(e.text, h.store);
    }
  }

  lemma ObservedNext(log: seq<Event>, e: Event)
    ensures Observed(log + [e]) == Advance(Observed(log), e)
  {
    hide Advance, Shaped, GpsKnown;
    assert (log + [e])[..|log|] == log;
  }

  // ---- What every run keeps ---------------------------------------------------------

  // No pointer is lost or invented: the pointers that are queued or held and those followed since a
  // text arrived add up to those that were queued or held when it arrived and those enqueued for it.
  ghost predicate Balanced(h: History) {
    && 0 <= h.pending <= 1 && 0 <= h.held <= 1 && h.enqueued <= 1
    && h.copies + h.pending + h.held == h.overwrote + h.enqueued
  }

  // Why an event happened as it did, by the events before it
  ghost predicate Explained(h: History, e: Event)
    requires Shaped(h.store)
  {
    match e
    case Received(_) => true
    case Enqueued => h.pending == 0 && h.enqueued == 0
    case Dropped => h.pending == 1
    case TimedOut(_) => h.completed == 0
    case Woke(_) => h.completed > 0
    case NoReply(n) => h.pending == 0 && n == |h.took| + 1
    case Taken => h.pending == 1 && h.held == 0
    case Copied(text) => h.held == 1 && text == h.received
    case Parse(n, text, status) =>
      n == |h.took| + 1 && text == h.copy && status == ParseData(text, h.store).status
    case Built(keys) =>
      |h.took| == 3 && Loaded(keys) && Rebuilds(FlagsOf(h.took)) && Publishable(h.store, FlagsOf(h.took), keys)
    case Overran(keys) =>
      |h.took| == 3 && Loaded(keys) && Rebuilds(FlagsOf(h.took)) && !Publishable(h.store, FlagsOf(h.took), keys)
    case Skipped => |h.took| == 3 && !Rebuilds(FlagsOf(h.took))
  }

  ghost predicate AllExplained(log: seq<Event>) {
    forall i | 0 <= i < |log| :: Balanced(Observed(log[..i])) && Explained(Observed(log[..i]), log[i])
  }

  // Where the cycle stands, by what it has taken, and the bit that leaves
  ghost predicate InCycle(pc: Pc, bit: bool, took: seq<Option<string>>) {
    match pc
    case BitWait(n) =>
      if n == 1 then |took| in {0, 3} && bit == (|took| == 3 && (took[1].Some? || took[2].Some?))
      else n == 2 && |took| == 1 && bit == took[0].Some?
    case QueueWait(n) => InExchange(n, bit, took)
    case Copying(n) => InExchange(n, bit, took)
    case Parsing(n, _) => InExchange(n, bit, took)
    case Publish => |took| == 3 && bit == (took[1].Some? || took[2].Some?)
    case Halted => true
  }

  ghost predicate InExchange(n: nat, bit: bool, took: seq<Option<string>>) {
    1 <= n <= 3 && |took| == n - 1 && bit == (n == 3 && took[1].Some?)
  }

  // The arrays and flags are what the cycle's replies alone make of the arrays it began with.
  ghost predicate Sequential(h: History, flags: Flags)
    requires Shaped(h.before) && GpsKnown(h.before)
  {
    flags == FlagsOf(h.took) && Replies(h.before, h.took) == Polled(h.store, flags, true)
  }

  // What the web buffer and the endpoints hold: nothing yet, or exactly what the last rebuild's
  // cycle makes of the arrays before it, for the keys of that rebuild.
  ghost predicate Shows(web: string, endpoints: seq<string>, edition: Option<Edition>) {
    match edition
    case None => web == "|" && |endpoints| == 9
    case Some(d) =>
      && Shaped(d.before) && GpsKnown(d.before) && |d.took| == 3 && Loaded(d.keys)
      && var p := Replies(d.before, d.took);
         && p.defined && Rebuilds(p.flags) && Publishable(p.store, p.flags, d.keys)
         && web == WebText(p.store, p.flags, d.keys)
         && endpoints == EndpointTexts(Records(p.store, p.flags, d.keys))
  }

  ghost predicate Inv(s: State) {
    var h := Observed(s.log);
    && s.queue == (if h.pending == 0 then [] else [RX_BUFFER])
    && (s.rx == Sending ==> h.enqueued == 0)
    && h.held == (if s.pc.Copying? then 1 else 0)
    && (s.pc.Parsing? ==> h.copy == s.pc.copy)
    && Balanced(h)
    && s.buffer == h.received
    && s.store == h.store
    && (h.store.gps.time.Some? <==> h.accepted)
    && (s.bit <==> h.completed > 0)
    && InCycle(s.pc, s.bit, h.took)
    && (s.pc != Halted ==> Sequential(h, s.flags))
    && Shows(s.web, s.endpoints, h.edition)
    && AllExplained(s.log)
  }

  lemma LogKept(log: seq<Event>, e: Event)
    requires AllExplained(log) && Balanced(Observed(log)) && Explained(Observed(log), e)
    ensures AllExplained(log + [e])
  {
    hide Explained, Observed, Balanced;
    var all := log + [e];
    assert all[..|log|] == log;
    forall i | 0 <= i < |all| ensures Balanced(Observed(all[..i])) && Explained(Observed(all[..i]), all[i]) {
      if i < |log| { assert all[..i] == log[..i] && all[i] == log[i]; }
    }
  }

  lemma ReceiverKeepsInv(s: State, a: Action)
    requires Inv(s) && (a.Receive? || a.Send? || a.GiveUp?) && Do(s, a).Some?
    ensures Inv(Do(s, a).value)
  {
    hide ParseData, Shaped, GpsKnown, Observed, AllExplained, Sequential, Shows, InCycle;
    var t := Do(s, a).value;
    var e := t.log[|s.log|];
    assert t.log == s.log + [e];
    ObservedNext(s.log, e);
    LogKept(s.log, e);
    hide Explained;
    KeptBySequential(Observed(s.log), Observed(t.log), s.flags);
  }

  lemma KeptBySequential(h: History, h': History, flags: Flags)
    requires Shaped(h.before) && GpsKnown(h.before)
    requires h'.before == h.before && h'.took == h.took && h'.store == h.store
    ensures Shaped(h'.before) && GpsKnown(h'.before) && Sequential(h, flags) == Sequential(h', flags)
  {
    hide Shaped, GpsKnown, Replies;
  }

  lemma WaitKeepsInv(s: State)
    requires Inv(s) && Do(s, WaitBit).Some?
    ensures Inv(Do(s, WaitBit).value)
  {
    hide ParseData, Shaped, GpsKnown, Observed, AllExplained, Sequential, Shows;
    var t := Do(s, WaitBit).value;
    var e := if s.bit then Woke(s.pc.n) else TimedOut(s.pc.n);
    ObservedNext(s.log, e);
    LogKept(s.log, e);
    hide Explained;
    if s.pc.n == 1 {
      CycleStarts(Observed(t.log));
    } else {
      KeptBySequential(Observed(s.log), Observed(t.log), s.flags);
    }
  }

  lemma CycleStarts(h: History)
    requires Shaped(h.before) && GpsKnown(h.before) && h.store == h.before && h.took == []
    ensures Sequential(h, NO_FLAGS)
  {
    hide Shaped, GpsKnown;
  }

  lemma MissKeepsInv(s: State)
    requires Inv(s) && Do(s, Miss).Some?
    ensures Inv(Do(s, Miss).value)
  {
    hide ParseData, Shaped, GpsKnown, Observed, AllExplained, Sequential, Shows;
    var h, t := Observed(s.log), Do(s, Miss).value;
    var e := NoReply(s.pc.n);
    ObservedNext(s.log, e);
    LogKept(s.log, e);
    hide Explained;
    SequentialNext(h, s.flags, None);
    KeptBySequential(h.(took := h.took + [None]), Observed(t.log), s.flags);
  }

  // One more queue wait of the cycle
  lemma SequentialNext(h: History, flags: Flags, reply: Option<string>)
    requires Shaped(h.before) && GpsKnown(h.before) && Shaped(h.store) && GpsKnown(h.store)
    requires Sequential(h, flags) && |h.took| < 3
    requires reply.Some? ==> ParseData(reply.value, h.store).status != UndefinedBehaviour
    ensures var p := Reply(Polled(h.store, flags, true), reply, RaiseOf(|h.took|));
            Sequential(h.(took := h.took + [reply], store := p.store), p.flags)
  {
    hide ParseData, Shaped, GpsKnown, RaiseOf;
    RepliesNext(h.before, h.took, reply);
    FlagsOfReplies(h.before, h.took + [reply]);
  }

  lemma PointerKeepsInv(s: State, a: Action)
    requires Inv(s) && (a.Take? || a.Copy?) && Do(s, a).Some?
    ensures Inv(Do(s, a).value)
  {
    hide ParseData, Shaped, GpsKnown, Observed, AllExplained, Sequential, Shows;
    var t := Do(s, a).value;
    var e := t.log[|s.log|];
    assert t.log == s.log + [e];
    ObservedNext(s.log, e);
    LogKept(s.log, e);
    hide Explained;
    KeptBySequential(Observed(s.log), Observed(t.log), s.flags);
  }

  lemma ParseKeepsInv(s: State)
    requires Inv(s) && Do(s, ParseCopy).Some?
    ensures Inv(Do(s, ParseCopy).value)
  {
    hide ParseData, Shaped, GpsKnown, Observed, AllExplained, Sequential, Shows, RaiseOf, Balanced;
    var h, t := Observed(s.log), Do(s, ParseCopy).value;
    var r := ParseData(s.pc.copy, s.store);
    var e := Event.Parse(s.pc.n, s.pc.copy, r.status);
    assert t.log == s.log + [e];
    ObservedNext(s.log, e);
    LogKept(s.log, e);
    hide Explained;
    BalanceKept(h, Observed(t.log));
    ParsedGps(s.pc.copy, s.store);
    if r.status != UndefinedBehaviour {
      SequentialNext(h, s.flags, Some(s.pc.copy));
      KeptBySequential(h.(took := h.took + [Some(s.pc.copy)], store := r.store), Observed(t.log), t.flags);
    }
  }

  lemma BalanceKept(h: History, h': History)
    requires h.pending == h'.pending && h.held == h'.held && h.copies == h'.copies
    requires h.overwrote == h'.overwrote && h.enqueued == h'.enqueued
    ensures Balanced(h) == Balanced(h')
  {
  }

  lemma ParsedGps(text: string, st: Store)
    requires Shaped(st)
    ensures var r := ParseData(text, st);
            && (r.store.gps.time.Some? <==> st.gps.time.Some? || r.status == EspOk)
            && (r.status == UndefinedBehaviour ==> r.store == st)
  {
    hide ParseHeader, Shaped, Allocates;
  }

  // The end of a cycle, whatever it publishes
  lemma CycleEnds(s: State, pc: Pc, web: string, endpoints: seq<string>, e: Event)
    requires Inv(s) && s.pc == Publish && pc in {BitWait(1), Halted} && (e.Built? || e.Overran? || e.Skipped?)
    requires Explained(Observed(s.log), e) && Shows(web, endpoints, Advance(Observed(s.log), e).edition)
    ensures Inv(s.(pc := pc, web := web, endpoints := endpoints, log := s.log + [e]))
  {
    hide Shaped, GpsKnown, Observed, AllExplained, Sequential, Shows, Explained;
    var h := Observed(s.log);
    ObservedNext(s.log, e);
    LogKept(s.log, e);
    KeptBySequential(h, Advance(h, e), s.flags);
  }

  lemma FinishKeepsInv(s: State, keys: seq<Assigned>)
    requires Inv(s) && Do(s, Finish(keys)).Some?
    ensures Inv(Do(s, Finish(keys)).value)
  {
    hide Shaped, GpsKnown, Observed, AllExplained, Publishable, WebText, Records, FlagsOf, Rebuilds, Sequential, Shows,
         EndpointTexts, Loaded, Balanced;
    var h := Observed(s.log);
    SequentialFlags(h, s.flags);
    if !Rebuilds(s.flags) {
      CycleEnds(s, BitWait(1), s.web, s.endpoints, Skipped);
    } else if !Publishable(s.store, s.flags, keys) {
      CycleEnds(s, Halted, s.web, s.endpoints, Overran(keys));
    } else {
      BuiltShows(h, s.flags, keys);
      var web, records := WebText(s.store, s.flags, keys), Records(s.store, s.flags, keys);
      CycleEnds(s, BitWait(1), web, EndpointTexts(records), Built(keys));
    }
  }

  lemma SequentialFlags(h: History, flags: Flags)
    requires Shaped(h.before) && GpsKnown(h.before) && Sequential(h, flags)
    ensures flags == FlagsOf(h.took)
  {
    hide Shaped, GpsKnown, Replies, FlagsOf;
  }

  lemma BuiltShows(h: History, flags: Flags, keys: seq<Assigned>)
    requires Shaped(h.before) && GpsKnown(h.before) && Shaped(h.store) && Sequential(h, flags) && |h.took| == 3
    requires Loaded(keys) && Rebuilds(flags) && Publishable(h.store, flags, keys)
    ensures Shows(WebText(h.store, flags, keys), EndpointTexts(Records(h.store, flags, keys)),
                  Some(Edition(h.before, h.took, keys)))
  {
    hide Shaped, GpsKnown, Replies, FlagsOf, WebText, Records, Publishable, EndpointTexts, Rebuilds, Loaded;
  }

  lemma StepKeepsInv(s: State, a: Action)
    requires Inv(s) && Shaped(s.store) && Do(s, a).Some?
    ensures Inv(Do(s, a).value)
  {
    hide Inv, Do, Shaped;
    match a
    case WaitBit => WaitKeepsInv(s);
    case Miss => MissKeepsInv(s);
    case Take => PointerKeepsInv(s, a);
    case Copy => PointerKeepsInv(s, a);
    case ParseCopy => ParseKeepsInv(s);
    case Finish(keys) => FinishKeepsInv(s, keys);
    case _ => ReceiverKeepsInv(s, a);
  }

  lemma InitialInv()
    ensures Inv(Initial())
  {
    hide Shaped, GpsKnown, BootStore, Sequential, Advance;
    BootNoGps();
    CycleStarts(Observed([]));
  }

  lemma BootNoGps()
    ensures BootStore().gps.time.None?
  {
  }

  // Over every run of the two tasks, however their steps interleave, all of the above holds: what
  // is queued, buffered, stored, flagged and published is what the log says, and every event of
  // the log has its reason in the events before it.
  lemma {:induction false} EveryRun(actions: seq<Action>)
    requires Exec(actions).Some?
    ensures Inv(Exec(actions).value)
  {
    hide Shaped, Inv, Do;
    if actions == [] {
      InitialInv();
    } else {
      var n := |actions| - 1;
      EveryRun(actions[..n]);
      StepKeepsInv(Exec(actions[..n]).value, actions[n]);
    }
  }
}
