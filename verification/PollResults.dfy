// What holds of every run of the two tasks, however their steps interleave
// (main/serial_controller.h:911-1038).
module PollResults {
  import opened Tokenizing
  import opened Sensors
  import opened Frames
  import opened WebBuffer
  import opened Endpoints
  import opened Cycles
  import opened Freshness
  import opened PollProtocol

  // ---- The event bit and the rebuild -------------------------------------------

  // Which waits time out, exactly: the second one when the temperature request got no reply, the
  // first one when neither of the two later requests of the cycle before did (or there was none).
  lemma WaitTimesOutIff(actions: seq<Action>)
    requires Exec(actions).Some? && Exec(actions).value.pc.BitWait?
    ensures var s := Exec(actions).value;
            var took := Observed(s.log).took;
            && s.pc.n in {1, 2} && |took| == (if s.pc.n == 2 then 1 else if took == [] then 0 else 3)
            && Do(s, WaitBit).Some?
            && (Do(s, WaitBit).value.log == s.log + [TimedOut(s.pc.n)] <==>
                  if s.pc.n == 2 then took[0].None? else took == [] || (took[1].None? && took[2].None?))
  {
    hide ParseData, Shaped, GpsKnown, Exec, Observed, AllExplained, Sequential, Shows;
    EveryRun(actions);
    var s := Exec(actions).value;
    assert (s.log + [Woke(s.pc.n)])[|s.log|] != (s.log + [TimedOut(s.pc.n)])[|s.log|];
  }

  // When the web buffer is due, exactly: the temperature wait took anything at all, or the analog
  // wait took a reply that was accepted. The digital input's reply does not count.
  lemma RebuiltIff(actions: seq<Action>, keys: seq<Assigned>)
    requires Exec(actions).Some? && Exec(actions).value.pc == Publish && Loaded(keys)
    ensures var s := Exec(actions).value;
            var took := Observed(s.log).took;
            && |took| == 3 && Do(s, Finish(keys)).Some?
            && (Do(s, Finish(keys)).value.log != s.log + [Skipped] <==> took[0].Some? || Accepts(took[2]))
  {
    hide ParseData, Shaped, GpsKnown, Exec, Observed, AllExplained, Shows, Sequential, Publishable, WebText, Records,
         EndpointTexts, Accepts;
    EveryRun(actions);
    var s := Exec(actions).value;
    var took := Observed(s.log).took;
    SequentialFlags(Observed(s.log), s.flags);
    if Accepts(took[0]) { AcceptsSome(took[0]); }
    assert (s.log + [Built(keys)])[|s.log|] != (s.log + [Skipped])[|s.log|];
    assert (s.log + [Overran(keys)])[|s.log|] != (s.log + [Skipped])[|s.log|];
  }

  lemma AcceptsSome(reply: Option<string>)
    requires Accepts(reply)
    ensures reply.Some?
  {
  }

  // ---- Every run is a sequence of whole cycles ----------------------------------

  lemma AtPublish(actions: seq<Action>) returns (s: State, h: History)
    requires Exec(actions).Some? && Exec(actions).value.pc == Publish
    ensures s == Exec(actions).value && h == Observed(s.log) && |h.took| == 3
    ensures Replies(h.before, h.took) == Polled(s.store, s.flags, true) && s.flags == FlagsOf(h.took)
    ensures Replies(BootStore(), h.took).defined
    ensures s.store.gps.time.Some? <==> h.accepted
  {
    hide ParseData, Shaped, GpsKnown, Exec, Observed, AllExplained, Shows, Replies, FlagsOf, BootStore;
    EveryRun(actions);
    s := Exec(actions).value;
    h := Observed(s.log);
    BootShaped();
    DefinedWhatever(h.before, BootStore(), h.took);
  }

  // However the two tasks interleave, when a cycle is about to publish, the arrays and flags are
  // those of the sequential cycle over the replies its three waits took, from the arrays as the
  // cycle before left them.
  lemma EveryCycleIsSequential(actions: seq<Action>)
    requires Exec(actions).Some? && Exec(actions).value.pc == Publish
    ensures var s := Exec(actions).value;
            var h := Observed(s.log);
            && |h.took| == 3
            && Cycle(h.before, h.took[0], h.took[1], h.took[2]) == Polled(s.store, s.flags, true)
  {
    hide Exec, Shaped, GpsKnown, Replies, Cycle, Observed, BootStore;
    var s, h := AtPublish(actions);
    CycleIsReplies(h.before, h.took[0], h.took[1], h.took[2]);
    assert h.took == [h.took[0], h.took[1], h.took[2]];
  }

  // ---- Flags and modules ----------------------------------------------------------

  // The module a wait asked for
  function Asked(wait: nat): int {
    if wait == 0 then TEMPERATURE else if wait == 1 then DIGITAL_INPUT else ANALOG
  }

  // The flag of a wait says that its reply was accepted. The reply then was stored to exactly the
  // module its text announces, so the flag names the module stored if and only if that is the
  // module the wait asked for.
  lemma FlagNamesModuleIff(actions: seq<Action>, wait: nat)
    requires Exec(actions).Some? && Exec(actions).value.pc == Publish && wait < 3
    ensures var s := Exec(actions).value;
            var took := Observed(s.log).took;
            && |took| == 3 && (Answered(s.flags, Asked(wait)) <==> Accepts(took[wait]))
            && (Answered(s.flags, Asked(wait)) ==>
                  && took[wait].Some?
                  && (StoresTo(took[wait].value, Asked(wait)) <==> CodeOf(took[wait].value) == Asked(wait))
                  && forall m | IsArrayModule(m) :: StoresTo(took[wait].value, m) <==> CodeOf(took[wait].value) == m)
  {
    hide Exec, Shaped, GpsKnown, Replies, Observed, BootStore, Accepts, StoresTo, CodeOf;
    var s, h := AtPublish(actions);
    if Accepts(h.took[wait]) {
      AcceptsSome(h.took[wait]);
      forall m | IsArrayModule(m) ensures StoresTo(h.took[wait].value, m) <==> CodeOf(h.took[wait].value) == m {
        StoresToIff(h.took[wait].value, m);
      }
    }
  }

  // Each slot at the end of a cycle holds what the last accepted reply of its module in this cycle
  // carried for it, and what it held before the cycle if there was none.
  lemma SlotsOfRun(actions: seq<Action>, m: int, i: nat)
    requires Exec(actions).Some? && Exec(actions).value.pc == Publish && IsArrayModule(m) && i < Capacity(m)
    ensures var s := Exec(actions).value;
            var h := Observed(s.log);
            && |Slots(h.before, m)| == |Slots(s.store, m)| == Capacity(m)
            && Slots(s.store, m)[i] == Held(Slots(h.before, m)[i], h.took, m, i)
  {
    hide Exec, Shaped, GpsKnown, Replies, Observed, BootStore, Held, Slots, IsArrayModule;
    var s, h := AtPublish(actions);
    SlotsOfReplies(h.before, h.took, m, i);
  }

  // Every record that is due then, exactly; and when it shows this cycle's data.
  lemma RecordsOfRun(actions: seq<Action>, m: int, i: nat, key: nat)
    requires Exec(actions).Some? && Exec(actions).value.pc == Publish && IsShownModule(m) && i < Capacity(m)
    ensures var s := Exec(actions).value;
            var h := Observed(s.log);
            && |h.took| == 3 && |Slots(h.before, m)| == Capacity(m)
            && Record(s.store, s.flags, key, Base(m) + i) == Some(Due(Slots(h.before, m)[i], h.took, m, i, key))
            && (Fresh(h.took, m, i, key) <==> Raised(h.took, m) && Written(h.took, m, i))
  {
    hide Exec, Shaped, GpsKnown, Replies, Observed, BootStore, Held, Slots, Record, Due, Fresh, Raised, Written;
    var s, h := AtPublish(actions);
    RecordsOfReplies(h.before, h.took, m, i, key);
    FreshIff(h.took, m, i, key);
  }

  // ---- GPS ------------------------------------------------------------------------

  // Some parse so far was accepted.
  ghost predicate AnyAccepted(log: seq<Event>) {
    exists i | 0 <= i < |log| :: AcceptedBy(log[i])
  }

  predicate AcceptedBy(e: Event) {
    e.Parse? && e.status == EspOk
  }

  lemma AnyAcceptedNext(log: seq<Event>, e: Event)
    ensures AnyAccepted(log + [e]) <==> AnyAccepted(log) || AcceptedBy(e)
  {
    hide AcceptedBy;
    var all := log + [e];
    assert all[|log|] == e && forall i | 0 <= i < |log| :: all[i] == log[i];
    if AnyAccepted(log) {
      var i :| 0 <= i < |log| && AcceptedBy(log[i]);
      assert AcceptedBy(all[i]);
    }
  }

  lemma {:induction false} AcceptedMeans(log: seq<Event>)
    ensures Observed(log).accepted <==> AnyAccepted(log)
  {
    hide AnyAccepted, Observed;
    if log == [] {
      NothingObserved();
    } else {
      var n := |log| - 1;
      AcceptedMeans(log[..n]);
      assert log == log[..n] + [log[n]];
      AnyAcceptedNext(log[..n], log[n]);
      AcceptedNext(log[..n], log[n]);
    }
  }

  lemma AcceptedNext(log: seq<Event>, e: Event)
    ensures Observed(log + [e]).accepted <==> Observed(log).accepted || AcceptedBy(e)
  {
    hide Observed, ParseData, Shaped, GpsKnown;
    ObservedNext(log, e);
  }

  // At the end of any cycle, the GPS record can be printed if and only if the temperature wait of
  // this cycle took nothing or some parse so far was accepted.
  lemma GpsPrintableIff(actions: seq<Action>)
    requires Exec(actions).Some? && Exec(actions).value.pc == Publish
    ensures var s := Exec(actions).value;
            var took := Observed(s.log).took;
            && |took| == 3
            && (Printable(s.store, s.flags, 18) <==>
                  took[0].None? || AnyAccepted(s.log))
  {
    hide Exec, Shaped, GpsKnown, Replies, Observed, BootStore, Accepts, AnyAccepted;
    var s, h := AtPublish(actions);
    AcceptedMeans(s.log);
  }

  // ---- What is published ------------------------------------------------------------

  // At any time in any run after a first rebuild, the web buffer splits into the records of the
  // last rebuild's cycle, and each endpoint string into those of them whose key is in its table.
  lemma EndpointsOfRun(actions: seq<Action>, g: nat)
    requires Exec(actions).Some? && Observed(Exec(actions).value.log).edition.Some? && g < 9
    ensures var s := Exec(actions).value;
            var d := Observed(s.log).edition.value;
            && Shaped(d.before) && GpsKnown(d.before) && |d.took| == 3 && Loaded(d.keys) && |s.endpoints| == 9
            && var p := Replies(d.before, d.took);
               && p.defined && Publishable(p.store, p.flags, d.keys)
               && var records := Records(p.store, p.flags, d.keys);
                  && Tokens(s.web, {'|'}) == records
                  && Tokens(s.endpoints[g], {'|'}) == Selected(records, g)
                  && s.endpoints[g] == EndpointText(Tokens(s.web, {'|'}), g)
                  && s.web == WebText(p.store, p.flags, d.keys)
  {
    hide Exec, Shaped, GpsKnown, Replies, Observed, BootStore, AllExplained, Sequential, InCycle, Balanced, AllFit,
         Records, WebText, Tokens, EndpointText, Selected, Loaded, GROUPS, AllPrintable;
    EveryRun(actions);
    var s := Exec(actions).value;
    var d := Observed(s.log).edition.value;
    var p := Replies(d.before, d.took);
    WebRoundTrip(p.store, p.flags, d.keys);
    EndpointIsFilter(s.web, g);
  }

  // End to end over every run: for every key of the last rebuild on a port of any module, what the
  // module's last accepted reply of that cycle carried for the port, or the slot from before, or a
  // dash if the module's own wait failed, is in the one endpoint string the key belongs to.
  lemma PublishedData(actions: seq<Action>, k: nat, m: int, i: nat, g: nat)
    requires Exec(actions).Some? && Observed(Exec(actions).value.log).edition.Some? && g < 9
    requires var d := Observed(Exec(actions).value.log).edition.value;
             k < |d.keys| && IsShownModule(m) && i < Capacity(m) && d.keys[k].port == Base(m) + i
    ensures var s := Exec(actions).value;
            var d := Observed(s.log).edition.value;
            var key := d.keys[k].key;
            && |Slots(d.before, m)| == Capacity(m) && |s.endpoints| == 9
            && var tokens := Tokens(s.endpoints[g], {'|'});
               && (key in GROUPS[g] ==> Due(Slots(d.before, m)[i], d.took, m, i, key) in tokens)
               && (key !in GROUPS[g] ==> forall t <- tokens :: RecordKey(t) != Some(key))
  {
    hide Exec, Shaped, GpsKnown, Replies, Observed, BootStore, AllFit, Records, WebText, Tokens, EndpointText, Selected,
         Loaded, GROUPS, AllPrintable, Due, Slots, Record, RecordKey;
    EndpointsOfRun(actions, g);
    var d := Observed(Exec(actions).value.log).edition.value;
    var p := Replies(d.before, d.took);
    RecordsOfReplies(d.before, d.took, m, i, d.keys[k].key);
    RecordReachesEndpoint(p.store, p.flags, d.keys, k, g);
  }

  // ---- The shared receive buffer ------------------------------------------------------

  // Of every text so far: it was copied to be parsed at most once.
  ghost predicate AllParsedOnce(log: seq<Event>) {
    forall i | 0 <= i <= |log| :: Observed(log[..i]).copies <= 1
  }

  // Of the pointers that were queued or held when the text arrived and those enqueued for it,
  // exactly one is no longer queued. All of them point to the one receive buffer.
  ghost predicate OnlyPointer(h: History) {
    h.overwrote + h.enqueued == h.pending + 1
  }

  // No run parses a text more than three times. Each text is parsed at most once if and only if
  // every pointer that is followed is the only one no longer queued.
  lemma ParsedOnceIff(actions: seq<Action>)
    requires Exec(actions).Some?
    ensures var log := Exec(actions).value.log;
            && (forall i | 0 <= i <= |log| :: Observed(log[..i]).copies <= 3)
            && (AllParsedOnce(log) <==>
                  forall i | 0 <= i < |log| && log[i].Copied? :: OnlyPointer(Observed(log[..i])))
  {
    hide Exec, Observed, Shaped, GpsKnown;
    EveryRun(actions);
    var log := Exec(actions).value.log;
    forall i | 0 <= i <= |log| ensures Observed(log[..i]).copies <= 3 { AtMostThree(actions, i); }
    if AllParsedOnce(log) {
      forall i | 0 <= i < |log| && log[i].Copied? ensures OnlyPointer(Observed(log[..i])) {
        CopyAt(actions, i);
        assert Observed(log[..i + 1]).copies <= 1;
      }
    } else {
      var i :| 0 <= i <= |log| && Observed(log[..i]).copies > 1;
      var j := SecondCopy(log, i);
      CopyAt(actions, j);
    }
  }

  lemma BalancedAt(actions: seq<Action>, i: nat)
    requires Exec(actions).Some? && i <= |Exec(actions).value.log|
    ensures Balanced(Observed(Exec(actions).value.log[..i]))
  {
    hide Exec, Observed, Shaped, GpsKnown, Explained, Balanced;
    EveryRun(actions);
    var log := Exec(actions).value.log;
    if i == |log| { assert log[..i] == log; }
  }

  // At most two pointers are out when a text arrives, and one is enqueued for it.
  lemma {:induction false} AtMostThree(actions: seq<Action>, i: nat)
    requires Exec(actions).Some? && i <= |Exec(actions).value.log|
    ensures var h := Observed(Exec(actions).value.log[..i]);
            h.overwrote <= 2 && h.copies <= 3
    decreases i
  {
    hide Exec, Observed, Shaped, GpsKnown;
    BalancedAt(actions, i);
    var log := Exec(actions).value.log;
    if i == 0 {
      assert log[..0] == [];
      NothingObserved();
    } else {
      AtMostThree(actions, i - 1);
      BalancedAt(actions, i - 1);
      assert log[..i] == log[..i - 1] + [log[i - 1]];
      OverwroteNext(log[..i - 1], log[i - 1]);
    }
  }

  lemma OverwroteNext(log: seq<Event>, e: Event)
    ensures var h, h' := Observed(log), Observed(log + [e]);
            h'.overwrote == if e.Received? then h.pending + h.held else h.overwrote
  {
    hide ParseData, Shaped, GpsKnown, Observed;
    ObservedNext(log, e);
  }

  // A copy of a run, by what is known before it
  lemma CopyAt(actions: seq<Action>, i: nat)
    requires Exec(actions).Some? && i < |Exec(actions).value.log| && Exec(actions).value.log[i].Copied?
    ensures var log := Exec(actions).value.log;
            var h := Observed(log[..i]);
            && Balanced(h) && h.held == 1 && Observed(log[..i + 1]).copies == h.copies + 1
  {
    hide Exec, Observed, Shaped, GpsKnown, ParseData;
    EveryRun(actions);
    var log := Exec(actions).value.log;
    assert log[..i + 1] == log[..i] + [log[i]];
    ObservedNext(log[..i], log[i]);
  }

  // A text copied twice has a second copy.
  lemma {:induction false} SecondCopy(log: seq<Event>, i: nat) returns (j: nat)
    requires i <= |log| && Observed(log[..i]).copies > 1
    ensures j < i && log[j].Copied? && Observed(log[..j]).copies >= 1
  {
    hide ParseData, Shaped, GpsKnown, Observed;
    if i == 0 {
      assert log[..0] == [];
      NothingObserved();
      assert false;
    } else {
      assert log[..i] == log[..i - 1] + [log[i - 1]];
      ObservedNext(log[..i - 1], log[i - 1]);
      if log[i - 1].Copied? {
        return i - 1;
      }
      j := SecondCopy(log, i - 1);
    }
  }

  // How often a text was parsed by the time the next one replaces it: as often as there were
  // pointers when it arrived or enqueued for it, less those still queued or held. So a text that
  // was enqueued is lost if and only if all of these are still out.
  lemma LostIff(actions: seq<Action>, i: nat)
    requires Exec(actions).Some? && i < |Exec(actions).value.log| && Exec(actions).value.log[i].Received?
    ensures var h := Observed(Exec(actions).value.log[..i]);
            && h.copies == h.overwrote + h.enqueued - h.pending - h.held
            && (h.enqueued == 1 ==> (h.copies == 0 <==> h.pending + h.held == h.overwrote + 1))
  {
    hide Exec, Observed, Shaped, GpsKnown;
    BalancedAt(actions, i);
  }

  // ---- Runs in which it goes wrong ----------------------------------------------------

  // One more action
  lemma Next(run: seq<Action>, s: State, a: Action) returns (run': seq<Action>, s': State)
    requires Exec(run) == Some(s) && Shaped(s.store) && Do(s, a).Some?
    ensures run' == run + [a] && Shaped(s'.store) && Do(s, a) == Some(s') && Exec(run') == Some(s')
  {
    hide Do, Shaped;
    DoShaped(s, a);
    run' := run + [a];
    assert run'[..|run|] == run;
    s' := Do(s, a).value;
  }

  lemma Begin() returns (run: seq<Action>, s: State)
    ensures run == [] && s == Initial() && Shaped(s.store) && Exec(run) == Some(s)
  {
    hide Shaped, BootStore;
    BootShaped();
    return [], Initial();
  }

  // The run up to the digital input's wait, with a reply that comes too late for the first wait.
  function LateReply(text: string): seq<Action> {
    [WaitBit, Miss, WaitBit, Receive(text), Send, Take, Copy, ParseCopy]
  }

  lemma LateReplyRun(text: string)
    requires Accepts(Some(text))
    ensures Exec(LateReply(text)).Some?
    ensures var s := Exec(LateReply(text)).value;
            s.flags == NO_FLAGS.(digitalInput := true) && s.store == ParseData(text, BootStore()).store
  {
    hide ParseData, Exec, BootStore, Accepts, Shaped;
    BootShaped();
    AcceptsMeans(text, BootStore());
    var run, s := Begin();
    run, s := Next(run, s, WaitBit);
    run, s := Next(run, s, Miss);
    run, s := Next(run, s, WaitBit);
    run, s := Next(run, s, Receive(text));
    run, s := Next(run, s, Send);
    run, s := Next(run, s, Take);
    run, s := Next(run, s, Copy);
    run, s := Next(run, s, ParseCopy);
    assert run == LateReply(text);
  }

  // A flag raised by another module: for every numeric module, a run in which its late reply
  // raises the digital input's flag.
  lemma AnyModuleRaisesTheFlag(m: nat, readings: seq<Reading>)
    requires m in {TEMPERATURE, LIQUID, ANALOG, DIGITAL_OUTPUT, FAN} && ReadingsFor(m, readings)
    requires |Frame(Base(m), Base(m) + |readings| - 1, m, readings)| < PAYLOAD_SIZE
    ensures var text := Frame(Base(m), Base(m) + |readings| - 1, m, readings);
            && Exec(LateReply(text)).Some?
            && Exec(LateReply(text)).value.flags == NO_FLAGS.(digitalInput := true)
            && CodeOf(text) == m
  {
    hide ParseData, Frame, Exec, BootStore, ParseHeader, Join, FieldsOf;
    var portMax := Base(m) + |readings| - 1;
    var text := Frame(Base(m), portMax, m, readings);
    BootShaped();
    ParseOfFrame(BootStore(), Base(m), portMax, m, readings);
    FrameHeader(Base(m), portMax, m, readings, text);
    LateReplyRun(text);
  }

  // A text lost and another parsed twice: the second one overwrites the first, which was queued.
  function Overwriting(lost: string, text: string): seq<Action> {
    [WaitBit, Receive(lost), Send, Receive(text), Take, Copy, ParseCopy, Send, WaitBit, Take, Copy, ParseCopy]
  }

  ghost predicate OnlyParses(log: seq<Event>, text: string) {
    forall i | 0 <= i < |log| :: (log[i].Copied? || log[i].Parse? ==> log[i].text == text)
  }

  lemma OneReplyTwoFlags(lost: string, text: string)
    requires Accepts(Some(text))
    ensures Exec(Overwriting(lost, text)).Some?
    ensures var s := Exec(Overwriting(lost, text)).value;
            s.flags == NO_FLAGS.(temperature := true, gps := true, digitalInput := true)
    ensures var log := Exec(Overwriting(lost, text)).value.log;
            !AllParsedOnce(log) && OnlyParses(log, text) && Observed(log).took == [Some(text), Some(text)]
  {
    hide ParseData, Exec, BootStore, Accepts, Shaped, GpsKnown, Observed, AllParsedOnce;
    BootShaped();
    AcceptsMeans(text, BootStore());
    var run, s := Begin();
    NothingObserved();
    run, s := Next(run, s, WaitBit);
    run, s := Next(run, s, Receive(lost));
    run, s := Next(run, s, Send);
    run, s := Next(run, s, Receive(text));
    run, s := Next(run, s, Take);
    run, s := Next(run, s, Copy);
    run, s := Next(run, s, ParseCopy);
    AcceptsMeans(text, s.store);
    run, s := Next(run, s, Send);
    run, s := Next(run, s, WaitBit);
    run, s := Next(run, s, Take);
    run, s := Next(run, s, Copy);
    run, s := Next(run, s, ParseCopy);
    assert run == Overwriting(lost, text);
    OverwritingLog(lost, text, s.log);
  }

  lemma OverwritingLog(lost: string, text: string, log: seq<Event>)
    requires log == [] + [TimedOut(1)] + [Received(lost)] + [Enqueued] + [Received(text)] +
                    [Taken] + [Copied(text)] + [Event.Parse(1, text, EspOk)] + [Enqueued] + [Woke(2)] +
                    [Taken] + [Copied(text)] + [Event.Parse(2, text, EspOk)]
    ensures !AllParsedOnce(log) && OnlyParses(log, text) && Observed(log).took == [Some(text), Some(text)]
  {
    hide Observed, OnlyParses, AllParsedOnce;
    var l7 := OverwritingStart(lost, text);
    var l8 := Effect(text, l7, Enqueued);
    var l9 := Effect(text, l8, Woke(2));
    var l10 := Effect(text, l9, Taken);
    var l11 := Effect(text, l10, Copied(text));
    var l12 := Effect(text, l11, Event.Parse(2, text, EspOk));
    CopiedTwice(log);
  }

  // ... up to its first parse
  lemma OverwritingStart(lost: string, text: string) returns (log: seq<Event>)
    ensures log == [] + [TimedOut(1)] + [Received(lost)] + [Enqueued] + [Received(text)] +
                   [Taken] + [Copied(text)] + [Event.Parse(1, text, EspOk)]
    ensures OnlyParses(log, text) && Observed(log).took == [Some(text)] && Observed(log).copies == 1
  {
    hide Observed, OnlyParses;
    log := OverwritingReceived(lost, text);
    log := Effect(text, log, Taken);
    log := Effect(text, log, Copied(text));
    log := Effect(text, log, Event.Parse(1, text, EspOk));
  }

  lemma OverwritingReceived(lost: string, text: string) returns (log: seq<Event>)
    ensures log == [] + [TimedOut(1)] + [Received(lost)] + [Enqueued] + [Received(text)]
    ensures OnlyParses(log, text) && Observed(log).took == [] && Observed(log).copies == 0
  {
    hide Observed, OnlyParses;
    NothingObserved();
    NothingParsed(text);
    log := Effect(text, [], TimedOut(1));
    log := Effect(text, log, Received(lost));
    log := Effect(text, log, Enqueued);
    log := Effect(text, log, Received(text));
  }

  lemma CopiedTwice(log: seq<Event>)
    requires Observed(log).copies > 1
    ensures !AllParsedOnce(log)
  {
    hide Observed;
    assert log[..|log|] == log;
  }

  lemma NothingParsed(text: string)
    ensures OnlyParses([], text)
  {
  }

  // What one event does to the current cycle and to the count of copies
  lemma Effect(text: string, log: seq<Event>, e: Event) returns (log': seq<Event>)
    ensures log' == log + [e]
    ensures OnlyParses(log, text) && (e.Copied? || e.Parse? ==> e.text == text) ==> OnlyParses(log', text)
    ensures var h, h' := Observed(log), Observed(log');
            && (e.Parse? ==> h'.took == h.took + [Some(e.text)] && h'.copies == h.copies)
            && (e.Copied? ==> h'.took == h.took && h'.copies == h.copies + 1)
            && (e.Received? ==> h'.took == h.took && h'.copies == 0)
            && (e.Enqueued? || e.Taken? || (e.Woke? && e.wait != 1) ==> h'.took == h.took && h'.copies == h.copies)
            && (e == TimedOut(1) ==> h'.took == [] && h'.copies == h.copies)
  {
    hide ParseData, Shaped, GpsKnown, Observed;
    log' := log + [e];
    ObservedNext(log, e);
  }

  // Three pointers to one text: one held and one queued when it arrives, one enqueued for it. Two
  // earlier texts are lost, and the one reply raises the flags of all three requests.
  function Tripling(lost1: string, lost2: string, text: string): seq<Action> {
    [WaitBit, Receive(lost1), Send, Take, Receive(lost2), Send, Receive(text), Copy, ParseCopy,
     WaitBit, Take, Send, Copy, ParseCopy, Take, Copy, ParseCopy]
  }

  // ... up to its first parse
  lemma TriplingStart(lost1: string, lost2: string, text: string) returns (run: seq<Action>, s: State)
    requires Accepts(Some(text))
    ensures run == [WaitBit, Receive(lost1), Send, Take, Receive(lost2), Send, Receive(text), Copy, ParseCopy]
    ensures Exec(run) == Some(s) && Shaped(s.store)
    ensures s.pc == BitWait(2) && s.rx == Sending && s.queue == [RX_BUFFER] && s.buffer == text
    ensures s.flags == NO_FLAGS.(temperature := true, gps := true)
  {
    hide ParseData, Exec, BootStore, Accepts, Shaped, GpsKnown, Observed;
    BootShaped();
    AcceptsMeans(text, BootStore());
    run, s := Begin();
    run, s := Next(run, s, WaitBit);
    run, s := Next(run, s, Receive(lost1));
    run, s := Next(run, s, Send);
    run, s := Next(run, s, Take);
    run, s := Next(run, s, Receive(lost2));
    run, s := Next(run, s, Send);
    run, s := Next(run, s, Receive(text));
    run, s := Next(run, s, Copy);
    run, s := Next(run, s, ParseCopy);
  }

  lemma OneReplyAllFlags(lost1: string, lost2: string, text: string)
    requires Accepts(Some(text))
    ensures Exec(Tripling(lost1, lost2, text)).Some?
    ensures var s := Exec(Tripling(lost1, lost2, text)).value;
            && s.pc == Publish
            && s.flags == NO_FLAGS.(temperature := true, gps := true, digitalInput := true, analog := true)
  {
    hide ParseData, Exec, BootStore, Accepts, Shaped, GpsKnown, Observed;
    var run, s := TriplingStart(lost1, lost2, text);
    AcceptsMeans(text, s.store);
    run, s := Next(run, s, WaitBit);
    run, s := Next(run, s, Take);
    run, s := Next(run, s, Send);
    run, s := Next(run, s, Copy);
    run, s := Next(run, s, ParseCopy);
    AcceptsMeans(text, s.store);
    run, s := Next(run, s, Take);
    run, s := Next(run, s, Copy);
    run, s := Next(run, s, ParseCopy);
    assert run == Tripling(lost1, lost2, text);
  }

  lemma NothingObserved()
    ensures var h := Observed([]);
            h.took == [] && h.copies == 0 && h.overwrote == 0 && !h.accepted
    ensures !AnyAccepted([])
  {
    hide BootStore, Shaped, GpsKnown;
  }
}
