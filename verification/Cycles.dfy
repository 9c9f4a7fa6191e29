// One cycle of the poll task as a function of the replies its waits dequeued, and what it
// publishes (main/serial_controller.h:911-1010).
module Cycles {
  import opened Tokenizing
  import opened Sensors
  import opened Frames
  import opened WebBuffer
  import opened Endpoints

  // Every record fits the 100-byte buffer and has a number.
  predicate Readable(records: seq<string>, n: nat)
    requires n <= |records|
  {
    forall j | 0 <= j < n :: |records[j]| < 100 && RecordKey(records[j]).Some?
  }

  predicate AllFit(records: seq<string>) {
    forall g | 0 <= g < 9 :: |EndpointText(records, g)| < 100
  }

  // What one poll cycle makes of the replies its three waits dequeued (None: no reply in time).
  datatype Polled = Polled(store: Store, flags: Flags, defined: bool)

  const NO_FLAGS := Flags(false, false, false, false, false, false, false, false)

  function Reply(p: Polled, reply: Option<string>, raise: (Flags, bool) -> Flags): Polled
    requires Shaped(p.store)
  {
    if !p.defined || reply.None? then p
    else
      var r := ParseData(reply.value, p.store);
      if r.status == UndefinedBehaviour then p.(defined := false)
      else Polled(r.store, raise(p.flags, r.status == EspOk), true)
  }

  // The temperature wait also sets the gps flag, whatever the parse says.
  function RaiseTemperature(f: Flags, ok: bool): Flags {
    f.(temperature := ok, gps := true)
  }

  function RaiseDigitalInput(f: Flags, ok: bool): Flags {
    f.(digitalInput := ok)
  }

  function RaiseAnalog(f: Flags, ok: bool): Flags {
    f.(analog := ok)
  }

  lemma ReplyShaped(p: Polled, reply: Option<string>, raise: (Flags, bool) -> Flags)
    requires Shaped(p.store) && GpsKnown(p.store)
    ensures Shaped(Reply(p, reply, raise).store) && GpsKnown(Reply(p, reply, raise).store)
  {
    hide ParseData, Shaped, GpsKnown;
    if reply.Some? {
      ParseDataFrame(reply.value, p.store, p.store);
      ParseKeepsGpsKnown(reply.value, p.store);
    }
  }

  lemma StaysUndefined(p: Polled, reply: Option<string>, raise: (Flags, bool) -> Flags)
    requires Shaped(p.store) && !p.defined
    ensures Reply(p, reply, raise) == p
  {
  }

  function Cycle(st: Store, temperature: Option<string>, digitalInput: Option<string>, analog: Option<string>):
    (p: Polled)
    requires Shaped(st) && GpsKnown(st)
    ensures Shaped(p.store) && GpsKnown(p.store)
  {
    var p0 := Polled(st, NO_FLAGS, true);
    ReplyShaped(p0, temperature, RaiseTemperature);
    var p1 := Reply(p0, temperature, RaiseTemperature);
    ReplyShaped(p1, digitalInput, RaiseDigitalInput);
    var p2 := Reply(p1, digitalInput, RaiseDigitalInput);
    ReplyShaped(p2, analog, RaiseAnalog);
    Reply(p2, analog, RaiseAnalog)
  }

  // The flag assignment after the i-th queue wait, from 0
  function RaiseOf(i: int): (Flags, bool) -> Flags {
    if i == 0 then RaiseTemperature else if i == 1 then RaiseDigitalInput else RaiseAnalog
  }

  // A cycle's first queue waits, one after the other with nothing in between
  function Replies(st: Store, took: seq<Option<string>>): (p: Polled)
    requires Shaped(st) && GpsKnown(st)
    ensures Shaped(p.store) && GpsKnown(p.store)
  {
    if took == [] then Polled(st, NO_FLAGS, true)
    else
      var n := |took| - 1;
      ReplyShaped(Replies(st, took[..n]), took[n], RaiseOf(n));
      Reply(Replies(st, took[..n]), took[n], RaiseOf(n))
  }

  lemma RepliesNext(st: Store, took: seq<Option<string>>, reply: Option<string>)
    requires Shaped(st) && GpsKnown(st)
    ensures Replies(st, took + [reply]) == Reply(Replies(st, took), reply, RaiseOf(|took|))
  {
    hide Reply, Shaped, GpsKnown;
    assert (took + [reply])[..|took|] == took;
  }

  // A cycle is its three waits.
  lemma CycleIsReplies(st: Store, temp: Option<string>, dig: Option<string>, ana: Option<string>)
    requires Shaped(st) && GpsKnown(st)
    ensures Cycle(st, temp, dig, ana) == Replies(st, [temp, dig, ana])
  {
    hide Shaped, GpsKnown, Reply;
    RepliesNext(st, [], temp);
    RepliesNext(st, [temp], dig);
    RepliesNext(st, [temp, dig], ana);
    assert [] + [temp] == [temp] && [temp] + [dig] == [temp, dig] && [temp, dig] + [ana] == [temp, dig, ana];
  }

  predicate Accepts(reply: Option<string>) {
    reply.Some? && ParseData(reply.value, BootStore()).status == EspOk
  }

  // Each flag says whether its own wait's reply was accepted; gps, whether the temperature
  // wait got a reply at all.
  lemma CycleFlags(st: Store, temp: Option<string>, dig: Option<string>, ana: Option<string>)
    requires Shaped(st) && GpsKnown(st) && Cycle(st, temp, dig, ana).defined
    ensures Cycle(st, temp, dig, ana).flags ==
            NO_FLAGS.(temperature := Accepts(temp), gps := temp.Some?, digitalInput := Accepts(dig),
                      analog := Accepts(ana))
    ensures Cycle(st, temp, dig, ana).store.gps.time.Some? <==>
              st.gps.time.Some? || Accepts(temp) || Accepts(dig) || Accepts(ana)
  {
    hide ParseData, Shaped, GpsKnown, BootStore;
    var p0 := Polled(st, NO_FLAGS, true);
    ReplyShaped(p0, temp, RaiseTemperature);
    var p1 := Reply(p0, temp, RaiseTemperature);
    ReplyShaped(p1, dig, RaiseDigitalInput);
    var p2 := Reply(p1, dig, RaiseDigitalInput);
    ReplyGps(p0, temp, RaiseTemperature);
    ReplyGps(p1, dig, RaiseDigitalInput);
    ReplyGps(p2, ana, RaiseAnalog);
  }

  lemma ReplyGps(p: Polled, reply: Option<string>, raise: (Flags, bool) -> Flags)
    requires Shaped(p.store) && p.defined && Reply(p, reply, raise).defined
    ensures var q := Reply(p, reply, raise);
            && (q.store.gps.time.Some? <==> p.store.gps.time.Some? || Accepts(reply))
            && (reply.Some? ==> q.flags == raise(p.flags, Accepts(reply)))
  {
    hide ParseHeader, Allocates, Shaped, BootStore;
    if reply.Some? { ParseDataFrame(reply.value, p.store, BootStore()); }
  }

  // The GPS record after a cycle, exactly: it can be printed unless the temperature wait got a
  // reply while no reply was ever accepted, because the flag is raised anyway.
  lemma CycleGps(st: Store, temp: Option<string>, dig: Option<string>, ana: Option<string>)
    requires Shaped(st) && GpsKnown(st) && Cycle(st, temp, dig, ana).defined
    ensures var p := Cycle(st, temp, dig, ana);
            Printable(p.store, p.flags, 18) <==>
              temp.None? || st.gps.time.Some? || Accepts(temp) || Accepts(dig) || Accepts(ana)
  {
    hide Cycle, Accepts;
    CycleFlags(st, temp, dig, ana);
  }

  // After boot, for example: the reply "x" is rejected, the web buffer is due, and the key assigned
  // to the GPS port cannot be printed.
  lemma RejectedFirstReply(key: nat)
    ensures var p := Cycle(BootStore(), Some("x"), None, None);
            p.defined && Rebuilds(p.flags) && !AllPrintable(p.store, p.flags, [Assigned(key, 18)])
  {
    assert 'p' !in "x";
    var p := Cycle(BootStore(), Some("x"), None, None);
    assert !Printable(p.store, p.flags, [Assigned(key, 18)][0].port);
  }

  // End to end through a whole cycle: whatever the first two waits got, an analog reply for the
  // module's first ports either overflows the payload buffer or is what the rebuilt web buffer
  // shows for every key on those ports.
  lemma CycleShowsAnalog(st: Store, temp: Option<string>, dig: Option<string>, readings: seq<Reading>,
                         key: nat, port: nat)
    requires Shaped(st) && GpsKnown(st) && ReadingsFor(ANALOG, readings) && 10 <= port < 10 + |readings|
    requires Cycle(st, temp, dig, None).defined
    ensures var frame := Frame(10, 10 + |readings| - 1, ANALOG, readings);
            var p := Cycle(st, temp, dig, Some(frame));
            && (p.defined <==> |frame| < PAYLOAD_SIZE)
            && (|readings| <= ReplyLimit(ANALOG) ==> p.defined)
            && (p.defined ==>
                  && Rebuilds(p.flags)
                  && Record(p.store, p.flags, key, port) == Some(Shown(key, port, readings[port - 10])))
  {
    hide ParseData, Frame, Shaped, GpsKnown, Record, ReadingsFor;
    var frame := Frame(10, 10 + |readings| - 1, ANALOG, readings);
    var p2 := Cycle(st, temp, dig, None);
    OnlyShortFramesParse(p2.store, readings);
    if |readings| <= ReplyLimit(ANALOG) { ReplyFits(ANALOG, readings); }
    if |frame| < PAYLOAD_SIZE {
      EndToEnd(p2.store, RaiseAnalog(p2.flags, true), ANALOG, readings, key, port);
    }
  }

  lemma OnlyShortFramesParse(st: Store, readings: seq<Reading>)
    requires Shaped(st) && ReadingsFor(ANALOG, readings)
    ensures var frame := Frame(10, 10 + |readings| - 1, ANALOG, readings);
            ParseData(frame, st).status == if |frame| < PAYLOAD_SIZE then EspOk else UndefinedBehaviour
  {
    hide ParseData, Frame, Shaped;
    ParseOfFrame(st, 10, 10 + |readings| - 1, ANALOG, readings);
  }

  // Printing is defined and every buffer is large enough.
  predicate Publishable(st: Store, flags: Flags, keys: seq<Assigned>)
    requires Shaped(st)
  {
    AllPrintable(st, flags, keys) && |WebText(st, flags, keys)| < 400 && AllFit(Records(st, flags, keys))
  }

  // A printed record comes out again of the endpoint its key belongs to, and no other endpoint
  // has a record with the key.
  lemma RecordReachesEndpoint(st: Store, flags: Flags, keys: seq<Assigned>, k: nat, g: nat)
    requires Shaped(st) && GpsKnown(st) && Loaded(keys) && k < |keys| && g < 9 && AllPrintable(st, flags, keys)
    ensures var tokens := Tokens(EndpointText(Tokens(WebText(st, flags, keys), {'|'}), g), {'|'});
            && Record(st, flags, keys[k].key, keys[k].port).Some?
            && (keys[k].key in GROUPS[g] ==> Record(st, flags, keys[k].key, keys[k].port).value in tokens)
            && (keys[k].key !in GROUPS[g] ==> forall t <- tokens :: RecordKey(t) != Some(keys[k].key))
  {
    hide Shaped, GpsKnown, Record, Tokens, WebText, EndpointText, RecordKey, Selected, Printable, GROUPS;
    RecordDefined(st, flags, keys[k].key, keys[k].port);
    WebRoundTrip(st, flags, keys);
    EndpointIsFilter(WebText(st, flags, keys), g);
    assert Records(st, flags, keys)[k] in Records(st, flags, keys);
  }

  // The whole pipeline: the values an analog reply carries for a port come out again of the
  // endpoint its key belongs to, under that key, and no other endpoint has a record with the key.
  lemma AnalogReachesEndpoint(st: Store, temp: Option<string>, dig: Option<string>, readings: seq<Reading>,
                              keys: seq<Assigned>, k: nat, g: nat)
    requires Shaped(st) && GpsKnown(st) && ReadingsFor(ANALOG, readings) && Loaded(keys) && k < |keys|
    requires 10 <= keys[k].port < 10 + |readings| && Cycle(st, temp, dig, None).defined && g < 9
    requires |Frame(10, 10 + |readings| - 1, ANALOG, readings)| < PAYLOAD_SIZE
    ensures var p := Cycle(st, temp, dig, Some(Frame(10, 10 + |readings| - 1, ANALOG, readings)));
            p.defined && (Publishable(p.store, p.flags, keys) ==>
              var tokens := Tokens(EndpointText(Tokens(WebText(p.store, p.flags, keys), {'|'}), g), {'|'});
              && (keys[k].key in GROUPS[g] ==>
                    Shown(keys[k].key, keys[k].port, readings[keys[k].port - 10]) in tokens)
              && (keys[k].key !in GROUPS[g] ==> forall t <- tokens :: RecordKey(t) != Some(keys[k].key)))
  {
    hide Cycle, Frame, Shaped, GpsKnown, Record, Tokens, WebText, EndpointText, RecordKey, ReadingsFor,
         AllPrintable, AllFit, GROUPS, Rebuilds, Shown;
    var p := Cycle(st, temp, dig, Some(Frame(10, 10 + |readings| - 1, ANALOG, readings)));
    CycleShowsAnalog(st, temp, dig, readings, keys[k].key, keys[k].port);
    if Publishable(p.store, p.flags, keys) { RecordReachesEndpoint(p.store, p.flags, keys, k, g); }
  }

  lemma RecordsReadable(st: Store, flags: Flags, keys: seq<Assigned>)
    requires Shaped(st) && GpsKnown(st) && Loaded(keys) && AllPrintable(st, flags, keys)
    ensures Readable(Records(st, flags, keys), |keys|)
  {
    hide RecordKey, Printable, Record, Shaped, GpsKnown;
    var rs := Records(st, flags, keys);
    forall i | 0 <= i < |keys| ensures |rs[i]| < 100 && RecordKey(rs[i]).Some? {
      RecordFits(st, flags, keys[i], rs[i]);
      RecordProper(st, flags, keys[i], rs[i]);
    }
  }

  // The test before web_buffer_constructor; digital_input is not in it.
  predicate Rebuilds(f: Flags) {
    f.temperature || f.liquid || f.inclination || f.gps || f.analog || f.digitalOutput || f.fan
  }

  // A rebuild is due if and only if some flag other than the digital input's is raised.
  lemma RebuildsIff(f: Flags)
    ensures Rebuilds(f) <==> f.(digitalInput := false) != NO_FLAGS
  {
  }
}
