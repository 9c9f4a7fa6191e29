// The web buffer and the endpoint strings cut from it
// (main/serial_controller.h:367-474, 544-674), as functions of the stored readings.
module WebBuffer {
  import opened DecimalText
  import opened Tokenizing
  import opened Sensors
  import opened Frames

  // A loaded key and the port the registry holds for it, as a uint8_t.
  datatype Assigned = Assigned(key: nat, port: nat)

  predicate Loaded(keys: seq<Assigned>) {
    forall i | 0 <= i < |keys| :: keys[i].key < 256 && keys[i].port < 256
  }

  // web_buffer_constructor reads outside an array for the digital input's port once that module
  // has answered, and through a null timestamp for the GPS port before any reply was stored.
  predicate Printable(st: Store, flags: Flags, port: nat) {
    !(port == 4 && flags.digitalInput) && !(port == 18 && flags.gps && st.gps.time.None?)
  }

  // That is the exact condition for a record to be printed.
  lemma RecordDefined(st: Store, flags: Flags, key: nat, port: nat)
    requires Shaped(st)
    ensures Record(st, flags, key, port).Some? <==> Printable(st, flags, port)
  {
  }

  // ---- The records, port by port ---------------------------------------------

  // key:port:payload, with a dash for a module that has not answered
  function Line(key: nat, port: nat, answered: bool, payload: string): string {
    DecText(key) + ":" + DecText(port) + ":" + if answered then payload else "-"
  }

  lemma SingleRecords(st: Store, flags: Flags, key: nat)
    requires Shaped(st)
    ensures |st.temperature| == 3 && |st.fan| == 2 && |st.digitalOutput| == 2
    ensures forall i | 0 <= i < 3 :: |st.temperature[i]| == 1 &&
              Record(st, flags, key, i) == Some(Line(key, i, flags.temperature, DecText(st.temperature[i][0])))
    ensures forall i | 0 <= i < 2 :: |st.fan[i]| == 1 &&
              Record(st, flags, key, 40 + i) == Some(Line(key, 40 + i, flags.fan, DecText(st.fan[i][0])))
    ensures forall i | 0 <= i < 2 :: |st.digitalOutput[i]| == 1 &&
              Record(st, flags, key, 42 + i) ==
              Some(Line(key, 42 + i, flags.digitalOutput, DecText(st.digitalOutput[i][0])))
  {
    hide DecText;
    forall i | 0 <= i < 3 ensures Join(Texts(st.temperature[i]), ':') == DecText(st.temperature[i][0]) {}
    forall i | 0 <= i < 2 ensures Join(Texts(st.fan[i]), ':') == DecText(st.fan[i][0]) {}
    forall i | 0 <= i < 2 ensures Join(Texts(st.digitalOutput[i]), ':') == DecText(st.digitalOutput[i][0]) {}
  }

  lemma Joined2(r: Reading)
    requires |r| == 2
    ensures Join(Texts(r), ':') == DecText(r[0]) + ":" + DecText(r[1])
  {
    hide DecText;
    assert Texts(r) == [DecText(r[0]), DecText(r[1])];
  }

  lemma Joined3(r: Reading)
    requires |r| == 3
    ensures Join(Texts(r), ':') == DecText(r[0]) + ":" + DecText(r[1]) + ":" + DecText(r[2])
  {
    hide DecText;
    assert Texts(r)[1..] == Texts(r[1..]);
    Joined2(r[1..]);
  }

  lemma Joined5(r: Reading)
    requires |r| == 5
    ensures Join(Texts(r), ':') ==
            DecText(r[0]) + ":" + DecText(r[1]) + ":" + DecText(r[2]) + ":" + DecText(r[3]) + ":" + DecText(r[4])
  {
    hide DecText;
    assert Texts(r) == [DecText(r[0]), DecText(r[1]), DecText(r[2]), DecText(r[3]), DecText(r[4])];
    hide Texts, Join;
    JoinOfFive(DecText(r[0]), DecText(r[1]), DecText(r[2]), DecText(r[3]), DecText(r[4]));
  }

  lemma TupleRecords(st: Store, flags: Flags, key: nat)
    requires Shaped(st)
    ensures |st.tank| == 4 && |st.analog| == 8 && |st.inclination| == 1
    ensures forall i | 0 <= i < 4 :: |st.tank[i]| == 5 &&
              var r := st.tank[i];
              Record(st, flags, key, 5 + i) ==
              Some(Line(key, 5 + i, flags.liquid, DecText(r[0]) + ":" + DecText(r[1]) + ":" + DecText(r[2]) + ":" +
                                                  DecText(r[3]) + ":" + DecText(r[4])))
    ensures forall i | 0 <= i < 8 :: |st.analog[i]| == 2 &&
              var r := st.analog[i];
              Record(st, flags, key, 10 + i) ==
              Some(Line(key, 10 + i, flags.analog, DecText(r[0]) + ":" + DecText(r[1])))
    ensures var r := st.inclination[0];
            |r| == 3 && Record(st, flags, key, 9) ==
            Some(Line(key, 9, flags.inclination, DecText(r[0]) + ":" + DecText(r[1]) + ":" + DecText(r[2])))
  {
    hide DecText, Texts, Join;
    forall i | 0 <= i < 4
      ensures |st.tank[i]| == 5
      ensures var r := st.tank[i];
              Join(Texts(r), ':') ==
              DecText(r[0]) + ":" + DecText(r[1]) + ":" + DecText(r[2]) + ":" + DecText(r[3]) + ":" + DecText(r[4])
    {
      Joined5(st.tank[i]);
    }
    forall i | 0 <= i < 8
      ensures |st.analog[i]| == 2
      ensures Join(Texts(st.analog[i]), ':') == DecText(st.analog[i][0]) + ":" + DecText(st.analog[i][1])
    {
      Joined2(st.analog[i]);
    }
    Joined3(st.inclination[0]);
  }

  // The GPS record, the digital input's, and those of ports no module has
  lemma OtherRecords(st: Store, flags: Flags, key: nat)
    requires Shaped(st)
    ensures flags.gps && st.gps.time.None? ==> Record(st, flags, key, 18) == None
    ensures !flags.gps ==> Record(st, flags, key, 18) == Some(Line(key, 18, false, ""))
    ensures flags.gps && st.gps == FIXED_GPS ==>
              Record(st, flags, key, 18) == Some(Line(key, 18, true, FIXED_GPS_TEXT))
    ensures Record(st, flags, key, 4) == if flags.digitalInput then None else Some(Line(key, 4, false, ""))
    ensures forall port | port == 3 || 19 <= port <= 39 || port >= 44 ::
              Record(st, flags, key, port) == Some(Line(key, port, true, ""))
  {
    FixedGpsText();
    hide DecText, Join, FIXED_GPS_TEXT;
  }

  // fix, time, latitude, longitude and error
  const FIXED_GPS_TEXT: string := "1" + ":" + "1677863090000" + ":" + "41.261059" + ":" + "1.775043" + ":" + "3"

  lemma FixedGpsText()
    ensures Join(GpsFields(FIXED_GPS), ':') == FIXED_GPS_TEXT
  {
    assert DecText(3) == "3";
    var g := FIXED_GPS;
    JoinOfFive(Bit(g.fix), g.time.value, g.latitude, g.longitude, DecText(g.error));
  }

  lemma JoinOfFive(a: string, b: string, c: string, d: string, e: string)
    ensures Join([a, b, c, d, e], ':') == a + ":" + b + ":" + c + ":" + d + ":" + e
  {
    assert Join([d, e], ':') == d + ":" + e by { assert [d, e][1..] == [e]; }
    assert Join([c, d, e], ':') == c + ":" + Join([d, e], ':') by { assert [c, d, e][1..] == [d, e]; }
    assert Join([b, c, d, e], ':') == b + ":" + Join([c, d, e], ':') by { assert [b, c, d, e][1..] == [c, d, e]; }
    assert [a, b, c, d, e][1..] == [b, c, d, e];
  }

  predicate AllPrintable(st: Store, flags: Flags, keys: seq<Assigned>) {
    forall i | 0 <= i < |keys| :: Printable(st, flags, keys[i].port)
  }

  function Records(st: Store, flags: Flags, keys: seq<Assigned>): (rs: seq<string>)
    requires Shaped(st) && AllPrintable(st, flags, keys)
    ensures |rs| == |keys|
    ensures forall i | 0 <= i < |rs| :: Some(rs[i]) == Record(st, flags, keys[i].key, keys[i].port)
  {
    if keys == [] then []
    else
      var n := |keys| - 1;
      RecordDefined(st, flags, keys[n].key, keys[n].port);
      Records(st, flags, keys[..n]) + [Record(st, flags, keys[n].key, keys[n].port).value]
  }

  // The whole buffer.
  function WebText(st: Store, flags: Flags, keys: seq<Assigned>): string
    requires Shaped(st) && AllPrintable(st, flags, keys)
  {
    Framed(Records(st, flags, keys), '|')
  }

  // The text grows by one record and a bar for each key.
  lemma WebTextNext(st: Store, flags: Flags, keys: seq<Assigned>)
    requires Shaped(st) && AllPrintable(st, flags, keys) && keys != []
    ensures var n := |keys| - 1;
            && AllPrintable(st, flags, keys[..n]) && Record(st, flags, keys[n].key, keys[n].port).Some?
            && WebText(st, flags, keys) ==
               WebText(st, flags, keys[..n]) + Record(st, flags, keys[n].key, keys[n].port).value + "|"
  {
    hide Record, Printable, Shaped;
    var n := |keys| - 1;
    RecordDefined(st, flags, keys[n].key, keys[n].port);
    var rs := Records(st, flags, keys);
    assert rs[..n] == Records(st, flags, keys[..n]);
  }

  // GPS data is absent or the constants written after the first accepted reply.
  ghost predicate GpsKnown(st: Store) {
    st.gps.time.None? || st.gps == FIXED_GPS
  }

  lemma ParseKeepsGpsKnown(s: string, st: Store)
    requires Shaped(st) && GpsKnown(st)
    ensures GpsKnown(ParseData(s, st).store)
  {
  }

  lemma FreeConcat(a: string, b: string, d: set<char>)
    requires Free(a, d) && Free(b, d)
    ensures Free(a + b, d)
  {
  }

  lemma {:induction false} TextsProper(values: Reading)
    ensures Free(Join(Texts(values), ':'), {'|', '\0'})
  {
    hide DecText;
    forall i | 0 <= i < |values| ensures Free(Texts(values)[i], {'|', '\0'}) { DecTextProper(values[i]); }
    JoinFree(Texts(values), ':', {'|', '\0'});
  }

  lemma PayloadProper(st: Store, flags: Flags, port: nat)
    requires Shaped(st) && GpsKnown(st) && Payload(st, flags, port).Some?
    ensures Free(Payload(st, flags, port).value, {'|', '\0'})
  {
    hide Join, Texts, DecText;
    var m := FamilyOf(port);
    if m == GPS {
      DecTextProper(FIXED_GPS.error);
      JoinFree(GpsFields(FIXED_GPS), ':', {'|', '\0'});
    } else if m != 0 && Answered(flags, m) {
      IndexSchemesAgree(port);
      TextsProper(Slots(st, m)[VectorPositions(port)]);
    }
  }

  // strtok(record, ":") and atoi, stored to a uint8_t
  function RecordKey(record: string): Option<nat> {
    var r := Next(record, {':'}, 0);
    if r.None? then None else Some(ToUint8(Atoi(record[r.value.start..r.value.end])))
  }

  lemma RecordProper(st: Store, flags: Flags, a: Assigned, r: string)
    requires Shaped(st) && GpsKnown(st) && a.key < 256 && Record(st, flags, a.key, a.port) == Some(r)
    ensures r != [] && Free(r, {'|', '\0'}) && RecordKey(r) == Some(a.key)
  {
    hide DecText, Payload, Next, Atoi, ToUint8, Tokens, Count;
    var k, p, payload := DecText(a.key), DecText(a.port), Payload(st, flags, a.port).value;
    DecTextProper(a.key);
    DecTextProper(a.port);
    PayloadProper(st, flags, a.port);
    var rest := p + ":" + payload;
    assert r == k + [':'] + rest;
    FreeConcat(p + ":", payload, {'|', '\0'});
    FreeConcat(k + [':'], rest, {'|', '\0'});
    ConsToken(k, ':', rest, {':'});
    assert r[0..|k|] == k;
    AtoiOfDecText(a.key, []);
  }

  // Every record fits the 100-byte buffer endpoint_discriminator copies it to.
  lemma RecordFits(st: Store, flags: Flags, a: Assigned, r: string)
    requires Shaped(st) && GpsKnown(st) && a.key < 256 && a.port < 256 && Record(st, flags, a.key, a.port) == Some(r)
    ensures |r| < 100
  {
    hide DecText, Join, Texts;
    DecTextShort(a.key, 3);
    DecTextShort(a.port, 3);
    var m := FamilyOf(a.port);
    if m == GPS {
      DecTextShort(FIXED_GPS.error, 1);
      JoinLength(GpsFields(FIXED_GPS), ':', 13);
    } else if m != 0 && Answered(flags, m) {
      IndexSchemesAgree(a.port);
      var reading := Slots(st, m)[VectorPositions(a.port)];
      forall k | 0 <= k < |reading| ensures |Texts(reading)[k]| <= 11 { DecTextFitsScratch(reading[k]); }
      JoinLength(Texts(reading), ':', 11);
    }
  }

  // Print/parse round trip of the web buffer: splitting it on "|" yields one record per loaded
  // key, in key order, and each record's first ":" token reads back as its key.
  lemma WebRoundTrip(st: Store, flags: Flags, keys: seq<Assigned>)
    requires Shaped(st) && GpsKnown(st) && Loaded(keys) && AllPrintable(st, flags, keys)
    ensures Tokens(WebText(st, flags, keys), {'|'}) == Records(st, flags, keys)
    ensures forall i | 0 <= i < |keys| :: RecordKey(Records(st, flags, keys)[i]) == Some(keys[i].key)
  {
    hide Tokens, RecordKey, Framed, Printable, Record;
    var rs := Records(st, flags, keys);
    forall i | 0 <= i < |keys| ensures rs[i] != [] && Free(rs[i], {'|'}) && RecordKey(rs[i]) == Some(keys[i].key) {
      RecordProper(st, flags, keys[i], rs[i]);
    }
    TokensOfFramed(rs, '|');
  }

  // ---- End to end -------------------------------------------------------------

  // The record the web buffer shows for a reading of the given port.
  function Shown(key: nat, port: nat, reading: Reading): string {
    DecText(key) + ":" + DecText(port) + ":" + FieldOf(reading)
  }

  lemma SlotsSized(st: Store, m: int)
    requires Shaped(st) && m in {TEMPERATURE, LIQUID, ANALOG, DIGITAL_OUTPUT, FAN}
    ensures ShapedSlots(Slots(st, m), m)
  {
  }

  lemma SlotsAfter(st: Store, m: int, slots: seq<Reading>, other: int)
    requires IsScalar(m) || IsTuple(m)
    ensures Slots(WithSlots(st, m, slots).(gps := FIXED_GPS), m) == slots
    ensures other != m ==> Slots(WithSlots(st, m, slots).(gps := FIXED_GPS), other) == Slots(st, other)
  {
  }

  // After a reply that fits its buffer, whatever port range it announces, the web buffer shows
  // for the i-th port of the module the i-th reading, or the old slot where there is none.
  lemma ReplyShown(st: Store, flags: Flags, m: int, portMin: nat, portMax: nat, readings: seq<Reading>,
                   key: nat, i: nat)
    requires Shaped(st) && m in {TEMPERATURE, LIQUID, ANALOG, DIGITAL_OUTPUT, FAN} && ReadingsFor(m, readings)
    requires portMax == portMin + |readings| - 1 < 255 && i < Capacity(m) && Answered(flags, m)
    requires |Frame(portMin, portMax, m, readings)| < PAYLOAD_SIZE
    ensures var p := ParseData(Frame(portMin, portMax, m, readings), st);
            && p.status == EspOk && Shaped(p.store) && |Slots(st, m)| == Capacity(m)
            && Record(p.store, flags, key, Base(m) + i) ==
               Some(Shown(key, Base(m) + i, if i < |readings| then readings[i] else Slots(st, m)[i]))
  {
    hide ParseData, Frame, Join, Texts, DecText, WithSlots, Shaped;
    var s := Frame(portMin, portMax, m, readings);
    ParseDataFrame(s, st, st);
    ParseOfFrame(st, portMin, portMax, m, readings);
    SlotsSized(st, m);
    SlotsAfter(st, m, Overwrite(Slots(st, m), readings), m);
    FamilyOfSlot(m, i);
    IndexSchemesAgree(Base(m) + i);
  }

  // End to end: with the announced range starting at the module's first port, every loaded key
  // whose port lies in that range gets exactly the values sent for that port.
  lemma EndToEnd(st: Store, flags: Flags, m: int, readings: seq<Reading>, key: nat, port: nat)
    requires Shaped(st) && m in {TEMPERATURE, LIQUID, ANALOG, DIGITAL_OUTPUT, FAN} && ReadingsFor(m, readings)
    requires Base(m) <= port < Base(m) + |readings| && Answered(flags, m)
    requires |Frame(Base(m), Base(m) + |readings| - 1, m, readings)| < PAYLOAD_SIZE
    ensures var p := ParseData(Frame(Base(m), Base(m) + |readings| - 1, m, readings), st);
            && p.status == EspOk && Shaped(p.store)
            && Record(p.store, flags, key, port) == Some(Shown(key, port, readings[port - Base(m)]))
  {
    hide ParseData, Frame, Record, Shown, Shaped;
    ReplyShown(st, flags, m, Base(m), Base(m) + |readings| - 1, readings, key, port - Base(m));
  }

  // A reply changes the records of its own module's ports and of the GPS port only.
  lemma OtherPortsUnchanged(st: Store, flags: Flags, m: int, portMin: nat, portMax: nat, readings: seq<Reading>,
                            key: nat, port: nat)
    requires Shaped(st) && m in {TEMPERATURE, LIQUID, ANALOG, DIGITAL_OUTPUT, FAN} && ReadingsFor(m, readings)
    requires portMax == portMin + |readings| - 1 < 255 && |Frame(portMin, portMax, m, readings)| < PAYLOAD_SIZE
    requires FamilyOf(port) != m && port != 18
    ensures var p := ParseData(Frame(portMin, portMax, m, readings), st);
            Shaped(p.store) && Record(p.store, flags, key, port) == Record(st, flags, key, port)
  {
    hide ParseData, Frame, Join, Texts, DecText, WithSlots, Shaped, VectorPositions;
    var s := Frame(portMin, portMax, m, readings);
    ParseDataFrame(s, st, st);
    ParseOfFrame(st, portMin, portMax, m, readings);
    SlotsSized(st, m);
    SlotsAfter(st, m, Overwrite(Slots(st, m), readings), FamilyOf(port));
    if FamilyOf(port) != 0 { IndexSchemesAgree(port); }
  }

  function Zeros(m: int): (slots: seq<Reading>)
    ensures ShapedSlots(slots, m) && forall i | 0 <= i < |slots| :: slots[i] == Constant(Arity(m), 0)
  {
    seq(Capacity(m), _ => Constant(Arity(m), 0))
  }

  // The arrays as they are at boot
  function BootStore(): (st: Store)
    ensures Shaped(st) && GpsKnown(st)
  {
    Store(Zeros(TEMPERATURE), Zeros(DIGITAL_INPUT), Zeros(LIQUID), Zeros(INCLINATION), Zeros(ANALOG),
          Zeros(DIGITAL_OUTPUT), Zeros(FAN), Gps(false, None, "0.000000", "0.000000", 0))
  }

  lemma ShownDiffers(key: nat, port: nat, arity: nat)
    requires arity >= 1
    ensures Shown(key, port, Constant(arity, 0)) != Shown(key, port, Constant(arity, 1))
  {
    var pre := DecText(key) + ":" + DecText(port) + ":";
    assert DecText(0) == "0" && DecText(1) == "1";
    assert FieldOf(Constant(arity, 0))[0] == '0' && FieldOf(Constant(arity, 1))[0] == '1';
    assert Shown(key, port, Constant(arity, 0))[|pre|] == '0' && Shown(key, port, Constant(arity, 1))[|pre|] == '1';
  }

  // All zeros but for ones in reading w
  function Marked(m: int, n: nat, w: nat): (readings: seq<Reading>)
    ensures |readings| == n
    ensures forall i | 0 <= i < n :: readings[i] == Constant(Arity(m), if i == w then 1 else 0)
  {
    seq(n, i => Constant(Arity(m), if i == w then 1 else 0))
  }

  lemma MarkedReadings(m: int, n: nat, w: nat)
    requires 1 <= n <= Capacity(m)
    ensures ReadingsFor(m, Marked(m, n, w))
    ensures forall i, k | 0 <= i < n && 0 <= k < Arity(m) :: 0 <= Marked(m, n, w)[i][k] < 10
  {
  }

  // The announced first port matters: a reply that starts at any other port but meets a port of
  // the module can show something else there. The witness: after boot, the reading for that port
  // is all ones and the others are zeros; the reply is accepted, and the port shows zeros.
  lemma MisalignedReply(m: nat, portMin: nat, n: nat, port: nat, key: nat) returns (readings: seq<Reading>)
    requires m in {TEMPERATURE, LIQUID, ANALOG, DIGITAL_OUTPUT, FAN} && 1 <= n <= Capacity(m)
    requires portMin != Base(m) && portMin <= port < portMin + n && FamilyOf(port) == m
    ensures ReadingsFor(m, readings) && |readings| == n
    ensures forall flags: Flags | Answered(flags, m) ::
              var p := ParseData(Frame(portMin, portMin + n - 1, m, readings), BootStore());
              && p.status == EspOk && Shaped(p.store)
              && Record(p.store, flags, key, port).Some?
              && Record(p.store, flags, key, port) != Some(Shown(key, port, readings[port - portMin]))
  {
    hide ParseData, Frame, Record, Shown, Shaped, BootStore, ReadingsFor, Slots;
    readings := Marked(m, n, port - portMin);
    MarkedReadings(m, n, port - portMin);
    var i := port - Base(m);
    IndexSchemesAgree(port);
    SmallReplyFits(m, portMin, portMin + n - 1, readings);
    forall flags: Flags | Answered(flags, m)
      ensures var p := ParseData(Frame(portMin, portMin + n - 1, m, readings), BootStore());
              && p.status == EspOk && Shaped(p.store)
              && Record(p.store, flags, key, port) == Some(Shown(key, port, Constant(Arity(m), 0)))
    {
      BootSlots(m);
      ReplyShown(BootStore(), flags, m, portMin, portMin + n - 1, readings, key, i);
    }
    ShownDiffers(key, port, Arity(m));
  }

  // After the reply, which must have been accepted, the record of the given port shows the
  // reading sent for it.
  ghost predicate Delivered(m: nat, portMin: nat, readings: seq<Reading>, st: Store, flags: Flags, key: nat, port: nat)
    requires Shaped(st) && portMin <= port < portMin + |readings|
  {
    var p := ParseData(Frame(portMin, portMin + |readings| - 1, m, readings), st);
    && p.status == EspOk && Shaped(p.store)
    && Record(p.store, flags, key, port) == Some(Shown(key, port, readings[port - portMin]))
  }

  // A reply for n ports from portMin delivers: whatever the arrays held and whatever the readings,
  // any number of them, every port of the module in the announced range shows the reading sent for it.
  ghost predicate Delivers(m: nat, portMin: nat, n: nat) {
    forall st: Store, flags: Flags, readings: seq<Reading>, key: nat, port: nat |
      Shaped(st) && Answered(flags, m) && ReadingsOf(m, readings) && |readings| == n
      && portMin <= port < portMin + n && FamilyOf(port) == m ::
      Delivered(m, portMin, readings, st, flags, key, port)
  }

  // That is so exactly when the announced range meets no port of the module, or starts at its
  // first port and is short enough for every such reply to fit the payload buffer and the array.
  lemma DeliversIff(m: nat, portMin: nat, n: nat)
    requires m in {TEMPERATURE, LIQUID, ANALOG, DIGITAL_OUTPUT, FAN} && 1 <= n
    ensures Delivers(m, portMin, n) <==>
              || portMin + n <= Base(m) || Base(m) + Capacity(m) <= portMin
              || (portMin == Base(m) && n <= ReplyLimit(m))
  {
    hide ParseData, Frame, Record, Shown, Shaped, BootStore, ReadingsFor, ReadingsOf, Delivers;
    if portMin + n <= Base(m) || Base(m) + Capacity(m) <= portMin {
      NothingToDeliver(m, portMin, n);
    } else {
      var port := if portMin < Base(m) then Base(m) else portMin;
      FamilyOfSlot(m, port - Base(m));
      if n > Capacity(m) {
        OverfullDelivers(m, portMin, n, port);
      } else if portMin != Base(m) {
        var readings := MisalignedReply(m, portMin, n, port, 0);
        AnyNumber(m, readings);
        NotDelivered(m, portMin, n, readings, port);
      } else if n <= ReplyLimit(m) {
        BaseDelivers(m, n);
      } else {
        LongReply(m, n);
        AnyNumber(m, Longest(m, n));
        Overflows(m, n);
        NotDelivered(m, portMin, n, Longest(m, n), portMin);
      }
    }
  }

  lemma AnyNumber(m: int, readings: seq<Reading>)
    requires ReadingsFor(m, readings)
    ensures ReadingsOf(m, readings)
  {
  }

  lemma OverfullDelivers(m: nat, portMin: nat, n: nat, port: nat)
    requires m in {TEMPERATURE, LIQUID, ANALOG, DIGITAL_OUTPUT, FAN} && n > Capacity(m)
    requires portMin <= port < portMin + n && FamilyOf(port) == m
    ensures !Delivers(m, portMin, n)
  {
    hide ParseData, Frame, Record, Shown, Shaped, BootStore, Delivers;
    var readings := Longest(m, n);
    var st := BootStore();
    IndexSchemesAgree(port);
    OverfullReply(m, portMin, readings, st);
    NotDelivered(m, portMin, n, readings, port);
  }

  lemma NothingToDeliver(m: nat, portMin: nat, n: nat)
    requires m in {TEMPERATURE, LIQUID, ANALOG, DIGITAL_OUTPUT, FAN}
    requires portMin + n <= Base(m) || Base(m) + Capacity(m) <= portMin
    ensures Delivers(m, portMin, n)
  {
    hide Delivered, Shaped, ReadingsOf;
    forall port: nat | portMin <= port < portMin + n ensures FamilyOf(port) != m {
      if FamilyOf(port) == m { IndexSchemesAgree(port); }
    }
  }

  lemma Overflows(m: nat, n: nat)
    requires m in {LIQUID, ANALOG} && ReplyLimit(m) < n <= Capacity(m)
    ensures ParseData(Frame(Base(m), Base(m) + n - 1, m, Longest(m, n)), BootStore()).status == UndefinedBehaviour
  {
    hide Frame, BootStore;
    LongReply(m, n);
  }

  lemma BaseDelivers(m: nat, n: nat)
    requires m in {TEMPERATURE, LIQUID, ANALOG, DIGITAL_OUTPUT, FAN} && 1 <= n <= ReplyLimit(m)
    ensures Delivers(m, Base(m), n)
  {
    hide ParseData, Frame, Record, Shown, Shaped, ReadingsOf;
    forall st: Store, flags: Flags, readings: seq<Reading>, key: nat, port: nat |
      Shaped(st) && Answered(flags, m) && ReadingsOf(m, readings) && |readings| == n
      && Base(m) <= port < Base(m) + n && FamilyOf(port) == m
      ensures Delivered(m, Base(m), readings, st, flags, key, port)
    {
      ReplyFits(m, readings);
      EndToEnd(st, flags, m, readings, key, port);
    }
  }

  lemma NotDelivered(m: nat, portMin: nat, n: nat, readings: seq<Reading>, port: nat)
    requires m in {TEMPERATURE, LIQUID, ANALOG, DIGITAL_OUTPUT, FAN} && FamilyOf(port) == m
    requires ReadingsOf(m, readings) && |readings| == n && portMin <= port < portMin + n
    requires forall flags: Flags | Answered(flags, m) ::
               var p := ParseData(Frame(portMin, portMin + n - 1, m, readings), BootStore());
               p.status == EspOk ==>
                 Shaped(p.store) && Record(p.store, flags, 0, port) != Some(Shown(0, port, readings[port - portMin]))
    ensures !Delivers(m, portMin, n)
  {
    hide ParseData, Frame, Record, Shown, Shaped, BootStore, ReadingsOf;
    var all := Flags(true, true, true, true, true, true, true, true);
    assert Answered(all, m) && !Delivered(m, portMin, readings, BootStore(), all, 0, port);
  }

  lemma BootSlots(m: int)
    requires m in {TEMPERATURE, LIQUID, ANALOG, DIGITAL_OUTPUT, FAN}
    ensures Slots(BootStore(), m) == Zeros(m)
  {
  }
}
