// Which registered keys never outgrow the 400-byte web buffer and the 100-byte endpoint strings
// (main/serial_controller.h:375-462, 544-674, 913-917).
module BufferBounds {
  import opened DecimalText
  import opened Tokenizing
  import opened Sensors
  import opened Frames
  import opened WebBuffer
  import opened Endpoints
  import opened Cycles

  // ---- The longest records --------------------------------------------------------

  // The longest payload the port's branch can append
  function PayloadWidth(flags: Flags, port: nat): nat {
    var m := FamilyOf(port);
    if m == 0 then 0
    else if !Answered(flags, m) then 1
    else if m == GPS then |Join(GpsFields(FIXED_GPS), ':')|
    else 12 * Arity(m) - 1
  }

  // The longest record of a key
  function RecordWidth(flags: Flags, a: Assigned): nat {
    |DecText(a.key)| + |DecText(a.port)| + 2 + PayloadWidth(flags, a.port)
  }

  // The longest web buffer
  function WebWidth(flags: Flags, keys: seq<Assigned>): nat {
    if keys == [] then 1
    else
      var n := |keys| - 1;
      WebWidth(flags, keys[..n]) + RecordWidth(flags, keys[n]) + 1
  }

  // The longest string of endpoint g
  function EndpointWidth(flags: Flags, keys: seq<Assigned>, g: nat): nat {
    if keys == [] then 1
    else
      var n := |keys| - 1;
      EndpointWidth(flags, keys[..n], g) + if GroupOf(keys[n].key) == g then RecordWidth(flags, keys[n]) + 1 else 0
  }

  // The store in which every value is the longest one
  function LongestSlots(m: int): (slots: seq<Reading>)
    ensures ShapedSlots(slots, m) && forall i | 0 <= i < |slots| :: slots[i] == Constant(Arity(m), INT32_MIN)
  {
    seq(Capacity(m), _ => Constant(Arity(m), INT32_MIN))
  }

  function LongestStore(): (st: Store)
    ensures Shaped(st) && st.gps == FIXED_GPS
  {
    Store(LongestSlots(TEMPERATURE), LongestSlots(DIGITAL_INPUT), LongestSlots(LIQUID), LongestSlots(INCLINATION),
          LongestSlots(ANALOG), LongestSlots(DIGITAL_OUTPUT), LongestSlots(FAN), FIXED_GPS)
  }

  // A store after the first accepted reply
  ghost predicate Filled(st: Store) {
    Shaped(st) && st.gps == FIXED_GPS
  }

  lemma LongestFilled()
    ensures Filled(LongestStore())
  {
    hide LongestStore, Shaped;
    var st := LongestStore();
  }

  lemma PayloadWithin(st: Store, flags: Flags, port: nat)
    requires Filled(st) && Payload(st, flags, port).Some?
    ensures |Payload(st, flags, port).value| <= PayloadWidth(flags, port)
  {
    hide DecText, Join, Texts;
    var m := FamilyOf(port);
    if m != 0 && m != GPS && Answered(flags, m) {
      IndexSchemesAgree(port);
      ReadingWithin(Slots(st, m)[VectorPositions(port)]);
    }
  }

  lemma ReadingWithin(r: Reading)
    requires r != [] && forall k | 0 <= k < |r| :: IsInt32(r[k])
    ensures |Join(Texts(r), ':')| <= 12 * |r| - 1
  {
    hide DecText, Join;
    forall k | 0 <= k < |r| ensures |Texts(r)[k]| <= 11 { DecTextFitsScratch(r[k]); }
    JoinBelow(Texts(r), ':', 11);
  }

  lemma {:induction false} JoinBelow(ts: seq<string>, c: char, n: nat)
    requires ts != [] && forall i | 0 <= i < |ts| :: |ts[i]| <= n
    ensures |Join(ts, c)| <= |ts| * (n + 1) - 1
  {
    if |ts| == 1 {
    } else {
      JoinBelow(ts[1..], c, n);
    }
  }

  lemma PayloadReached(flags: Flags, port: nat)
    requires Payload(LongestStore(), flags, port).Some?
    ensures |Payload(LongestStore(), flags, port).value| == PayloadWidth(flags, port)
  {
    hide DecText, Join, Texts, LongestStore;
    var m := FamilyOf(port);
    if m != 0 && m != GPS && Answered(flags, m) {
      IndexSchemesAgree(port);
      LongestSlot(m, VectorPositions(port));
      LongestReading(Arity(m));
    }
  }

  lemma LongestSlot(m: int, i: nat)
    requires m in {TEMPERATURE, DIGITAL_INPUT, LIQUID, INCLINATION, ANALOG, DIGITAL_OUTPUT, FAN} && i < Capacity(m)
    ensures |Slots(LongestStore(), m)| == Capacity(m) && Slots(LongestStore(), m)[i] == Constant(Arity(m), INT32_MIN)
  {
  }

  lemma LongestReading(arity: nat)
    requires arity >= 1
    ensures |Join(Texts(Constant(arity, INT32_MIN)), ':')| == 12 * arity - 1
  {
    hide DecText, Join;
    DecTextLongest();
    JoinLengthIs(Texts(Constant(arity, INT32_MIN)), ':', 11);
  }

  lemma RecordWithin(st: Store, flags: Flags, a: Assigned, r: string)
    requires Filled(st) && Record(st, flags, a.key, a.port) == Some(r)
    ensures |r| <= RecordWidth(flags, a) && (st == LongestStore() ==> |r| == RecordWidth(flags, a))
  {
    hide DecText, Payload, PayloadWidth, LongestStore, Shaped;
    PayloadWithin(st, flags, a.port);
    if st == LongestStore() { PayloadReached(flags, a.port); }
  }

  // ---- The longest texts ------------------------------------------------------------

  lemma {:induction false} TextsWithin(st: Store, flags: Flags, keys: seq<Assigned>, g: nat)
    requires Filled(st) && Loaded(keys) && AllPrintable(st, flags, keys)
    ensures |WebText(st, flags, keys)| <= WebWidth(flags, keys)
    ensures |EndpointText(Records(st, flags, keys), g)| <= EndpointWidth(flags, keys, g)
    ensures st == LongestStore() ==>
              && |WebText(st, flags, keys)| == WebWidth(flags, keys)
              && |EndpointText(Records(st, flags, keys), g)| == EndpointWidth(flags, keys, g)
  {
    hide Record, Printable, Shaped, LongestStore, RecordWidth, GroupOf, RecordKey, EndpointText, WebText;
    if keys == [] {
      NoTexts(st, flags, g);
    } else {
      var n := |keys| - 1;
      WebTextNext(st, flags, keys);
      var r := Record(st, flags, keys[n].key, keys[n].port).value;
      TextsWithin(st, flags, keys[..n], g);
      RecordWithin(st, flags, keys[n], r);
      RecordProper(st, flags, keys[n], r);
      SelectedNext(Records(st, flags, keys[..n]), r, g);
      assert Records(st, flags, keys) == Records(st, flags, keys[..n]) + [r];
    }
  }

  lemma NoTexts(st: Store, flags: Flags, g: nat)
    requires Shaped(st)
    ensures WebText(st, flags, []) == "|" && EndpointText([], g) == "|" && Records(st, flags, []) == []
  {
    hide Shaped;
  }

  // ---- The registries that always fit -------------------------------------------------

  // Whatever the slots hold, the rebuild is defined and every text fits its buffer.
  ghost predicate AlwaysFits(flags: Flags, keys: seq<Assigned>) {
    forall st: Store | Filled(st) :: Publishable(st, flags, keys)
  }

  // No key is on the digital input's port once that module answered.
  predicate NoDigitalInput(flags: Flags, keys: seq<Assigned>) {
    forall i | 0 <= i < |keys| :: !(keys[i].port == 4 && flags.digitalInput)
  }

  // The longest record of every key taken together
  ghost predicate HasRoom(flags: Flags, keys: seq<Assigned>) {
    && NoDigitalInput(flags, keys) && WebWidth(flags, keys) < 400
    && forall g: nat | g < 9 :: EndpointWidth(flags, keys, g) < 100
  }

  // That is so exactly when the longest record of each key leaves room for all of them.
  lemma AlwaysFitsIff(flags: Flags, keys: seq<Assigned>)
    requires Loaded(keys)
    ensures AlwaysFits(flags, keys) <==> HasRoom(flags, keys)
    ensures AlwaysFits(flags, keys) <==> Publishable(LongestStore(), flags, keys)
  {
    hide Shaped, Publishable, LongestStore, HasRoom;
    LongestFilled();
    FitsIff(LongestStore(), flags, keys);
    if Publishable(LongestStore(), flags, keys) {
      forall st: Store | Filled(st) ensures Publishable(st, flags, keys) { FitsIff(st, flags, keys); }
    }
  }

  lemma PrintableIff(st: Store, flags: Flags, keys: seq<Assigned>)
    requires Filled(st)
    ensures AllPrintable(st, flags, keys) <==> NoDigitalInput(flags, keys)
  {
    hide Shaped;
  }

  lemma FitsIff(st: Store, flags: Flags, keys: seq<Assigned>)
    requires Filled(st) && Loaded(keys)
    ensures HasRoom(flags, keys) ==> Publishable(st, flags, keys)
    ensures st == LongestStore() && Publishable(st, flags, keys) ==> HasRoom(flags, keys)
  {
    hide Shaped, LongestStore, WebWidth, EndpointWidth, WebText, EndpointText, Records, AllPrintable, NoDigitalInput;
    PrintableIff(st, flags, keys);
    if AllPrintable(st, flags, keys) {
      var records := Records(st, flags, keys);
      TextsWithin(st, flags, keys, 0);
      if HasRoom(flags, keys) {
        forall g | 0 <= g < 9 ensures |EndpointText(records, g)| < 100 { TextsWithin(st, flags, keys, g); }
      } else if st == LongestStore() && AllFit(records) {
        forall g: nat | g < 9 ensures EndpointWidth(flags, keys, g) < 100 {
          assert |EndpointText(records, g)| < 100;
          TextsWithin(st, flags, keys, g);
        }
      }
    }
  }

  // ---- Analog keys ----------------------------------------------------------------------

  function AnalogKeys(keys: seq<Assigned>, g: nat): nat {
    if keys == [] then 0
    else
      var n := |keys| - 1;
      AnalogKeys(keys[..n], g) + if GroupOf(keys[n].key) == g && FamilyOf(keys[n].port) == ANALOG then 1 else 0
  }

  lemma {:induction false} AnalogWidth(flags: Flags, keys: seq<Assigned>, g: nat)
    requires flags.analog
    ensures EndpointWidth(flags, keys, g) >= 1 + 29 * AnalogKeys(keys, g)
  {
    hide DecText, GroupOf;
    if keys == [] {
    } else {
      var n := |keys| - 1;
      AnalogWidth(flags, keys[..n], g);
      NumberLength(keys[n].key);
      NumberLength(keys[n].port);
    }
  }

  // Four analog keys in one endpoint are too many: once the module has answered, there are values
  // for which the rebuild overflows.
  lemma FourAnalogKeysOverflow(flags: Flags, keys: seq<Assigned>, g: nat)
    requires Loaded(keys) && flags.analog && g < 9 && AnalogKeys(keys, g) >= 4
    ensures !AlwaysFits(flags, keys) && !Publishable(LongestStore(), flags, keys)
  {
    hide AlwaysFits, Publishable, LongestStore, WebWidth, EndpointWidth, NoDigitalInput, AnalogKeys;
    AnalogWidth(flags, keys, g);
    AlwaysFitsIff(flags, keys);
  }

  // The keys matricular_llaves registers, in the order they are loaded; the last four are the
  // accelerator's, all analog and all in the engine's endpoint.
  const FIRST_KEYS: seq<Assigned> := [
    Assigned(1, 10), Assigned(2, 0), Assigned(7, 11), Assigned(8, 40), Assigned(10, 41), Assigned(18, 1),
    Assigned(26, 16), Assigned(33, 6), Assigned(34, 7), Assigned(35, 8), Assigned(46, 42), Assigned(47, 43),
    Assigned(82, 17), Assigned(88, 9), Assigned(119, 18), Assigned(129, 4)
  ]
  const DEFAULT_KEYS: seq<Assigned> :=
    FIRST_KEYS + [Assigned(130, 12)] + [Assigned(131, 13)] + [Assigned(132, 14)] + [Assigned(133, 15)]

  // So the default registration is one that can overflow.
  lemma DefaultKeysOverflow(flags: Flags)
    requires flags.analog
    ensures !AlwaysFits(flags, DEFAULT_KEYS)
  {
    hide AlwaysFits, FIRST_KEYS, AnalogKeys;
    var k1 := FIRST_KEYS + [Assigned(130, 12)];
    var k2 := k1 + [Assigned(131, 13)];
    var k3 := k2 + [Assigned(132, 14)];
    AnalogNext(FIRST_KEYS, Assigned(130, 12), 5);
    AnalogNext(k1, Assigned(131, 13), 5);
    AnalogNext(k2, Assigned(132, 14), 5);
    AnalogNext(k3, Assigned(133, 15), 5);
    DefaultsLoaded();
    FourAnalogKeysOverflow(flags, DEFAULT_KEYS, 5);
  }

  lemma DefaultsLoaded()
    ensures Loaded(DEFAULT_KEYS)
  {
  }

  lemma AnalogNext(keys: seq<Assigned>, a: Assigned, g: nat)
    requires GroupOf(a.key) == g && FamilyOf(a.port) == ANALOG
    ensures AnalogKeys(keys + [a], g) == AnalogKeys(keys, g) + 1
  {
    assert (keys + [a])[..|keys|] == keys;
  }
}
