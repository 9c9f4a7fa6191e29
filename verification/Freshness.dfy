// What the replies of one cycle leave in the sensor arrays and in the records: which module a
// reply writes to, which reply a slot comes from, and when a record shows the cycle's own data
// (main/serial_controller.h:694-908, 919-1010).
module Freshness {
  import opened DecimalText
  import opened Tokenizing
  import opened Sensors
  import opened Frames
  import opened WebBuffer
  import opened Cycles

  // The module a reply announces; 0 for a text that is no reply
  function CodeOf(text: string): nat {
    if ParseHeader(text).Parsed? then ParseHeader(text).header.code else 0
  }

  // The readings a reply carries for its array
  function Stored(text: string): seq<Reading> {
    if !ParseHeader(text).Parsed? then []
    else
      var h := ParseHeader(text).header;
      var fields := Tokens(h.data, {','});
      var n := PortCount(h.portMin, h.portMax);
      if n > |fields| then []
      else if IsScalar(h.code) then Scalars(fields, n)
      else if IsTuple(h.code) then Tuples(fields, Arity(h.code), n)
      else []
  }

  ghost predicate IsArrayModule(m: int) {
    m in {TEMPERATURE, DIGITAL_INPUT, LIQUID, ANALOG, DIGITAL_OUTPUT, FAN}
  }

  // An accepted reply writes its readings over the front of its own module's array, and to no
  // other array.
  lemma AcceptedSlots(text: string, st: Store, m: int)
    requires Shaped(st) && ParseData(text, st).status == EspOk && IsArrayModule(m)
    ensures |Slots(st, m)| == Capacity(m)
    ensures CodeOf(text) == m ==> 1 <= |Stored(text)| <= Capacity(m)
    ensures Slots(ParseData(text, st).store, m) ==
            if CodeOf(text) == m then Overwrite(Slots(st, m), Stored(text)) else Slots(st, m)
  {
    hide ParseHeader, Tokens, Count, Scalars, Tuples, AllHaveValues, Overwrite, Shaped, WithSlots, ToUint8;
    var h := ParseHeader(text).header;
    ArraySized(st, m);
    Accepted(h, st);
    if IsArrayModule(h.code) {
      var front := Stored(text);
      ArraySized(st, h.code);
      WithSlotsOther(st, h.code, Overwrite(Slots(st, h.code), front), m);
    }
  }

  // The readings of an accepted reply are the numbers of its fields, one a port: the whole field,
  // or the first of the values it is split into at ':'.
  lemma StoredFields(text: string, i: nat, k: nat)
    requires Accepts(Some(text)) && IsArrayModule(CodeOf(text)) && i < |Stored(text)|
    ensures var h := ParseHeader(text).header;
            var fields, arity := Fields(h.data, {','}), Arity(CodeOf(text));
            && h.portMin <= h.portMax && |Stored(text)| == |fields| == h.portMax - h.portMin + 1
            && |Stored(text)[i]| == arity
            && (arity == 1 ==> Stored(text)[i] == [Atoi(fields[i])])
            && (arity > 1 && k < arity ==>
                  k < |Tokens(fields[i], {':'})| && Stored(text)[i][k] == Atoi(Tokens(fields[i], {':'})[k]))
  {
    hide ParseHeader, Tokens, Fields, Count, BootStore, Shaped, Storable, Accept, Scalars, Tuples, Atoi, Accepts;
    BootShaped();
    AcceptsMeans(text, BootStore());
    StatusIff(text, BootStore());
    var h := ParseHeader(text).header;
    FieldsStored(h, i, k);
  }

  lemma FieldsStored(h: Header, i: nat, k: nat)
    requires IsArrayModule(h.code) && !WrongCount(h) && Storable(h) && i <= h.portMax - h.portMin
    ensures var fields, n := Fields(h.data, {','}), PortCount(h.portMin, h.portMax);
            && Tokens(h.data, {','}) == fields && |fields| == n == h.portMax - h.portMin + 1
            && (IsScalar(h.code) ==> Arity(h.code) == 1 && Scalars(fields, n)[i] == [Atoi(fields[i])])
            && (IsTuple(h.code) ==>
                  Arity(h.code) > 1 && |Tuples(fields, Arity(h.code), n)[i]| == Arity(h.code)
                  && (k < Arity(h.code) ==>
                        k < |Tokens(fields[i], {':'})|
                        && Tuples(fields, Arity(h.code), n)[i][k] == Atoi(Tokens(fields[i], {':'})[k])))
  {
    hide Tokens, Fields, Count, Values, Tuples, Atoi;
    TokenCount(h.data, {','});
    CountIsFields(h.data);
    if IsTuple(h.code) {
      TuplesAre(Fields(h.data, {','}), Arity(h.code), PortCount(h.portMin, h.portMax), i);
    }
  }

  lemma CountIsFields(s: string)
    ensures |Fields(s, {','})| == Count(s, {','}) + 1
  {
    FieldCount(s, {','}, 0);
  }

  lemma {:induction false} TuplesAre(fields: seq<string>, arity: nat, n: nat, i: nat)
    requires i < n <= |fields| && HasValues(fields[i], arity)
    ensures |Tuples(fields, arity, n)[i]| == arity
    ensures forall k | 0 <= k < arity :: Tuples(fields, arity, n)[i][k] == Atoi(Tokens(fields[i], {':'})[k])
  {
    hide Tokens, Atoi;
    if i == n - 1 {
    } else {
      TuplesAre(fields, arity, n - 1, i);
    }
  }

  lemma ArraySized(st: Store, m: int)
    requires Shaped(st) && IsArrayModule(m)
    ensures |Slots(st, m)| == Capacity(m)
  {
  }

  lemma WithSlotsOther(st: Store, m: int, slots: seq<Reading>, other: int)
    requires IsArrayModule(m) && IsArrayModule(other)
    ensures Slots(WithSlots(st, m, slots).(gps := FIXED_GPS), other) == if other == m then slots else Slots(st, other)
  {
  }

  lemma Accepted(h: Header, st: Store)
    requires Shaped(st) && Accept(h, st).status == EspOk
    ensures h.code != 0 && PortCount(h.portMin, h.portMax) >= 1
    ensures Allocates(h.portMin, h.portMax, h.code, Tokens(h.data, {','}))
    ensures Accept(h, st).store == Allocated(st, h.portMin, h.portMax, h.code, Tokens(h.data, {','}))
  {
    hide Tokens, Count, Allocates, Allocated, Shaped;
  }

  // ---- Which reply a slot comes from --------------------------------------------

  // The reply is accepted and carries a reading for slot i of module m.
  predicate Writes(reply: Option<string>, m: int, i: nat) {
    reply.Some? && Accepts(reply) && CodeOf(reply.value) == m && i < |Stored(reply.value)|
  }

  predicate Written(took: seq<Option<string>>, m: int, i: nat) {
    exists k | 0 <= k < |took| :: Writes(took[k], m, i)
  }

  // What the slot holds after the replies
  function Held(slot: Reading, took: seq<Option<string>>, m: int, i: nat): Reading {
    if took == [] then slot
    else
      var n := |took| - 1;
      if Writes(took[n], m, i) then Stored(took[n].value)[i] else Held(slot, took[..n], m, i)
  }

  lemma HeldNext(slot: Reading, took: seq<Option<string>>, reply: Option<string>, m: int, i: nat)
    ensures Held(slot, took + [reply], m, i) ==
            if Writes(reply, m, i) then Stored(reply.value)[i] else Held(slot, took, m, i)
  {
    hide Writes, Stored;
    assert (took + [reply])[..|took|] == took;
  }

  // That is, the reading of the last reply that has one, or the old one.
  lemma {:induction false} HeldMeans(slot: Reading, took: seq<Option<string>>, m: int, i: nat) returns (j: Option<nat>)
    ensures j.Some? <==> Written(took, m, i)
    ensures j.Some? ==>
              && j.value < |took| && Writes(took[j.value], m, i)
              && (forall k | j.value < k < |took| :: !Writes(took[k], m, i))
              && Held(slot, took, m, i) == Stored(took[j.value].value)[i]
    ensures j.None? ==> Held(slot, took, m, i) == slot
  {
    hide Accepts, CodeOf, Stored;
    if took == [] {
      return None;
    } else {
      var n := |took| - 1;
      if Writes(took[n], m, i) {
        return Some(n);
      }
      j := HeldMeans(slot, took[..n], m, i);
      assert took == took[..n] + [took[n]];
    }
  }

  // Each slot of each array holds what the last of the cycle's accepted replies of that module
  // carried for it, and its old value if none did, whatever the other replies were.
  lemma {:induction false} SlotsOfReplies(st: Store, took: seq<Option<string>>, m: int, i: nat)
    requires Shaped(st) && GpsKnown(st) && Replies(st, took).defined && IsArrayModule(m) && i < Capacity(m)
    ensures |Slots(st, m)| == |Slots(Replies(st, took).store, m)| == Capacity(m)
    ensures Slots(Replies(st, took).store, m)[i] == Held(Slots(st, m)[i], took, m, i)
  {
    hide ParseData, Shaped, GpsKnown, Slots, Held, Writes, Accepts, IsArrayModule;
    ArraySized(st, m);
    ArraySized(Replies(st, took).store, m);
    if took == [] {
      NothingHeld(Slots(st, m)[i], m, i);
    } else {
      var n := |took| - 1;
      var p := Replies(st, took[..n]);
      SlotsOfReplies(st, took[..n], m, i);
      HeldNext(Slots(st, m)[i], took[..n], took[n], m, i);
      assert took == took[..n] + [took[n]];
      SlotOfReply(p, took[n], RaiseOf(n), m, i);
    }
  }

  lemma NothingHeld(slot: Reading, m: int, i: nat)
    ensures Held(slot, [], m, i) == slot
  {
  }

  lemma SlotOfReply(p: Polled, reply: Option<string>, raise: (Flags, bool) -> Flags, m: int, i: nat)
    requires Shaped(p.store) && p.defined && Reply(p, reply, raise).defined && IsArrayModule(m) && i < Capacity(m)
    ensures |Slots(p.store, m)| == |Slots(Reply(p, reply, raise).store, m)| == Capacity(m)
    ensures Slots(Reply(p, reply, raise).store, m)[i] ==
            if Writes(reply, m, i) then Stored(reply.value)[i] else Slots(p.store, m)[i]
  {
    hide ParseData, Shaped, BootStore, Slots, Stored, CodeOf, IsArrayModule;
    ArraySized(p.store, m);
    if reply.Some? {
      AcceptsMeans(reply.value, p.store);
      if Accepts(reply) { AcceptedSlots(reply.value, p.store, m); }
    }
  }

  lemma AcceptsMeans(text: string, st: Store)
    requires Shaped(st)
    ensures Accepts(Some(text)) <==> ParseData(text, st).status == EspOk
    ensures ParseData(text, st).status != EspOk ==> ParseData(text, st).store == st
  {
    hide ParseData, BootStore, Shaped;
    BootShaped();
    ParseDataFrame(text, st, BootStore());
  }

  lemma BootShaped()
    ensures Shaped(BootStore()) && GpsKnown(BootStore())
  {
    hide BootStore;
    var st := BootStore();
  }

  // ---- Which module a reply writes to -------------------------------------------

  // The reply changes something in the array of m.
  ghost predicate StoresTo(text: string, m: int) {
    exists st: Store | Shaped(st) :: Slots(ParseData(text, st).store, m) != Slots(st, m)
  }

  lemma StoresToBy(text: string, m: int, st: Store)
    requires Shaped(st) && Slots(ParseData(text, st).store, m) != Slots(st, m)
    ensures StoresTo(text, m)
  {
    hide ParseData, Slots, Shaped;
  }

  // An accepted reply stores to exactly the module its text announces, whichever request it is
  // taken as the answer to.
  lemma StoresToIff(text: string, m: int)
    requires Accepts(Some(text)) && IsArrayModule(m)
    ensures StoresTo(text, m) <==> CodeOf(text) == m
  {
    hide ParseData, Stored, CodeOf, BootStore, Slots, Accepts, WithSlots, Shaped;
    if CodeOf(text) == m {
      BootShaped();
      var ones := BootStore();
      var slots := Marked(m, Capacity(m), 0);
      WithSlotsShaped(ones, m, slots);
      var marked := WithSlots(ones, m, slots);
      MarkedSlots(m, slots);
      AcceptsMeans(text, ones);
      AcceptedSlots(text, ones, m);
      AcceptsMeans(text, marked);
      AcceptedSlots(text, marked, m);
      var front := Stored(text);
      if Slots(ParseData(text, ones).store, m) != Slots(ones, m) {
        StoresToBy(text, m, ones);
      } else {
        assert front[0] == Slots(ones, m)[0];
        StoresToBy(text, m, marked);
      }
    } else {
      forall st: Store | Shaped(st) ensures Slots(ParseData(text, st).store, m) == Slots(st, m) {
        AcceptsMeans(text, st);
        AcceptedSlots(text, st, m);
      }
    }
  }

  lemma MarkedSlots(m: int, slots: seq<Reading>)
    requires IsArrayModule(m) && |slots| == Capacity(m) && slots[0] == Constant(Arity(m), 1)
    ensures Slots(WithSlots(BootStore(), m, slots), m) == slots
    ensures |Slots(BootStore(), m)| == Capacity(m) && Slots(BootStore(), m)[0] != slots[0]
  {
    assert Slots(BootStore(), m)[0][0] == 0;
  }

  // ---- Records --------------------------------------------------------------------

  // The wait whose reply raises the flag of m; no wait does for most modules.
  function FlagWait(m: int): nat {
    if m == TEMPERATURE then 0 else if m == DIGITAL_INPUT then 1 else if m == ANALOG then 2 else 3
  }

  // That wait's reply was accepted.
  predicate Raised(took: seq<Option<string>>, m: int) {
    FlagWait(m) < |took| && Accepts(took[FlagWait(m)])
  }

  function FlagsOf(took: seq<Option<string>>): Flags {
    NO_FLAGS.(temperature := |took| > 0 && Accepts(took[0]), gps := |took| > 0 && took[0].Some?,
              digitalInput := |took| > 1 && Accepts(took[1]), analog := |took| > 2 && Accepts(took[2]))
  }

  // The flags say which waits' replies were accepted, and nothing about the module they are from.
  lemma {:induction false} FlagsOfReplies(st: Store, took: seq<Option<string>>)
    requires Shaped(st) && GpsKnown(st) && |took| <= 3 && Replies(st, took).defined
    ensures Replies(st, took).flags == FlagsOf(took)
    ensures Replies(st, took).store.gps.time.Some? <==> st.gps.time.Some? || exists r <- took :: Accepts(r)
  {
    hide ParseData, Shaped, GpsKnown, Accepts;
    if took == [] {
    } else {
      var n := |took| - 1;
      FlagsOfReplies(st, took[..n]);
      ReplyGps(Replies(st, took[..n]), took[n], RaiseOf(n));
      assert took == took[..n] + [took[n]];
      NoneAccepted();
    }
  }

  lemma NoneAccepted()
    ensures !Accepts(None)
  {
  }

  function Dashed(key: nat, port: nat): string {
    DecText(key) + ":" + DecText(port) + ":" + "-"
  }

  ghost predicate IsShownModule(m: int) {
    m in {TEMPERATURE, LIQUID, ANALOG, DIGITAL_OUTPUT, FAN}
  }

  // What the record of slot i's port says after the given replies
  function Due(slot: Reading, took: seq<Option<string>>, m: int, i: nat, key: nat): string {
    if Raised(took, m) then Shown(key, Base(m) + i, Held(slot, took, m, i))
    else Dashed(key, Base(m) + i)
  }

  // Every record of every module after a cycle, exactly: a dash unless the module's own wait got
  // a reply that was accepted; otherwise the slot, from the last reply that carried it.
  lemma RecordsOfReplies(st: Store, took: seq<Option<string>>, m: int, i: nat, key: nat)
    requires Shaped(st) && GpsKnown(st) && Replies(st, took).defined && |took| == 3
    requires IsShownModule(m) && i < Capacity(m)
    ensures |Slots(st, m)| == Capacity(m)
    ensures var p := Replies(st, took);
            Record(p.store, p.flags, key, Base(m) + i) == Some(Due(Slots(st, m)[i], took, m, i, key))
  {
    hide Shaped, GpsKnown, Replies, Held, Accepts, Record, Slots;
    var p := Replies(st, took);
    SlotsOfReplies(st, took, m, i);
    FlagsOfReplies(st, took);
    RecordOfSlot(p.store, p.flags, m, i, key);
    assert Answered(p.flags, m) <==> Raised(took, m);
    assert Due(Slots(st, m)[i], took, m, i, key) ==
           if Answered(p.flags, m) then Shown(key, Base(m) + i, Slots(p.store, m)[i]) else Dashed(key, Base(m) + i) by {
      hide Shown, Dashed;
    }
  }

  lemma RecordOfSlot(st: Store, flags: Flags, m: int, i: nat, key: nat)
    requires Shaped(st) && IsShownModule(m) && i < Capacity(m)
    ensures |Slots(st, m)| == Capacity(m)
    ensures Record(st, flags, key, Base(m) + i) ==
            Some(if Answered(flags, m) then Shown(key, Base(m) + i, Slots(st, m)[i]) else Dashed(key, Base(m) + i))
  {
    hide Shaped, DecText, Join, Texts, Slots, Answered, FamilyOf, VectorPositions;
    SlotsSized(st, m);
    FamilyOfSlot(m, i);
    IndexSchemesAgree(Base(m) + i);
  }

  // The record of slot i's port shows the cycle's own data: the same reading whatever the arrays
  // held before the cycle.
  ghost predicate Fresh(took: seq<Option<string>>, m: int, i: nat, key: nat) {
    exists r: Reading | |r| == Arity(m) :: ShowsAlways(took, m, i, key, r)
  }

  ghost predicate ShowsAlways(took: seq<Option<string>>, m: int, i: nat, key: nat, r: Reading) {
    forall st: Store | Shaped(st) && GpsKnown(st) ::
      var p := Replies(st, took);
      Record(p.store, p.flags, key, Base(m) + i) == Some(Shown(key, Base(m) + i, r))
  }

  // That is so exactly when the module's own wait got a reply that was accepted, and some accepted
  // reply of the cycle, not necessarily that one, is of this module and long enough.
  lemma FreshIff(took: seq<Option<string>>, m: int, i: nat, key: nat)
    requires IsShownModule(m) && i < Capacity(m) && |took| == 3 && Replies(BootStore(), took).defined
    ensures Fresh(took, m, i, key) <==>
              Raised(took, m) && Written(took, m, i)
  {
    hide Shaped, GpsKnown, Replies, Accepts, Record, Slots, BootStore, WithSlots, Shown, Writes, Dashed, Held,
         ShowsAlways, Stored;
    if Raised(took, m) && Written(took, m, i) {
      WriterHolds(took, m, i, key);
    } else if Fresh(took, m, i, key) {
      var r: Reading :| |r| == Arity(m) && ShowsAlways(took, m, i, key, r);
      Stale(took, m, i, key, r);
    }
  }

  lemma {:induction false} DefinedWhatever(st: Store, st': Store, took: seq<Option<string>>)
    requires Shaped(st) && GpsKnown(st) && Shaped(st') && GpsKnown(st')
    ensures Replies(st, took).defined == Replies(st', took).defined
  {
    hide ParseData, Shaped, GpsKnown;
    if took == [] {
    } else {
      var n := |took| - 1;
      DefinedWhatever(st, st', took[..n]);
      if took[n].Some? {
        ParseDataFrame(took[n].value, Replies(st, took[..n]).store, Replies(st', took[..n]).store);
      }
    }
  }

  lemma StoredArity(text: string, i: nat)
    requires Accepts(Some(text)) && IsArrayModule(CodeOf(text)) && i < |Stored(text)|
    ensures |Stored(text)[i]| == Arity(CodeOf(text))
  {
    hide ParseHeader, Tokens, Count, BootStore, Shaped, HasValues;
    BootShaped();
    var h := ParseHeader(text).header;
    Accepted(h, BootStore());
    if IsTuple(h.code) { TuplesShaped(Tokens(h.data, {','}), Arity(h.code), PortCount(h.portMin, h.portMax)); }
  }

  lemma WriterHolds(took: seq<Option<string>>, m: int, i: nat, key: nat)
    requires IsShownModule(m) && i < Capacity(m) && |took| == 3 && Replies(BootStore(), took).defined
    requires Raised(took, m) && Written(took, m, i)
    ensures Fresh(took, m, i, key)
  {
    hide Shaped, GpsKnown, Replies, Accepts, Record, Slots, BootStore, Shown, Dashed, Held, Stored, CodeOf;
    var j := HeldMeans([], took, m, i);
    var r := Stored(took[j.value].value)[i];
    StoredArity(took[j.value].value, i);
    BootShaped();
    forall st: Store | Shaped(st) && GpsKnown(st)
      ensures var p := Replies(st, took);
              Record(p.store, p.flags, key, Base(m) + i) == Some(Shown(key, Base(m) + i, r))
    {
      DefinedWhatever(st, BootStore(), took);
      RecordsOfReplies(st, took, m, i, key);
      var j' := HeldMeans(Slots(st, m)[i], took, m, i);
      assert j' == j;
    }
    assert ShowsAlways(took, m, i, key, r);
  }

  lemma Stale(took: seq<Option<string>>, m: int, i: nat, key: nat, r: Reading)
    requires IsShownModule(m) && i < Capacity(m) && |took| == 3 && Replies(BootStore(), took).defined
    requires !Raised(took, m) || !Written(took, m, i)
    requires |r| == Arity(m)
    ensures !ShowsAlways(took, m, i, key, r)
  {
    hide Shaped, GpsKnown, Replies, Accepts, Record, BootStore, WithSlots, Shown, Dashed, Held, Writes, Slots, Due,
         ShowsAlways;
    BootShaped();
    var zeros := BootStore();
    if Raised(took, m) {
      var slots := Marked(m, Capacity(m), i);
      WithSlotsShaped(zeros, m, slots);
      OnesKnown(m, slots);
      BootSlots(m);
      ArraySized(zeros, m);
      ShownDiffers(key, Base(m) + i, Arity(m));
      var ones := WithSlots(zeros, m, slots);
      DefinedWhatever(ones, zeros, took);
      StaleShown(zeros, took, m, i, key);
      StaleShown(ones, took, m, i, key);
      if ShowsAlways(took, m, i, key, r) { SameShown(zeros, ones, took, m, i, key, r); }
    } else {
      DashShown(zeros, took, m, i, key, r);
    }
  }

  lemma StaleShown(st: Store, took: seq<Option<string>>, m: int, i: nat, key: nat)
    requires Shaped(st) && GpsKnown(st) && Replies(st, took).defined && |took| == 3
    requires IsShownModule(m) && i < Capacity(m) && Raised(took, m) && !Written(took, m, i)
    ensures |Slots(st, m)| == Capacity(m)
    ensures var p := Replies(st, took);
            Record(p.store, p.flags, key, Base(m) + i) == Some(Shown(key, Base(m) + i, Slots(st, m)[i]))
  {
    hide Shaped, GpsKnown, Replies, Accepts, Record, Shown, Dashed, Held, Writes, Slots;
    RecordsOfReplies(st, took, m, i, key);
    var j := HeldMeans(Slots(st, m)[i], took, m, i);
  }

  lemma SameShown(st: Store, st': Store, took: seq<Option<string>>, m: int, i: nat, key: nat, r: Reading)
    requires Shaped(st) && GpsKnown(st) && Shaped(st') && GpsKnown(st')
    requires m >= 0 && ShowsAlways(took, m, i, key, r)
    ensures var p, q := Replies(st, took), Replies(st', took);
            Record(p.store, p.flags, key, Base(m) + i) == Record(q.store, q.flags, key, Base(m) + i)
  {
    hide Shaped, GpsKnown, Replies, Record, Shown;
  }

  lemma DashShown(st: Store, took: seq<Option<string>>, m: int, i: nat, key: nat, r: Reading)
    requires Shaped(st) && GpsKnown(st) && Replies(st, took).defined && |took| == 3 && |r| == Arity(m)
    requires IsShownModule(m) && i < Capacity(m) && !Raised(took, m)
    ensures !ShowsAlways(took, m, i, key, r)
  {
    hide Shaped, GpsKnown, Replies, Accepts, Record, Shown, Dashed, Held, Slots, ShowsAlways;
    RecordsOfReplies(st, took, m, i, key);
    NeverDashed(key, Base(m) + i, r);
    if ShowsAlways(took, m, i, key, r) { AlwaysAt(st, took, m, i, key, r); }
  }

  lemma AlwaysAt(st: Store, took: seq<Option<string>>, m: int, i: nat, key: nat, r: Reading)
    requires Shaped(st) && GpsKnown(st) && m >= 0 && ShowsAlways(took, m, i, key, r)
    ensures var p := Replies(st, took);
            Record(p.store, p.flags, key, Base(m) + i) == Some(Shown(key, Base(m) + i, r))
  {
    hide Shaped, GpsKnown, Replies, Record, Shown;
  }

  lemma OnesKnown(m: int, slots: seq<Reading>)
    requires IsArrayModule(m)
    ensures GpsKnown(WithSlots(BootStore(), m, slots)) && Slots(WithSlots(BootStore(), m, slots), m) == slots
  {
  }

  lemma NeverDashed(key: nat, port: nat, r: Reading)
    requires r != []
    ensures Shown(key, port, r) != Dashed(key, port)
  {
    hide DecText;
    var pre := DecText(key) + ":" + DecText(port) + ":";
    FieldIsNoDash(r);
    assert Shown(key, port, r)[|pre|..] == FieldOf(r);
    assert Dashed(key, port)[|pre|..] == "-";
  }

  lemma FieldIsNoDash(r: Reading)
    requires r != []
    ensures FieldOf(r) != "-"
  {
    if |r| == 1 {
    } else {
      assert |FieldOf(r)| >= 2;
    }
  }
}
