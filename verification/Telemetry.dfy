// main/serial_controller.h as a class: the sensor arrays, the web buffer and the endpoint
// strings are its fields, the static functions its methods.
module Telemetry {
  import opened DecimalText
  import opened CBuffer
  import opened Tokenizing
  import opened Strtok
  import opened Sensors
  import opened Frames
  import opened WebBuffer
  import opened Endpoints
  import opened Cycles
  import opened Registry

  // port++ on a uint8_t
  function NextPort(port: nat): (r: nat)
    ensures r < 256 && (port < 255 ==> r == port + 1) && (port == 255 ==> r == 0)
  {
    (port + 1) % 256
  }

  lemma OverwriteNext(slots: seq<Reading>, front: seq<Reading>, next: Reading)
    requires |front| < |slots|
    ensures Overwrite(slots, front)[|front| := next] == Overwrite(slots, front + [next])
  {
  }

  // The state of `while(port <= port_max)` after i turns
  ghost predicate Counting(portMin: nat, portMax: nat, port: nat, i: nat) {
    && port < 256
    && (portMax < 255 ==> port == portMin + i)
    && (port > portMax ==> i == PortCount(portMin, portMax))
    && (portMax < 255 && i > 0 ==> i <= PortCount(portMin, portMax))
  }

  // ... over single-valued fields
  method StoreScalars(slots: array<Reading>, portMin: nat, portMax: nat, fields: seq<string>) returns (ok: bool)
    requires portMin < 256 && portMax < 256
    modifies slots
    ensures ok <==> Fits(portMin, portMax, |fields|, slots.Length)
    ensures ok ==> slots[..] == Overwrite(old(slots[..]), Scalars(fields, PortCount(portMin, portMax)))
  {
    hide Atoi, Overwrite, NextPort;
    ghost var before := slots[..];
    var port: nat, i: nat := portMin, 0;
    assert slots[..] == Overwrite(before, Scalars(fields, 0)) by { OverwriteNothing(before); }
    while port <= portMax
      invariant i <= |fields| && i <= slots.Length
      invariant Counting(portMin, portMax, port, i)
      invariant slots[..] == Overwrite(before, Scalars(fields, i))
      decreases |fields| - i
    {
      if i == |fields| || i == slots.Length {
        return false;
      }
      OverwriteNext(before, Scalars(fields, i), [Atoi(fields[i])]);
      slots[i] := [Atoi(fields[i])];
      i, port := i + 1, NextPort(port);
    }
    ok := true;
  }

  lemma OverwriteNothing(slots: seq<Reading>)
    ensures Overwrite(slots, []) == slots
  {
  }

  lemma {:induction false} AllHaveValuesAt(fields: seq<string>, arity: nat, n: nat, i: nat)
    requires i < n <= |fields| && AllHaveValues(fields, arity, n)
    ensures HasValues(fields[i], arity)
  {
    hide HasValues;
    if i == n - 1 {
    } else {
      AllHaveValuesAt(fields, arity, n - 1, i);
    }
  }

  // Texts short enough to be split again
  ghost predicate Splittable(fields: seq<string>) {
    forall i | 0 <= i < |fields| :: NulFree(fields[i]) && |fields[i]| < 150
  }

  // ... over fields of several values, each split at ':'
  method StoreTuples(tokenizer: Tokenizer, slots: array<Reading>, arity: nat, portMin: nat, portMax: nat,
                     fields: seq<string>)
    returns (ok: bool)
    requires portMin < 256 && portMax < 256 && Splittable(fields)
    modifies slots, tokenizer
    ensures var n := PortCount(portMin, portMax);
            && (ok <==>
                  && n <= |fields| && Fits(portMin, portMax, |fields|, slots.Length)
                  && AllHaveValues(fields, arity, n))
            && (ok ==> slots[..] == Overwrite(old(slots[..]), Tuples(fields, arity, n)))
  {
    hide Atoi, Overwrite, NextPort, HasValues, Tokens;
    ghost var before := slots[..];
    var port: nat, i: nat := portMin, 0;
    assert slots[..] == Overwrite(before, Tuples(fields, arity, 0)) by { OverwriteNothing(before); }
    while port <= portMax
      invariant i <= |fields| && i <= slots.Length
      invariant Counting(portMin, portMax, port, i)
      invariant AllHaveValues(fields, arity, i)
      invariant slots[..] == Overwrite(before, Tuples(fields, arity, i))
      decreases |fields| - i
    {
      if i == |fields| || i == slots.Length {
        return false;
      }
      var enough, values := SplitValues(tokenizer, fields[i], arity);
      if !enough {
        ghost var n := PortCount(portMin, portMax);
        if portMax < 255 && n <= |fields| && AllHaveValues(fields, arity, n) { AllHaveValuesAt(fields, arity, n, i); }
        return false;
      }
      OverwriteNext(before, Tuples(fields, arity, i), values);
      slots[i] := values;
      i, port := i + 1, NextPort(port);
    }
    ok := true;
  }

  // split_sensors(field, &j, ":") and atoi of the first `arity` tokens
  method SplitValues(tokenizer: Tokenizer, field: string, arity: nat) returns (enough: bool, values: Reading)
    requires NulFree(field) && |field| < 150
    modifies tokenizer
    ensures enough <==> HasValues(field, arity)
    ensures enough ==> values == Values(field, arity)
  {
    var buffer := Duplicate(field);
    var tokens, j := tokenizer.SplitSensors(buffer, 0, {':'}, field);
    enough := arity <= |tokens|;
    values := if enough then Numbers(tokens, arity) else [];
  }

  // The GPS branch: eight values per field, one slot.
  method StoreGps(tokenizer: Tokenizer, gps: Gps, portMin: nat, portMax: nat, fields: seq<string>)
    returns (ok: bool, gps': Gps)
    requires portMin < 256 && portMax < 256 && Splittable(fields)
    modifies tokenizer
    ensures var n := PortCount(portMin, portMax);
            ok <==> n <= |fields| && Fits(portMin, portMax, |fields|, 1) && AllHaveValues(fields, 8, n)
  {
    hide Atoi, NextPort, Tokens;
    gps' := gps;
    var port: nat, i: nat := portMin, 0;
    while port <= portMax
      invariant i <= |fields| && i <= 1
      invariant Counting(portMin, portMax, port, i)
      invariant AllHaveValues(fields, 8, i)
      decreases |fields| - i
    {
      if i == |fields| || i == 1 {
        return false, gps';
      }
      var buffer := Duplicate(fields[i]);
      var ts, j := tokenizer.SplitSensors(buffer, 0, {':'}, fields[i]);
      if |ts| < 8 {
        ghost var n := PortCount(portMin, portMax);
        if portMax < 255 && n <= |fields| && AllHaveValues(fields, 8, n) { AllHaveValuesAt(fields, 8, n, i); }
        return false, gps';
      }
      gps' := Gps(gps'.fix || ts[0] == "true", Some(ts[1]), ts[2], ts[3], Atoi(ts[4]) % 65536);
      i, port := i + 1, NextPort(port);
    }
    ok := true;
  }

  // The inclination branch: the fields are split and their values dropped.
  method SkipInclination(tokenizer: Tokenizer, portMin: nat, portMax: nat, fields: seq<string>) returns (ok: bool)
    requires portMin < 256 && portMax < 256 && Splittable(fields)
    modifies tokenizer
    ensures ok <==> Fits(portMin, portMax, |fields|, |fields|)
  {
    hide NextPort, Tokens;
    var port: nat, i: nat := portMin, 0;
    while port <= portMax
      invariant i <= |fields|
      invariant Counting(portMin, portMax, port, i)
      decreases |fields| - i
    {
      if i == |fields| {
        return false;
      }
      var buffer := Duplicate(fields[i]);
      var ts, j := tokenizer.SplitSensors(buffer, 0, {':'}, fields[i]);
      i, port := i + 1, NextPort(port);
    }
    ok := true;
  }

  // comma_count over the field text and its terminator, a uint8_t
  method CountCommas(a: array<char>, p: nat, ghost s: string) returns (n: nat)
    requires Holds(a, p, s) && |s| < 150
    ensures n == Count(s, {','}) < 256
  {
    hide ToUint8;
    var length := Strlen(a, p, s);
    assert forall j | 0 <= j < |s| :: s[j] == a[p + j];
    CountFits(s, {','}, 0);
    n := 0;
    for j := 0 to length + 1
      invariant j <= |s| ==> n + CountFrom(s, {','}, j) == Count(s, {','})
      invariant j > |s| ==> n == Count(s, {','})
    {
      assert j < |s| ==> a[p + j] == s[j];
      if a[p + j] == ',' {
        n := ToUint8(n + 1);
      }
    }
  }

  lemma TokensSplittable(s: string, d: set<char>)
    requires NulFree(s) && |s| < 150
    ensures Splittable(Tokens(s, d))
  {
    hide Tokens;
    var runs := TokensAreMaximalRuns(s, d);
    forall i | 0 <= i < |Tokens(s, d)| ensures NulFree(Tokens(s, d)[i]) && |Tokens(s, d)[i]| < 150 {
      assert Tokens(s, d)[i] == s[runs[i].start..runs[i].end];
    }
  }

  // A call without delimiters scans to the end.
  lemma NoDelimiters(s: string, p: Option<nat>)
    requires p.Some? ==> p.value <= |s|
    ensures After(s, NextOf(s, {}, p)).None?
  {
  }

  // The loaded keys with the ports the registry holds for them now
  function WithPorts(keys: seq<nat>, entries: map<nat, string>, health: Health): (r: seq<Assigned>)
    ensures |r| == |keys|
    ensures forall i | 0 <= i < |r| :: r[i] == Assigned(keys[i], ToUint8(ReadPort(entries, health, keys[i])))
  {
    seq(|keys|, i requires 0 <= i < |keys| => Assigned(keys[i], ToUint8(ReadPort(entries, health, keys[i]))))
  }

  ghost predicate ValidKeys(keys: seq<nat>) {
    forall i | 0 <= i < |keys| :: 1 <= keys[i] < KEY_LIMIT
  }

  lemma {:induction false} RecordsPrefix(st: Store, flags: Flags, keys: seq<Assigned>, i: nat)
    requires Shaped(st) && AllPrintable(st, flags, keys) && i <= |keys|
    ensures AllPrintable(st, flags, keys[..i])
    ensures |WebText(st, flags, keys[..i])| <= |WebText(st, flags, keys)|
    decreases |keys| - i
  {
    hide Record, Printable, Shaped;
    if i < |keys| {
      RecordsPrefix(st, flags, keys, i + 1);
      assert keys[..i + 1][..i] == keys[..i];
      WebTextNext(st, flags, keys[..i + 1]);
    } else {
      assert keys[..i] == keys;
    }
  }

  lemma NoKeysText(st: Store, flags: Flags)
    requires Shaped(st)
    ensures AllPrintable(st, flags, []) && WebText(st, flags, []) == "|"
  {
    hide Shaped;
  }

  lemma RecordPieces(cur: string, k: string, p: string, payload: string)
    ensures cur + k + p + payload + "|" == cur + (k + p + payload) + "|"
  {
  }

  // (uint8_t) strtoul(token, NULL, 10)
  method TokenNumber(a: array<char>, p: nat, ghost token: string) returns (n: nat)
    requires Holds(a, p, token)
    ensures n == ToUint8(Strtoul(token))
  {
    var text := TextAt(a, p, token);
    n := ToUint8(Strtoul(text));
  }

  // strtok(NULL, d) on the private copy, after the call that found r
  method TokenAfter(tokenizer: Tokenizer, payload: array<char>, d: set<char>, ghost s: string, ghost r: Run)
    returns (token: Option<nat>)
    requires r.end <= |s| < payload.Length && '\0' !in d && tokenizer.Pointing(payload, 0, s, After(s, Some(r)))
    modifies tokenizer, payload
    ensures token.Some? <==> NextAfter(s, d, r).Some?
    ensures token.Some? ==> Found(tokenizer, payload, s, NextAfter(s, d, r).value, token.value)
    ensures d == {} ==> unchanged(payload)
  {
    hide Next, Cut, Holds;
    token := tokenizer.Continue(d, payload, 0, s, After(s, Some(r)));
    if d == {} { NoDelimiters(s, After(s, Some(r))); }
  }

  // The token r of s is in place, and the hidden pointer behind it.
  ghost predicate Found(tokenizer: Tokenizer, payload: array<char>, s: string, r: Run, token: nat)
    reads tokenizer, payload
  {
    && r.start <= r.end <= |s| < payload.Length
    && Holds(payload, token, Text(s, r)) && tokenizer.Pointing(payload, 0, s, After(s, Some(r)))
  }

  // What the four calls find, one after the other
  lemma HeaderSteps(s: string)
    requires 'p' in s && '-' in s && 'd' in s && 'm' in s
    ensures var r1 := Next(s, {'p', '-'}, 0);
            if r1.None? then !ParseHeader(s).Parsed?
            else
              var r2 := NextAfter(s, {'d'}, r1.value);
              if r2.None? then !ParseHeader(s).Parsed?
              else
                var r3 := NextAfter(s, {'m'}, r2.value);
                if r3.None? then !ParseHeader(s).Parsed?
                else
                  var r4 := NextAfter(s, {}, r3.value);
                  if r4.None? then !ParseHeader(s).Parsed?
                  else ParseHeader(s) == Parsed(HeaderAt(s, r1.value, r2.value, r3.value, r4.value))
  {
    hide Next, NextAfter, HeaderAt;
  }

  // The four strtok calls of parse_data on its private copy. `defined` is false where one of
  // them returns the null pointer that the next strtoul or strlen would read.
  method ReadHeader(tokenizer: Tokenizer, payload: array<char>, ghost s: string)
    returns (defined: bool, portMin: nat, portMax: nat, sensorData: nat, code: nat)
    requires Holds(payload, 0, s) && 'p' in s && '-' in s && 'd' in s && 'm' in s
    modifies tokenizer, payload
    ensures defined <==> ParseHeader(s).Parsed?
    ensures defined ==>
              && ParseHeader(s).header.portMin == portMin && ParseHeader(s).header.portMax == portMax
              && ParseHeader(s).header.code == code && Holds(payload, sensorData, ParseHeader(s).header.data)
  {
    hide Next, NextAfter, Strtoul, ToUint8, Cut, ParseHeader, Holds, Intact;
    HeaderSteps(s);
    defined, portMin, portMax, sensorData, code := false, 0, 0, 0, 0;
    var token := tokenizer.Start(payload, 0, {'p', '-'}, s);
    if token.None? { return; }
    ghost var r1 := Next(s, {'p', '-'}, 0).value;
    portMin := TokenNumber(payload, token.value, Text(s, r1));
    token := TokenAfter(tokenizer, payload, {'d'}, s, r1);
    if token.None? { return; }
    ghost var r2 := NextAfter(s, {'d'}, r1).value;
    portMax := TokenNumber(payload, token.value, Text(s, r2));
    token := TokenAfter(tokenizer, payload, {'m'}, s, r2);
    if token.None? { return; }
    ghost var r3 := NextAfter(s, {'m'}, r2).value;
    sensorData := token.value;
    token := TokenAfter(tokenizer, payload, {}, s, r3);
    if token.None? { return; }
    ghost var r4 := NextAfter(s, {}, r3).value;
    code := TokenNumber(payload, token.value, Text(s, r4));
    defined := true;
  }

  // for(i...) if(number == GROUP[i]) { strcat(ENDPOINT, buffer); strcat(ENDPOINT, "|"); }
  method AppendMatches(endpoint: array<char>, record: string, number: int, group: seq<int>, ghost cur: string)
    returns (ok: bool)
    requires endpoint.Length == 100 && Holds(endpoint, 0, cur) && NulFree(record) && NoRepeats(group)
    modifies endpoint
    ensures number !in group ==> ok && Holds(endpoint, 0, cur)
    ensures number in group ==> (ok <==> |cur| + |record| + 1 < 100) && (ok ==> Holds(endpoint, 0, cur + record + "|"))
  {
    ghost var text := cur;
    for i := 0 to |group|
      invariant number !in group[..i] ==> text == cur
      invariant number in group[..i] ==> text == cur + record + "|" && |cur| + |record| + 1 < 100
      invariant Holds(endpoint, 0, text)
    {
      if number == group[i] {
        assert number !in group[..i];
        var n := Strlen(endpoint, 0, text);
        if n + |record| + 1 >= 100 {
          return false;
        }
        Strcat(endpoint, record, text);
        Strcat(endpoint, "|", text + record);
        text := text + record + "|";
      }
    }
    assert group[..|group|] == group;
    ok := true;
  }

  // atoi(strtok(record, ":")) as a uint8_t
  method RecordNumber(tokenizer: Tokenizer, record: string) returns (number: Option<nat>)
    requires NulFree(record)
    modifies tokenizer
    ensures number == RecordKey(record)
  {
    hide Atoi, Next;
    var buffer := Duplicate(record);
    var token := tokenizer.Start(buffer, 0, {':'}, record);
    if token.None? {
      return None;
    }
    ghost var r := Next(record, {':'}, 0).value;
    var text := TextAt(buffer, token.value, record[r.start..r.end]);
    number := Some(ToUint8(Atoi(text)));
  }

  // A dequeued reply is a C string.
  ghost predicate IsText(reply: Option<string>) {
    reply.Some? ==> NulFree(reply.value)
  }

  method ZeroSlots(m: int) returns (slots: array<Reading>)
    ensures fresh(slots) && slots.Length == Capacity(m) && slots[..] == Zeros(m)
  {
    slots := new Reading[Capacity(m)](_ => Constant(Arity(m), 0));
  }

  method NewWebBuffer() returns (buffer: array<char>)
    ensures fresh(buffer) && buffer.Length == 400 && Holds(buffer, 0, "|")
  {
    buffer := new char[400];
    Strcpy(buffer, "|");
  }

  method NewEndpoints() returns (buffers: seq<array<char>>)
    ensures |buffers| == 9 && forall g | 0 <= g < 9 :: fresh(buffers[g]) && buffers[g].Length == 100
    ensures forall g, h | 0 <= g < h < 9 :: buffers[g] != buffers[h]
  {
    buffers := [];
    for i := 0 to 9
      invariant |buffers| == i && forall g | 0 <= g < i :: fresh(buffers[g]) && buffers[g].Length == 100
      invariant forall g, h | 0 <= g < h < i :: buffers[g] != buffers[h]
    {
      var buffer := new char[100];
      buffers := buffers + [buffer];
    }
  }

  class SerialController {
    // temperatura, digital_input, tanque, inclinacion, analogico, interruptor, ventilador
    const temperature: array<Reading>
    const digitalInput: array<Reading>
    const tank: array<Reading>
    const inclination: array<Reading>
    const analog: array<Reading>
    const digitalOutput: array<Reading>
    const fan: array<Reading>
    var gps: Gps
    // web_buffer, and TRANS .. GNSS in the order of GROUPS
    const webBuffer: array<char>
    const endpoints: seq<array<char>>
    // the not_parsing_data bit
    var notParsing: bool
    const tokenizer: Tokenizer

    // The globals at boot, and the web buffer as the poll task starts it
    constructor ()
      ensures Layout() && Snapshot() == BootStore() && !notParsing
      ensures Holds(webBuffer, 0, "|")
    {
      var t := ZeroSlots(TEMPERATURE);
      var i := ZeroSlots(DIGITAL_INPUT);
      var l := ZeroSlots(LIQUID);
      var n := ZeroSlots(INCLINATION);
      var a := ZeroSlots(ANALOG);
      var o := ZeroSlots(DIGITAL_OUTPUT);
      var f := ZeroSlots(FAN);
      var w := NewWebBuffer();
      var e := NewEndpoints();
      temperature, digitalInput, tank, inclination, analog, digitalOutput, fan := t, i, l, n, a, o, f;
      gps, webBuffer, endpoints := BootStore().gps, w, e;
      notParsing := false;
      tokenizer := new Tokenizer();
    }

    // The seven arrays are different objects of their declared sizes, and so are the buffers.
    ghost predicate Layout() {
      && temperature.Length == 3 && digitalInput.Length == 1 && tank.Length == 4 && inclination.Length == 1
      && analog.Length == 8 && digitalOutput.Length == 2 && fan.Length == 2
      && webBuffer.Length == 400 && |endpoints| == 9
      && (forall g | 0 <= g < 9 :: endpoints[g].Length == 100 && endpoints[g] != webBuffer)
      && (forall g, h | 0 <= g < h < 9 :: endpoints[g] != endpoints[h])
      && temperature != digitalInput && temperature != tank && temperature != inclination && temperature != analog
      && temperature != digitalOutput && temperature != fan
      && digitalInput != tank && digitalInput != inclination && digitalInput != analog
      && digitalInput != digitalOutput && digitalInput != fan
      && tank != inclination && tank != analog && tank != digitalOutput && tank != fan
      && inclination != analog && inclination != digitalOutput && inclination != fan
      && analog != digitalOutput && analog != fan
      && digitalOutput != fan
    }

    ghost function Snapshot(): Store
      reads this`gps, temperature, digitalInput, tank, inclination, analog, digitalOutput, fan
    {
      Store(temperature[..], digitalInput[..], tank[..], inclination[..], analog[..], digitalOutput[..], fan[..], gps)
    }

    function SlotArray(code: int): array<Reading> {
      if code == TEMPERATURE then temperature else if code == DIGITAL_INPUT then digitalInput
      else if code == LIQUID then tank else if code == ANALOG then analog
      else if code == DIGITAL_OUTPUT then digitalOutput else fan
    }

    // allocate_data; ok is false where the C code runs past an array or never leaves a loop
    method AllocateData(portMin: nat, portMax: nat, code: int, fields: seq<string>) returns (ok: bool)
      requires Layout() && portMin < 256 && portMax < 256 && Splittable(fields)
      modifies tokenizer, this`gps, temperature, digitalInput, tank, analog, digitalOutput, fan
      ensures ok <==> Allocates(portMin, portMax, code, fields)
      ensures ok ==> Snapshot() == Allocated(old(Snapshot()), portMin, portMax, code, fields)
    {
      hide Overwrite, AllHaveValues, Fits, Scalars, Tuples;
      ok := true;
      if IsScalar(code) {
        ok := StoreScalars(SlotArray(code), portMin, portMax, fields);
      } else if IsTuple(code) {
        ok := StoreTuples(tokenizer, SlotArray(code), Arity(code), portMin, portMax, fields);
      } else if code == GPS {
        var gps';
        ok, gps' := StoreGps(tokenizer, gps, portMin, portMax, fields);
        gps := gps';
      } else if code == INCLINATION {
        ok := SkipInclination(tokenizer, portMin, portMax, fields);
      }
      if ok {
        gps := FIXED_GPS;
      }
    }

    // parse_data on the C string in the receive buffer. Every return path raises the event bit;
    // a text too long for the payload copy is undefined.
    method ParseReply(data: array<char>, ghost s: string) returns (status: Status)
      requires Layout() && Shaped(Snapshot()) && Holds(data, 0, s)
      modifies tokenizer, this`gps, this`notParsing, temperature, digitalInput, tank, analog, digitalOutput, fan
      ensures status == ParseData(s, old(Snapshot())).status
      ensures status == EspFail <==>
                |s| < 150 && (!HasLetterOfEach(s) || (ParseHeader(s).Parsed? && WrongCount(ParseHeader(s).header)))
      ensures status != UndefinedBehaviour ==> notParsing && Snapshot() == ParseData(s, old(Snapshot())).store
    {
      hide ParseHeader, Accept, Shaped, WrongCount, Storable;
      StatusIff(s, Snapshot());
      var text := TextAt(data, 0, s);
      if |text| >= PAYLOAD_SIZE {
        return UndefinedBehaviour;
      }
      var payload := new char[PAYLOAD_SIZE];
      Strcpy(payload, text);
      if !('p' in text && '-' in text && 'd' in text && 'm' in text) {
        RejectedHeader(s);
        notParsing := true;
        return EspFail;
      }
      NeedsLetters(s);
      var defined, portMin, portMax, sensorData, code := ReadHeader(tokenizer, payload, s);
      if !defined {
        return UndefinedBehaviour;
      }
      DataWithin(s);
      status := StoreReply(payload, sensorData, portMin, portMax, code, ParseHeader(s).header);
    }

    // parse_data after the header
    method StoreReply(payload: array<char>, sensorData: nat, portMin: nat, portMax: nat, code: nat, ghost h: Header)
      returns (status: Status)
      requires Layout() && Shaped(Snapshot()) && Holds(payload, sensorData, h.data) && |h.data| < 150
      requires h == Header(portMin, portMax, h.data, code) && portMin < 256 && portMax < 256
      modifies payload, tokenizer, this`gps, this`notParsing,
               temperature, digitalInput, tank, analog, digitalOutput, fan
      ensures status == Accept(h, old(Snapshot())).status
      ensures status == EspFail <==> code == 0 || Count(h.data, {','}) != portMax - portMin
      ensures status == EspOk <==> !WrongCount(h) && Storable(h)
      ensures status != UndefinedBehaviour ==> notParsing && Snapshot() == Accept(h, old(Snapshot())).store
    {
      hide Tokens, Count, Allocates, Allocated, Shaped, ToUint8, Storable;
      AcceptStatusIff(h, Snapshot());
      if code == 0 {
        notParsing := true;
        return EspFail;
      }
      var commas := CountCommas(payload, sensorData, h.data);
      if portMin + commas != portMax {
        notParsing := true;
        return EspFail;
      }
      TokensSplittable(h.data, {','});
      var fields, i := tokenizer.SplitSensors(payload, sensorData, {','}, h.data);
      var ok := AllocateData(portMin, portMax, code, fields);
      if !ok {
        return UndefinedBehaviour;
      }
      notParsing := true;
      return EspOk;
    }

    // strcat(web_buffer, piece); false where it would run past the 400 bytes
    method Append(piece: string, ghost cur: string) returns (ok: bool)
      requires Layout() && Holds(webBuffer, 0, cur) && NulFree(piece)
      modifies webBuffer
      ensures ok <==> |cur| + |piece| < 400
      ensures ok ==> Holds(webBuffer, 0, cur + piece)
    {
      var n := Strlen(webBuffer, 0, cur);
      if n + |piece| >= 400 {
        return false;
      }
      Strcat(webBuffer, piece, cur);
      ok := true;
    }

    // The branches of web_buffer_constructor, by port
    method PortPayload(flags: Flags, port: nat) returns (ok: bool, text: string)
      requires Layout() && Shaped(Snapshot())
      ensures ok <==> Printable(Snapshot(), flags, port)
      ensures ok ==> Payload(Snapshot(), flags, port) == Some(text)
    {
      hide Join, Texts, DecText;
      var v := VectorPositions(port);
      ok, text := true, "-";
      if port <= 2 {
        if flags.temperature { text := FieldOf(temperature[v]); }
      } else if port == 4 {
        ok := !flags.digitalInput;  // v is 255, the array has one slot
      } else if port >= 5 && port <= 8 {
        if flags.liquid { text := FieldOf(tank[v]); }
      } else if port == 9 {
        if flags.inclination { text := FieldOf(inclination[v]); }
      } else if port >= 10 && port <= 17 {
        if flags.analog { text := FieldOf(analog[v]); }
      } else if port == 18 {
        if flags.gps {
          if gps.time.None? { return false, text; }
          text := Join([Bit(gps.fix), gps.time.value, gps.latitude, gps.longitude, DecText(gps.error)], ':');
        }
      } else if port >= 40 && port <= 41 {
        if flags.fan { text := FieldOf(fan[v]); }
      } else if port >= 42 && port <= 43 {
        if flags.digitalOutput { text := FieldOf(digitalOutput[v]); }
      } else {
        text := "";
      }
    }

    // One turn of web_buffer_constructor's loop
    method AppendRecord(flags: Flags, key: nat, port: nat, ghost cur: string) returns (ok: bool)
      requires Layout() && Shaped(Snapshot()) && GpsKnown(Snapshot()) && Holds(webBuffer, 0, cur) && key < 256
      modifies webBuffer
      ensures Record(Snapshot(), flags, key, port).None? ==> !ok
      ensures Record(Snapshot(), flags, key, port).Some? ==>
                var r := Record(Snapshot(), flags, key, port).value;
                (ok <==> |cur| + |r| + 1 < 400) && (ok ==> Holds(webBuffer, 0, cur + r + "|"))
    {
      hide DecText, Payload, Printable, Shaped, FamilyOf, GpsKnown;
      RecordDefined(Snapshot(), flags, key, port);
      DecTextProper(key);
      DecTextProper(port);
      var defined, payload := PortPayload(flags, port);
      if !defined { return false; }
      PayloadProper(Snapshot(), flags, port);
      var k, p := DecText(key) + ":", DecText(port) + ":";
      ghost var r := k + p + payload;
      assert Record(Snapshot(), flags, key, port) == Some(r) by {
        assert DecText(key) + ":" + DecText(port) + ":" + payload == r;
      }
      RecordPieces(cur, k, p, payload);
      ok := Append(k, cur);
      if !ok { return; }
      ok := Append(p, cur + k);
      if !ok { return; }
      ok := Append(payload, cur + k + p);
      if !ok { return; }
      ok := Append("|", cur + k + p + payload);
    }

    // web_buffer_constructor. ok is false exactly where the C code would read outside an array,
    // through a null timestamp, or write past the 400 bytes.
    method WebBufferConstructor(flags: Flags, keys: seq<nat>, nvs: Nvs) returns (ok: bool)
      requires Layout() && Shaped(Snapshot()) && GpsKnown(Snapshot()) && ValidKeys(keys)
      modifies webBuffer
      ensures var st := Snapshot();
              var loaded := WithPorts(keys, nvs.entries, nvs.health);
              && (ok <==> AllPrintable(st, flags, loaded) && |WebText(st, flags, loaded)| < 400)
              && (ok ==> Holds(webBuffer, 0, WebText(st, flags, loaded)))
    {
      hide Printable, Record, Shaped, ReadPort, ToUint8, WebText, GpsKnown;
      ghost var st, all := Snapshot(), WithPorts(keys, nvs.entries, nvs.health);
      Strcpy(webBuffer, "|");
      assert all[..0] == [];
      NoKeysText(st, flags);
      for i := 0 to |keys|
        invariant AllPrintable(st, flags, all[..i])
        invariant Holds(webBuffer, 0, WebText(st, flags, all[..i]))
      {
        var port := nvs.PreReadx(keys[i]);
        RecordDefined(st, flags, all[i].key, all[i].port);
        ok := AppendRecord(flags, keys[i], ToUint8(port), WebText(st, flags, all[..i]));
        assert all[..i + 1][..i] == all[..i];
        if Record(st, flags, all[i].key, all[i].port).Some? { WebTextNext(st, flags, all[..i + 1]); }
        if !ok {
          if AllPrintable(st, flags, all) { RecordsPrefix(st, flags, all, i + 1); }
          return;
        }
      }
      assert all[..|keys|] == all;
      ok := true;
    }

    // The endpoint strings are those of the given records.
    ghost predicate EndpointsHold(records: seq<string>, from: nat, to: nat)
      requires |endpoints| == 9 && from <= to <= 9
      reads endpoints
    {
      forall g | from <= g < to :: Holds(endpoints[g], 0, EndpointText(records, g))
    }

    // One turn of endpoint_discriminator's loop over the records
    method RouteRecord(record: string, number: nat, ghost done: seq<string>) returns (ok: bool)
      requires Layout() && EndpointsHold(done, 0, 9) && NulFree(record) && RecordKey(record) == Some(number)
      modifies endpoints
      ensures ok <==> AllFit(done + [record])
      ensures ok ==> EndpointsHold(done + [record], 0, 9)
    {
      hide RecordKey, EndpointText;
      ghost var after := done + [record];
      for g := 0 to 9
        invariant EndpointsHold(after, 0, g) && EndpointsHold(done, g, 9)
        invariant forall h | 0 <= h < g :: |EndpointText(after, h)| < 100
      {
        ok := RouteTo(endpoints[g], g, record, number, done);
        if !ok {
          return;
        }
      }
      ok := true;
    }

    // ... for one endpoint and its table
    method RouteTo(endpoint: array<char>, g: nat, record: string, number: nat, ghost done: seq<string>)
      returns (ok: bool)
      requires g < 9 && endpoint.Length == 100 && Holds(endpoint, 0, EndpointText(done, g))
      requires NulFree(record) && RecordKey(record) == Some(number)
      modifies endpoint
      ensures ok <==> |EndpointText(done + [record], g)| < 100
      ensures ok ==> Holds(endpoint, 0, EndpointText(done + [record], g))
    {
      hide RecordKey, EndpointText, GroupOf, NoRepeats;
      GroupsPartition(g, number);
      SelectedNext(done, record, g);
      ok := AppendMatches(endpoint, record, number, GROUPS[g], EndpointText(done, g));
      assert EndpointText(done, g) + (record + "|") == EndpointText(done, g) + record + "|";
    }

    // endpoint_discriminator. ok is false exactly where a record is too long for its buffer or
    // has no number, or an endpoint string outgrows its 100 bytes.
    method EndpointDiscriminator(ghost web: string) returns (ok: bool)
      requires Layout() && Holds(webBuffer, 0, web)
      modifies endpoints, tokenizer
      ensures var records := Tokens(web, {'|'});
              && (ok <==> Readable(records, |records|) && AllFit(records))
              && (ok ==> EndpointsHold(records, 0, 9))
    {
      hide Tokens, RecordKey, EndpointText, EndpointsHold, AllFit;
      ghost var records := Tokens(web, {'|'});
      ClearEndpoints();
      var tokens := SplitWeb(web);
      assert records[..0] == [];
      for j := 0 to |tokens|
        invariant EndpointsHold(records[..j], 0, 9) && AllFit(records[..j])
        invariant Readable(records, j)
      {
        if |tokens[j]| >= 100 {
          return false;
        }
        var number := RecordNumber(tokenizer, tokens[j]);
        if number.None? {
          return false;
        }
        ok := RouteRecord(tokens[j], number.value, records[..j]);
        assert records[..j + 1] == records[..j] + [records[j]];
        if !ok {
          Overfull(records, j + 1);
          return;
        }
      }
      assert records[..|tokens|] == records;
      ok := true;
    }

    // The web buffer copied and split at "|"
    method SplitWeb(ghost web: string) returns (tokens: seq<string>)
      requires Layout() && Holds(webBuffer, 0, web)
      modifies tokenizer
      ensures tokens == Tokens(web, {'|'}) && forall j | 0 <= j < |tokens| :: NulFree(tokens[j])
    {
      hide Tokens;
      var text := TextAt(webBuffer, 0, web);
      var copy := new char[400];
      Strcpy(copy, text);
      var q;
      tokens, q := tokenizer.SplitSensors(copy, 0, {'|'}, web);
      TokensNulFree(web, {'|'});
    }

    // strcpy(TRANS, "|") and so on
    method ClearEndpoints()
      requires Layout()
      modifies endpoints
      ensures EndpointsHold([], 0, 9) && AllFit([])
    {
      for g := 0 to 9
        invariant EndpointsHold([], 0, g)
      {
        Strcpy(endpoints[g], "|");
        assert EndpointText([], g) == "|";
      }
      assert forall g | 0 <= g < 9 :: EndpointText([], g) == "|";
    }

    // One wait of the poll task: a dequeued reply is parsed, and its flag set accordingly.
    method TakeReply(reply: Option<string>, flags: Flags, raise: (Flags, bool) -> Flags)
      returns (ok: bool, flags': Flags)
      requires Layout() && Shaped(Snapshot()) && IsText(reply)
      modifies tokenizer, this`gps, this`notParsing, temperature, digitalInput, tank, analog, digitalOutput, fan
      ensures var p := Reply(Polled(old(Snapshot()), flags, true), reply, raise);
              (ok <==> p.defined) && (ok ==> p == Polled(Snapshot(), flags', true))
      ensures ok ==> notParsing == (old(notParsing) || reply.Some?)
    {
      hide ParseData, Shaped;
      if reply.None? {
        return true, flags;
      }
      var data := Duplicate(reply.value);
      var status := ParseReply(data, reply.value);
      ok, flags' := status != UndefinedBehaviour, raise(flags, status == EspOk);
    }

    // The three requests of one cycle
    method PollReplies(temp: Option<string>, dig: Option<string>, ana: Option<string>) returns (ok: bool, flags: Flags)
      requires Layout() && Shaped(Snapshot()) && GpsKnown(Snapshot())
      requires IsText(temp) && IsText(dig) && IsText(ana)
      modifies tokenizer, this`gps, this`notParsing, temperature, digitalInput, tank, analog, digitalOutput, fan
      ensures var p := Cycle(old(Snapshot()), temp, dig, ana);
              (ok <==> p.defined) && (ok ==> p == Polled(Snapshot(), flags, true))
      ensures ok ==> notParsing == (dig.Some? || ana.Some?)
    {
      hide Reply, Shaped, GpsKnown;
      ghost var p0 := Polled(Snapshot(), NO_FLAGS, true);
      ReplyShaped(p0, temp, RaiseTemperature);
      notParsing := false;
      ok, flags := TakeReply(temp, NO_FLAGS, RaiseTemperature);
      ghost var p1 := Reply(p0, temp, RaiseTemperature);
      ReplyShaped(p1, dig, RaiseDigitalInput);
      if !ok {
        StaysUndefined(p1, dig, RaiseDigitalInput);
        StaysUndefined(p1, ana, RaiseAnalog);
        return;
      }
      notParsing := false;
      ok, flags := TakeReply(dig, flags, RaiseDigitalInput);
      ghost var p2 := Reply(p1, dig, RaiseDigitalInput);
      ReplyShaped(p2, ana, RaiseAnalog);
      if !ok {
        StaysUndefined(p2, ana, RaiseAnalog);
        return;
      }
      ok, flags := TakeReply(ana, flags, RaiseAnalog);
    }

    // The body of UART_tx_task's loop. ok says exactly when every step is defined; then the web
    // buffer and the endpoint strings show this cycle's replies, or are untouched if no rebuild
    // flag is set.
    method PollCycle(temp: Option<string>, dig: Option<string>, ana: Option<string>, keys: seq<nat>, nvs: Nvs,
                     ghost web: string)
      returns (ok: bool, rebuilt: bool)
      requires Layout() && Shaped(Snapshot()) && GpsKnown(Snapshot()) && ValidKeys(keys)
      requires IsText(temp) && IsText(dig) && IsText(ana) && Holds(webBuffer, 0, web)
      modifies tokenizer, this`gps, this`notParsing, temperature, digitalInput, tank, analog, digitalOutput, fan,
               webBuffer, endpoints
      ensures var p := Cycle(old(Snapshot()), temp, dig, ana);
              && (ok <==> p.defined && (Rebuilds(p.flags) ==>
                    Publishable(p.store, p.flags, WithPorts(keys, nvs.entries, nvs.health))))
              && (ok ==> Snapshot() == p.store && (rebuilt <==> Rebuilds(p.flags)))
      ensures ok && !rebuilt ==> unchanged(webBuffer) && unchanged(endpoints)
      ensures ok && rebuilt ==>
                var p := Cycle(old(Snapshot()), temp, dig, ana);
                var loaded := WithPorts(keys, nvs.entries, nvs.health);
                && Publishable(p.store, p.flags, loaded)
                && Holds(webBuffer, 0, WebText(p.store, p.flags, loaded))
                && EndpointsHold(Records(p.store, p.flags, loaded), 0, 9)
    {
      hide Cycle, Shaped, GpsKnown, Publishable, WithPorts, WebText, EndpointText, AllPrintable;
      var flags;
      rebuilt := false;
      ok, flags := PollReplies(temp, dig, ana);
      if !ok { return; }
      rebuilt := Rebuilds(flags);
      if rebuilt {
        ok := Publish(flags, keys, nvs);
      }
    }

    // web_buffer_constructor, then endpoint_discriminator
    method Publish(flags: Flags, keys: seq<nat>, nvs: Nvs) returns (ok: bool)
      requires Layout() && Shaped(Snapshot()) && GpsKnown(Snapshot()) && ValidKeys(keys)
      modifies webBuffer, endpoints, tokenizer
      ensures ok <==> Publishable(Snapshot(), flags, WithPorts(keys, nvs.entries, nvs.health))
      ensures ok ==>
                var loaded := WithPorts(keys, nvs.entries, nvs.health);
                && Holds(webBuffer, 0, WebText(Snapshot(), flags, loaded))
                && EndpointsHold(Records(Snapshot(), flags, loaded), 0, 9)
    {
      hide Shaped, GpsKnown, Printable, Tokens, Framed, RecordKey, ReadPort, AllFit, Readable;
      ok := WebBufferConstructor(flags, keys, nvs);
      if !ok { return; }
      ghost var loaded := WithPorts(keys, nvs.entries, nvs.health);
      RecordsReadable(Snapshot(), flags, loaded);
      WebRoundTrip(Snapshot(), flags, loaded);
      ok := EndpointDiscriminator(WebText(Snapshot(), flags, loaded));
    }
  }

  lemma RejectedHeader(s: string)
    requires !('p' in s && '-' in s && 'd' in s && 'm' in s)
    ensures ParseHeader(s) == Rejected
  {
  }

  lemma NeedsLetters(s: string)
    requires 'p' in s && '-' in s && 'd' in s && 'm' in s
    ensures ParseHeader(s) != Rejected
  {
  }

  lemma DataWithin(s: string)
    requires ParseHeader(s).Parsed?
    ensures |ParseHeader(s).header.data| <= |s|
    ensures ParseHeader(s).header.portMin < 256 && ParseHeader(s).header.portMax < 256
  {
    hide Next, ToUint8, Strtoul;
    var r1, r2, r3, r4 := ScansByHeader(s);
  }

  lemma Overfull(records: seq<string>, i: nat)
    requires i <= |records| && !AllFit(records[..i])
    ensures !AllFit(records)
  {
    hide EndpointText;
    var g :| 0 <= g < 9 && |EndpointText(records[..i], g)| >= 100;
    EndpointPrefix(records, g, i);
  }

  lemma TokensNulFree(s: string, d: set<char>)
    requires NulFree(s)
    ensures forall i | 0 <= i < |Tokens(s, d)| :: NulFree(Tokens(s, d)[i])
  {
    hide Tokens;
    var runs := TokensAreMaximalRuns(s, d);
    forall i | 0 <= i < |Tokens(s, d)| ensures NulFree(Tokens(s, d)[i]) {
      assert Tokens(s, d)[i] == s[runs[i].start..runs[i].end];
    }
  }
}
