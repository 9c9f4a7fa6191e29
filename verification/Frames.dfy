// parse_data: the reply grammar p<min>-<max>d<fields>m<module>, and what accepting a reply
// does to the sensor arrays (main/serial_controller.h:831-908).
module Frames {
  import opened DecimalText
  import opened Tokenizing
  import opened Sensors

  datatype Header = Header(portMin: nat, portMax: nat, data: string, code: nat)

  // Rejected: a delimiter letter is missing. Undefined: a strtok result is null and is used.
  datatype Heading = Rejected | Undefined | Parsed(header: Header)

  function Text(s: string, r: Run): string
    requires r.start <= r.end <= |s|
  {
    s[r.start..r.end]
  }

  function Number(s: string, r: Run): (n: nat)
    requires r.start <= r.end <= |s|
    ensures n < 256
  {
    ToUint8(Strtoul(Text(s, r)))
  }

  // strtok(NULL, d) after the call that found r
  function NextAfter(s: string, d: set<char>, r: Run): (n: Option<Run>)
    requires r.end <= |s|
    ensures n.Some? ==> r.end < n.value.start < n.value.end <= |s|
    ensures n == NextOf(s, d, After(s, Some(r)))
  {
    if r.end == |s| then None else Next(s, d, r.end + 1)
  }

  // The four strstr tests and the four strtok calls.
  function ParseHeader(s: string): Heading {
    if !('p' in s && '-' in s && 'd' in s && 'm' in s) then Rejected
    else
      var min := Next(s, {'p', '-'}, 0);
      if min.None? then Undefined
      else
        var max := NextAfter(s, {'d'}, min.value);
        if max.None? then Undefined
        else
          var data := NextAfter(s, {'m'}, max.value);
          if data.None? then Undefined
          else
            var code := NextAfter(s, {}, data.value);
            if code.None? then Undefined
            else Parsed(HeaderAt(s, min.value, max.value, data.value, code.value))
  }

  function HeaderAt(s: string, min: Run, max: Run, data: Run, code: Run): Header
    requires min.start <= min.end <= |s| && max.start <= max.end <= |s|
    requires data.start <= data.end <= |s| && code.start <= code.end <= |s|
  {
    Header(Number(s, min), Number(s, max), Text(s, data), Number(s, code))
  }

  datatype Status = EspOk | EspFail | UndefinedBehaviour

  datatype Parse = Parse(status: Status, store: Store)

  // What follows the four strtok calls.
  function Accept(h: Header, st: Store): Parse
    requires Shaped(st)
  {
    if h.code == 0 then Parse(EspFail, st)
    else if ToUint8(Count(h.data, {','})) != h.portMax - h.portMin then Parse(EspFail, st)
    else
      var fields := Tokens(h.data, {','});
      if !Allocates(h.portMin, h.portMax, h.code, fields) then Parse(UndefinedBehaviour, st)
      else Parse(EspOk, Allocated(st, h.portMin, h.portMax, h.code, fields))
  }

  // UART_Payload: the private copy parse_data makes first
  const PAYLOAD_SIZE := 150

  function ParseData(s: string, st: Store): Parse
    requires Shaped(st)
  {
    if |s| >= PAYLOAD_SIZE then Parse(UndefinedBehaviour, st)
    else
      match ParseHeader(s)
      case Rejected => Parse(EspFail, st)
      case Undefined => Parse(UndefinedBehaviour, st)
      case Parsed(h) => Accept(h, st)
  }

  // Acceptance is a property of the text alone; the arrays keep their shape.
  lemma ParseDataFrame(s: string, st: Store, st': Store)
    requires Shaped(st) && Shaped(st')
    ensures ParseData(s, st).status == ParseData(s, st').status
    ensures Shaped(ParseData(s, st).store)
    ensures ParseData(s, st).status != EspOk ==> ParseData(s, st).store == st
  {
    hide ParseHeader, Accept, Shaped;
    if |s| < PAYLOAD_SIZE && ParseHeader(s).Parsed? { AcceptFrame(ParseHeader(s).header, st, st'); }
  }

  lemma AcceptFrame(h: Header, st: Store, st': Store)
    requires Shaped(st) && Shaped(st')
    ensures Accept(h, st).status == Accept(h, st').status
    ensures Shaped(Accept(h, st).store)
    ensures Accept(h, st).status != EspOk ==> Accept(h, st).store == st
  {
    hide Tokens, Count, Allocates, Allocated, ToUint8;
    var fields := Tokens(h.data, {','});
    if Allocates(h.portMin, h.portMax, h.code, fields) {
      AllocatedShaped(st, h.portMin, h.portMax, h.code, fields);
    }
  }

  // An accepted frame without empty fields has exactly one field per port.
  lemma AcceptedFieldCount(h: Header, st: Store)
    requires Shaped(st) && |h.data| < 150 && Accept(h, st).status == EspOk
    ensures var fields, ports := Tokens(h.data, {','}), PortCount(h.portMin, h.portMax);
            h.portMin <= h.portMax && |fields| <= ports && (|fields| == ports <==> [] !in Fields(h.data, {','}))
  {
    CountFits(h.data, {','}, 0);
    TokenCount(h.data, {','});
  }

  // Exactly when storing the fields of a single-valued module is defined, for a header whose
  // comma count was right: no field is empty, the array has a slot per port, and the 8-bit port
  // counter can pass the last port.
  lemma ScalarAllocatesIff(h: Header)
    requires IsScalar(h.code) && Count(h.data, {','}) == h.portMax - h.portMin && h.portMax < 256
    ensures Allocates(h.portMin, h.portMax, h.code, Tokens(h.data, {','})) <==>
              [] !in Fields(h.data, {','}) && PortCount(h.portMin, h.portMax) <= Capacity(h.code) && h.portMax < 255
  {
    hide Tokens, Fields, Count;
    TokenCount(h.data, {','});
  }

  // The same for the modules whose fields are split at ':', the GPS with its eight values among
  // them: every field has its values besides.
  lemma TupleAllocatesIff(h: Header, arity: nat)
    requires (IsTuple(h.code) && arity == Arity(h.code)) || (h.code == GPS && arity == 8)
    requires Count(h.data, {','}) == h.portMax - h.portMin && h.portMax < 256
    ensures var fields := Fields(h.data, {','});
            Allocates(h.portMin, h.portMax, h.code, Tokens(h.data, {','})) <==>
              [] !in fields && (forall i | 0 <= i < |fields| :: HasValues(fields[i], arity))
              && PortCount(h.portMin, h.portMax) <= Capacity(h.code) && h.portMax < 255
  {
    hide Tokens, Fields, Count, HasValues, AllHaveValues;
    TokenCount(h.data, {','});
    var tokens, n := Tokens(h.data, {','}), PortCount(h.portMin, h.portMax);
    if n <= |tokens| { AllHaveValuesIff(tokens, arity, n); }
  }

  // What storing needs, by module: for GPS and inclination the fields alone matter, and for the
  // codes allocate_data does not know, nothing.
  ghost predicate Storable(h: Header) {
    var fields, ports := Fields(h.data, {','}), PortCount(h.portMin, h.portMax);
    if IsScalar(h.code) then [] !in fields && ports <= Capacity(h.code) && h.portMax < 255
    else if IsTuple(h.code) then
      && [] !in fields && (forall i | 0 <= i < |fields| :: HasValues(fields[i], Arity(h.code)))
      && ports <= Capacity(h.code) && h.portMax < 255
    else if h.code == GPS then
      && [] !in fields && (forall i | 0 <= i < |fields| :: HasValues(fields[i], 8))
      && ports <= 1 && h.portMax < 255
    else if h.code == INCLINATION then [] !in fields && h.portMax < 255
    else true
  }

  lemma AllocatesIffStorable(h: Header)
    requires Count(h.data, {','}) == h.portMax - h.portMin && h.portMax < 256
    ensures Allocates(h.portMin, h.portMax, h.code, Tokens(h.data, {','})) <==> Storable(h)
  {
    hide Tokens, Fields, Count, HasValues, AllHaveValues;
    if IsScalar(h.code) {
      ScalarAllocatesIff(h);
    } else if IsTuple(h.code) {
      TupleAllocatesIff(h, Arity(h.code));
    } else if h.code == GPS {
      TupleAllocatesIff(h, 8);
    } else {
      TokenCount(h.data, {','});
    }
  }

  ghost predicate HasLetterOfEach(s: string) {
    'p' in s && '-' in s && 'd' in s && 'm' in s
  }

  // The module is none, or the commas are not one less than the ports.
  ghost predicate WrongCount(h: Header) {
    h.code == 0 || Count(h.data, {','}) != h.portMax - h.portMin
  }

  // The status of every text, exactly. Refused: a letter is missing, or the header is there and
  // its module is zero or its comma count wrong. Undefined: the text is too long, or the letters
  // are there but not a header, or the count is right and the fields cannot be stored.
  lemma StatusIff(s: string, st: Store)
    requires Shaped(st)
    ensures var status := ParseData(s, st).status;
            && (status == EspFail <==>
                  |s| < 150 && (!HasLetterOfEach(s) ||
                                (ParseHeader(s).Parsed? && WrongCount(ParseHeader(s).header))))
            && (status == UndefinedBehaviour <==>
                  |s| >= 150 ||
                  (HasLetterOfEach(s) && (!ParseHeader(s).Parsed? ||
                    (!WrongCount(ParseHeader(s).header) && !Storable(ParseHeader(s).header)))))
            && (status == EspOk <==>
                  && |s| < 150 && HasLetterOfEach(s) && ParseHeader(s).Parsed?
                  && !WrongCount(ParseHeader(s).header) && Storable(ParseHeader(s).header))
    ensures ParseHeader(s) == Rejected <==> !HasLetterOfEach(s)
  {
    hide Accept, Storable, Shaped, WrongCount, HeaderAt, Next;
    if |s| < 150 && ParseHeader(s).Parsed? {
      var h := ParseHeader(s).header;
      HeaderWithin(s);
      AcceptStatusIff(h, st);
    }
  }

  lemma HeaderWithin(s: string)
    requires ParseHeader(s).Parsed?
    ensures var h := ParseHeader(s).header;
            |h.data| <= |s| && h.portMin < 256 && h.portMax < 256 && h.code < 256
  {
    hide Next, ToUint8, Strtoul;
    var r1, r2, r3, r4 := ScansByHeader(s);
  }

  lemma AcceptStatusIff(h: Header, st: Store)
    requires Shaped(st) && |h.data| < 150 && h.portMax < 256
    ensures Accept(h, st).status == EspFail <==> WrongCount(h)
    ensures Accept(h, st).status == UndefinedBehaviour <==> !WrongCount(h) && !Storable(h)
  {
    hide Tokens, Count, Allocates, Allocated, Storable, Shaped;
    CountFits(h.data, {','}, 0);
    CountSmall(h.data);
    if !WrongCount(h) { AllocatesIffStorable(h); }
  }

  lemma CountSmall(s: string)
    requires |s| < 150
    ensures ToUint8(Count(s, {','})) == Count(s, {','})
  {
    CountFits(s, {','}, 0);
  }

  lemma {:induction false} CountFits(s: string, d: set<char>, i: nat)
    requires i <= |s|
    ensures CountFrom(s, d, i) <= |s| - i
    decreases |s| - i
  {
    if i == |s| {
    } else {
      CountFits(s, d, i + 1);
    }
  }

  // ---- The grammar ----------------------------------------------------------

  datatype Parts = Parts(lead: string, min: string, mid: string, max: string, gap: string, data: string, code: string)

  ghost predicate AllIn(s: string, d: set<char>) {
    forall i | 0 <= i < |s| :: s[i] in d
  }

  // `mid` and `gap` are the delimiters strtok skips: one p or - and then any d's; d and then any m's.
  ghost predicate WellShaped(p: Parts) {
    && AllIn(p.lead, {'p', '-'})
    && p.min != [] && Free(p.min, {'p', '-'})
    && p.mid != [] && p.mid[0] in {'p', '-'} && AllIn(p.mid[1..], {'d'})
    && p.max != [] && Free(p.max, {'d'})
    && p.gap != [] && p.gap[0] == 'd' && AllIn(p.gap[1..], {'m'})
    && p.data != [] && Free(p.data, {'m'})
    && p.code != []
  }

  function Assembled(p: Parts): string {
    p.lead + p.min + p.mid + p.max + p.gap + p.data + "m" + p.code
  }

  function HeaderOf(p: Parts): Header {
    Header(ToUint8(Strtoul(p.min)), ToUint8(Strtoul(p.max)), p.data, ToUint8(Strtoul(p.code)))
  }

  // The parts lie in s, one after the other, cut at these positions.
  ghost predicate CutAt(s: string, p: Parts, a: nat, b: nat, c: nat, d: nat, e: nat, f: nat) {
    && a <= b <= c <= d <= e <= f < |s| && s[f] == 'm'
    && p == Parts(s[..a], s[a..b], s[b..c], s[c..d], s[d..e], s[e..f], s[f + 1..])
  }

  lemma CutsAssemble(s: string, p: Parts, a: nat, b: nat, c: nat, d: nat, e: nat, f: nat)
    requires CutAt(s, p, a, b, c, d, e, f)
    ensures Assembled(p) == s
  {
    assert s[..a] + s[a..b] == s[..b];
    assert s[..b] + s[b..c] == s[..c];
    assert s[..c] + s[c..d] == s[..d];
    assert s[..d] + s[d..e] == s[..e];
    assert s[..e] + s[e..f] == s[..f];
    assert s[..f] + "m" + s[f + 1..] == s;
  }

  lemma AssembledCuts(s: string, p: Parts) returns (a: nat, b: nat, c: nat, d: nat, e: nat, f: nat)
    requires Assembled(p) == s
    ensures CutAt(s, p, a, b, c, d, e, f)
  {
    a := |p.lead|;
    b := a + |p.min|;
    c := b + |p.mid|;
    d := c + |p.max|;
    e := d + |p.gap|;
    f := e + |p.data|;
    var p2 := p.lead + p.min;
    var p3 := p2 + p.mid;
    var p4 := p3 + p.max;
    var p5 := p4 + p.gap;
    var p6 := p5 + p.data;
    assert s[..|s|] == s && s[f + 1..|s|] == s[f + 1..];
    Peel(s, |s|, p6 + "m", p.code);
    Peel(s, f + 1, p6, "m");
    Peel(s, f, p5, p.data);
    Peel(s, e, p4, p.gap);
    Peel(s, d, p3, p.max);
    Peel(s, c, p2, p.mid);
    Peel(s, b, p.lead, p.min);
    assert s[f] == s[f..f + 1][0];
  }

  // The last piece of a prefix, and the prefix before it
  lemma Peel(s: string, n: nat, x: string, y: string)
    requires n <= |s| && s[..n] == x + y
    ensures |x| + |y| == n && s[..|x|] == x && s[|x|..n] == y
  {
    assert s[..|x|] == s[..n][..|x|] && s[|x|..n] == s[..n][|x|..];
  }

  // One strtok call, by where its delimiters and its token lie.
  lemma NextCut(s: string, d: set<char>, i: nat, k: nat, e: nat)
    requires i <= k < e <= |s| && AllIn(s[i..k], d) && Free(s[k..e], d) && (e < |s| ==> s[e] in d)
    ensures Next(s, d, i) == Some(Run(k, e))
  {
    forall j | i <= j < k ensures s[j] in d { assert s[j] == s[i..k][j - i]; }
    forall j | k <= j < e ensures s[j] !in d { assert s[j] == s[k..e][j - k]; }
    NextIs(s, d, i, k, e);
  }

  ghost predicate Scans(s: string, r1: Run, r2: Run, r3: Run, r4: Run) {
    && Next(s, {'p', '-'}, 0) == Some(r1)
    && r1.end < |s| && Next(s, {'d'}, r1.end + 1) == Some(r2)
    && r2.end < |s| && Next(s, {'m'}, r2.end + 1) == Some(r3)
    && r3.end < |s| && Next(s, {}, r3.end + 1) == Some(r4)
  }

  lemma HeaderByScans(s: string, r1: Run, r2: Run, r3: Run, r4: Run)
    requires Scans(s, r1, r2, r3, r4) && 'p' in s && '-' in s && 'd' in s && 'm' in s
    ensures ParseHeader(s) == Parsed(HeaderAt(s, r1, r2, r3, r4))
  {
    hide Next, HeaderAt;
  }

  lemma ScansByHeader(s: string) returns (r1: Run, r2: Run, r3: Run, r4: Run)
    requires ParseHeader(s).Parsed?
    ensures Scans(s, r1, r2, r3, r4) && ParseHeader(s).header == HeaderAt(s, r1, r2, r3, r4)
  {
    hide Next, HeaderAt;
    r1 := Next(s, {'p', '-'}, 0).value;
    r2 := NextAfter(s, {'d'}, r1).value;
    r3 := NextAfter(s, {'m'}, r2).value;
    r4 := NextAfter(s, {}, r3).value;
  }

  // Every text assembled from well-shaped parts parses to their numbers ...
  lemma ShapeParses(p: Parts, s: string)
    requires WellShaped(p) && s == Assembled(p) && 'p' in s && '-' in s
    ensures ParseHeader(s) == Parsed(HeaderOf(p))
  {
    var r1, r2, r3, r4 := ScansOfParts(p, s);
    assert s[r2.end] == 'd' && s[r3.end] == 'm';
    HeaderByScans(s, r1, r2, r3, r4);
  }

  lemma ScansOfParts(p: Parts, s: string) returns (r1: Run, r2: Run, r3: Run, r4: Run)
    requires WellShaped(p) && s == Assembled(p)
    ensures Scans(s, r1, r2, r3, r4) && s[r2.end] == 'd' && s[r3.end] == 'm'
    ensures Text(s, r1) == p.min && Text(s, r2) == p.max && Text(s, r3) == p.data && Text(s, r4) == p.code
  {
    hide Assembled, Next;
    var a, b, c, d, e, f := AssembledCuts(s, p);
    r1, r2, r3, r4 := Run(a, b), Run(c, d), Run(e, f), Run(f + 1, |s|);
    assert Next(s, {'p', '-'}, 0) == Some(r1) && Text(s, r1) == p.min by {
      assert s[0..a] == s[..a];
      CutHead(s, b, c);
      NextCut(s, {'p', '-'}, 0, a, b);
    }
    assert Next(s, {'d'}, b + 1) == Some(r2) && s[d] == 'd' by {
      CutHead(s, b, c);
      CutHead(s, d, e);
      NextCut(s, {'d'}, b + 1, c, d);
    }
    assert Next(s, {'m'}, d + 1) == Some(r3) by {
      CutHead(s, d, e);
      NextCut(s, {'m'}, d + 1, e, f);
    }
    assert Next(s, {}, f + 1) == Some(r4) && Text(s, r4) == p.code by {
      assert s[f + 1..|s|] == s[f + 1..];
      NextCut(s, {}, f + 1, f + 1, |s|);
    }
  }

  lemma CutHead(s: string, b: nat, c: nat)
    requires b < c <= |s|
    ensures s[b..c][0] == s[b] && s[b..c][1..] == s[b + 1..c]
  {
  }

  // ... and every text that parses is assembled from well-shaped parts.
  lemma ParsesShape(s: string) returns (p: Parts)
    requires ParseHeader(s).Parsed?
    ensures WellShaped(p) && Assembled(p) == s && ParseHeader(s) == Parsed(HeaderOf(p))
  {
    var r1, r2, r3, r4 := ScansByHeader(s);
    p := PartsOfScans(s, r1, r2, r3, r4);
  }

  lemma NextMeans(s: string, d: set<char>, i: nat, r: Run)
    requires i <= |s| && Next(s, d, i) == Some(r)
    ensures AllIn(s[i..r.start], d) && Free(s[r.start..r.end], d) && s[r.start..r.end] != []
    ensures r.end < |s| ==> s[r.end] in d
  {
    NextPlaces(s, d, i, r);
  }

  lemma LastScan(s: string, i: nat, r: Run)
    requires i <= |s| && Next(s, {}, i) == Some(r)
    ensures r.start == i && r.end == |s|
  {
  }

  lemma PartsOfScans(s: string, r1: Run, r2: Run, r3: Run, r4: Run) returns (p: Parts)
    requires Scans(s, r1, r2, r3, r4)
    ensures WellShaped(p) && Assembled(p) == s
    ensures HeaderOf(p) == HeaderAt(s, r1, r2, r3, r4)
  {
    hide Next, Strtoul, ToUint8, Assembled;
    NextMeans(s, {'p', '-'}, 0, r1);
    NextMeans(s, {'d'}, r1.end + 1, r2);
    NextMeans(s, {'m'}, r2.end + 1, r3);
    NextMeans(s, {}, r3.end + 1, r4);
    LastScan(s, r3.end + 1, r4);
    p := Parts(s[..r1.start], s[r1.start..r1.end], s[r1.end..r2.start], s[r2.start..r2.end],
               s[r2.end..r3.start], s[r3.start..r3.end], s[r4.start..r4.end]);
    assert p.mid[1..] == s[r1.end + 1..r2.start] && p.gap[1..] == s[r2.end + 1..r3.start];
    assert p.mid[0] == s[r1.end] && p.gap[0] == s[r2.end];
    assert s[r4.start..r4.end] == s[r3.end + 1..] && s[r3.end] == 'm';
    CutsAssemble(s, p, r1.start, r1.end, r2.start, r2.end, r3.start, r3.end);
  }

  // ---- Frames built from readings -------------------------------------------

  function FieldOf(values: Reading): string {
    Join(Texts(values), ':')
  }

  function FieldsOf(readings: seq<Reading>): (fs: seq<string>)
    ensures |fs| == |readings| && forall i | 0 <= i < |fs| :: fs[i] == FieldOf(readings[i])
  {
    if readings == [] then [] else [FieldOf(readings[0])] + FieldsOf(readings[1..])
  }

  function Frame(portMin: nat, portMax: nat, code: nat, readings: seq<Reading>): string {
    Assembled(FrameParts(portMin, portMax, code, readings))
  }

  function FrameParts(portMin: nat, portMax: nat, code: nat, readings: seq<Reading>): Parts {
    Parts("p", DecText(portMin), "-", DecText(portMax), "d", Join(FieldsOf(readings), ','), DecText(code))
  }

  ghost predicate Numeric(s: string) {
    forall i | 0 <= i < |s| :: IsDigit(s[i]) || s[i] == '-' || s[i] == ':' || s[i] == ','
  }

  lemma {:induction false} JoinNumeric(ts: seq<string>, c: char)
    requires forall i | 0 <= i < |ts| :: ts[i] != [] && Numeric(ts[i])
    requires c == ':' || c == ','
    ensures Numeric(Join(ts, c)) && (ts != [] ==> Join(ts, c) != [])
  {
    if |ts| <= 1 {
    } else {
      JoinNumeric(ts[1..], c);
    }
  }

  lemma DecTextProper(n: int)
    ensures DecText(n) != [] && Numeric(DecText(n)) && Free(DecText(n), {':', ',', '|', '\0'})
    ensures n >= 0 ==> Free(DecText(n), {'-'})
  {
    DecTextChars(n);
    forall i | 0 <= i < |DecText(n)|
      ensures DecText(n)[i] == '-' || IsDigit(DecText(n)[i])
      ensures n >= 0 ==> IsDigit(DecText(n)[i])
    {
      assert DecText(n)[i] in DecText(n);
    }
  }

  lemma {:induction false} JoinFree(ts: seq<string>, c: char, d: set<char>)
    requires c !in d && forall i | 0 <= i < |ts| :: Free(ts[i], d)
    ensures Free(Join(ts, c), d)
  {
    if |ts| <= 1 {
    } else {
      JoinFree(ts[1..], c, d);
    }
  }

  lemma FieldProper(values: Reading)
    requires values != []
    ensures FieldOf(values) != [] && Numeric(FieldOf(values)) && Free(FieldOf(values), {',', '|'})
    ensures Tokens(FieldOf(values), {':'}) == Texts(values)
  {
    var ts := Texts(values);
    forall i | 0 <= i < |ts| ensures ts[i] != [] && Numeric(ts[i]) && Free(ts[i], {':'}) && Free(ts[i], {',', '|'}) {
      DecTextProper(values[i]);
    }
    JoinNumeric(ts, ':');
    JoinFree(ts, ':', {',', '|'});
    TokensOfJoin(ts, ':');
  }

  // Printing a reading and reading it back.
  lemma ScalarRoundTrip(values: Reading)
    requires |values| == 1 && IsInt32(values[0])
    ensures Atoi(FieldOf(values)) == values[0]
  {
    AtoiOfDecText(values[0], []);
    assert FieldOf(values) == DecText(values[0]);
  }

  lemma TupleRoundTrip(values: Reading)
    requires values != [] && forall k | 0 <= k < |values| :: IsInt32(values[k])
    ensures HasValues(FieldOf(values), |values|) && Values(FieldOf(values), |values|) == values
  {
    FieldProper(values);
    forall k | 0 <= k < |values| ensures Atoi(Texts(values)[k]) == values[k] {
      AtoiOfDecText(values[k], []);
    }
  }

  // Readings of a module, for any number of ports
  ghost predicate ReadingsOf(m: int, readings: seq<Reading>) {
    && 1 <= |readings|
    && forall i | 0 <= i < |readings| ::
         |readings[i]| == Arity(m) && forall k | 0 <= k < Arity(m) :: IsInt32(readings[i][k])
  }

  // ... for no more than its array holds
  ghost predicate ReadingsFor(m: int, readings: seq<Reading>) {
    ReadingsOf(m, readings) && |readings| <= Capacity(m)
  }

  lemma FramePartsShaped(portMin: nat, portMax: nat, code: nat, readings: seq<Reading>)
    requires readings != [] && forall i | 0 <= i < |readings| :: readings[i] != []
    ensures WellShaped(FrameParts(portMin, portMax, code, readings)) && Proper(FieldsOf(readings), {','})
  {
    hide DecText, Join, FieldOf, Numeric;
    var fs := FieldsOf(readings);
    forall i | 0 <= i < |fs| ensures fs[i] != [] && Free(fs[i], {','}) && Numeric(fs[i]) {
      FieldProper(readings[i]);
    }
    JoinNumeric(fs, ',');
    DataFree(Join(fs, ','));
    NumberFree(portMin);
    NumberFree(portMax);
    NumberFree(code);
  }

  lemma DataFree(data: string)
    requires Numeric(data)
    ensures Free(data, {'m'})
  {
  }

  lemma NumberFree(n: nat)
    ensures DecText(n) != [] && Free(DecText(n), {'p', '-'}) && Free(DecText(n), {'d'})
  {
    hide DecText;
    DecTextProper(n);
    assert forall i | 0 <= i < |DecText(n)| :: DecText(n)[i] != '-';
  }

  lemma HasLetters(p: Parts, s: string)
    requires s == Assembled(p) && p.lead == "p" && p.mid == "-"
    ensures 'p' in s && '-' in s
  {
    assert s[0] == 'p' && s[1 + |p.min|] == '-';
  }

  lemma HeaderOfFrameParts(portMin: nat, portMax: nat, code: nat, readings: seq<Reading>)
    requires portMin < 256 && portMax < 256 && code < 256
    ensures HeaderOf(FrameParts(portMin, portMax, code, readings)) ==
            Header(portMin, portMax, Join(FieldsOf(readings), ','), code)
  {
    hide DecText, Strtoul, Join, FieldsOf, ToUint8;
    StrtoulOfDecText(portMin);
    StrtoulOfDecText(portMax);
    StrtoulOfDecText(code);
  }

  lemma FrameHeader(portMin: nat, portMax: nat, code: nat, readings: seq<Reading>, s: string)
    requires portMin < 256 && portMax < 256 && code < 256
    requires readings != [] && forall i | 0 <= i < |readings| :: readings[i] != []
    requires s == Frame(portMin, portMax, code, readings)
    ensures ParseHeader(s) == Parsed(Header(portMin, portMax, Join(FieldsOf(readings), ','), code))
  {
    hide ParseHeader, WellShaped, Assembled, HeaderOf, Join, FieldsOf;
    var p := FrameParts(portMin, portMax, code, readings);
    FramePartsShaped(portMin, portMax, code, readings);
    HeaderOfFrameParts(portMin, portMax, code, readings);
    HasLetters(p, s);
    ShapeParses(p, s);
  }

  // Parser correctness: the reply for any readings of a numeric module overflows the payload
  // buffer or is accepted, and then its i-th reading lands in the i-th slot of that module's
  // array, nowhere else.
  lemma ParseOfFrame(st: Store, portMin: nat, portMax: nat, m: int, readings: seq<Reading>)
    requires Shaped(st) && (IsScalar(m) || IsTuple(m)) && ReadingsFor(m, readings)
    requires portMax == portMin + |readings| - 1 < 255
    ensures ParseData(Frame(portMin, portMax, m, readings), st) ==
            if |Frame(portMin, portMax, m, readings)| < PAYLOAD_SIZE then
              Parse(EspOk, WithSlots(st, m, Overwrite(Slots(st, m), readings)).(gps := FIXED_GPS))
            else
              Parse(UndefinedBehaviour, st)
  {
    hide ParseHeader, Accept, Frame, Join, WithSlots, Overwrite, WellShaped;
    FramePartsShaped(portMin, portMax, m, readings);
    FrameHeader(portMin, portMax, m, readings, Frame(portMin, portMax, m, readings));
    AcceptReadings(st, Header(portMin, portMax, Join(FieldsOf(readings), ','), m), m, readings);
  }

  // Which array each module code stands for, and how many values a port of it has
  lemma ModuleTable(st: Store, portMin: nat, m: nat, readings: seq<Reading>)
    requires Shaped(st) && m in {1, 4, 6, 9, 11, 12} && ReadingsFor(m, readings)
    requires portMin + |readings| - 1 < 255
    requires |Frame(portMin, portMin + |readings| - 1, m, readings)| < 150
    ensures |readings[0]| == if m == 6 then 5 else if m == 9 then 2 else 1
    ensures var n := |readings|;
            var p := ParseData(Frame(portMin, portMin + n - 1, m, readings), st);
            && p.status == EspOk && n <= (if m == 1 then 3 else if m == 4 then 1 else if m == 6 then 4 else
                                          if m == 9 then 8 else 2)
            && p.store == (if m == 1 then st.(temperature := readings + st.temperature[n..])
                           else if m == 4 then st.(digitalInput := readings + st.digitalInput[n..])
                           else if m == 6 then st.(tank := readings + st.tank[n..])
                           else if m == 9 then st.(analog := readings + st.analog[n..])
                           else if m == 11 then st.(digitalOutput := readings + st.digitalOutput[n..])
                           else st.(fan := readings + st.fan[n..])).(gps := FIXED_GPS)
  {
    hide ParseData, Frame;
    ParseOfFrame(st, portMin, portMin + |readings| - 1, m, readings);
  }

  // Two replies letter by letter
  lemma WireForm()
    ensures Frame(0, 2, 1, [[21], [22], [23]]) ==
            "p" + "0" + "-" + "2" + "d" + "21" + "," + "22" + "," + "23" + "m" + "1"
    ensures Frame(10, 11, 9, [[1, 2], [-3, 4]]) ==
            "p" + "10" + "-" + "11" + "d" + "1" + ":" + "2" + "," + "-3" + ":" + "4" + "m" + "9"
  {
    hide Frame, FieldsOf, DecText, Join;
    SmallNumbers();
    Fields3([21], [22], [23]);
    Fields2([1, 2], [-3, 4]);
    Wire(0, 2, 1, [[21], [22], [23]]);
    Wire(10, 11, 9, [[1, 2], [-3, 4]]);
  }

  lemma Wire(portMin: nat, portMax: nat, m: nat, readings: seq<Reading>)
    ensures Frame(portMin, portMax, m, readings) ==
            "p" + DecText(portMin) + "-" + DecText(portMax) + "d" + Join(FieldsOf(readings), ',') + "m" + DecText(m)
  {
    hide DecText, Join, FieldsOf;
  }

  lemma SmallNumbers()
    ensures DecText(0) == "0" && DecText(1) == "1" && DecText(2) == "2" && DecText(4) == "4" && DecText(9) == "9"
    ensures DecText(10) == "10" && DecText(11) == "11" && DecText(-3) == "-3"
    ensures DecText(21) == "21" && DecText(22) == "22" && DecText(23) == "23"
  {
  }

  lemma Fields3(a: Reading, b: Reading, c: Reading)
    requires |a| == |b| == |c| == 1
    ensures Join(FieldsOf([a, b, c]), ',') == DecText(a[0]) + "," + DecText(b[0]) + "," + DecText(c[0])
  {
    hide DecText;
    assert FieldsOf([a, b, c]) == [DecText(a[0]), DecText(b[0]), DecText(c[0])];
    JoinOfThree(DecText(a[0]), DecText(b[0]), DecText(c[0]), ',');
  }

  lemma JoinOfTwo(x: string, y: string, c: char)
    ensures Join([x, y], c) == x + [c] + y
  {
    assert [x, y][1..] == [y];
  }

  lemma JoinOfThree(x: string, y: string, z: string, c: char)
    ensures Join([x, y, z], c) == x + [c] + y + [c] + z
  {
    assert [x, y, z][1..] == [y, z];
    JoinOfTwo(y, z, c);
  }

  lemma Fields2(a: Reading, b: Reading)
    requires |a| == |b| == 2
    ensures Join(FieldsOf([a, b]), ',') ==
            DecText(a[0]) + ":" + DecText(a[1]) + "," + (DecText(b[0]) + ":" + DecText(b[1]))
  {
    hide DecText;
    assert Texts(a) == [DecText(a[0]), DecText(a[1])] && Texts(b) == [DecText(b[0]), DecText(b[1])];
    assert FieldsOf([a, b]) == [FieldOf(a), FieldOf(b)];
    JoinOfTwo(DecText(a[0]), DecText(a[1]), ':');
    JoinOfTwo(DecText(b[0]), DecText(b[1]), ':');
    JoinOfTwo(FieldOf(a), FieldOf(b), ',');
  }

  lemma ScalarFieldsAllocate(m: int, portMin: nat, portMax: nat, fs: seq<string>, readings: seq<Reading>)
    requires IsScalar(m) && ReadingsFor(m, readings) && fs == FieldsOf(readings)
    requires portMax == portMin + |readings| - 1 < 255
    ensures Allocates(portMin, portMax, m, fs)
    ensures Scalars(fs, |readings|) == readings
  {
    hide FieldOf, Atoi;
    forall i | 0 <= i < |readings| ensures [Atoi(fs[i])] == readings[i] {
      ScalarRoundTrip(readings[i]);
    }
  }

  lemma {:induction false} TuplesOfFields(arity: nat, readings: seq<Reading>, fs: seq<string>, n: nat)
    requires n <= |readings| == |fs| && arity > 0
    requires forall i | 0 <= i < n :: fs[i] == FieldOf(readings[i])
    requires forall i | 0 <= i < n :: |readings[i]| == arity && forall k | 0 <= k < arity :: IsInt32(readings[i][k])
    ensures AllHaveValues(fs, arity, n) && Tuples(fs, arity, n) == readings[..n]
  {
    hide HasValues, Values, FieldOf;
    if n == 0 {
    } else {
      TuplesOfFields(arity, readings, fs, n - 1);
      TupleRoundTrip(readings[n - 1]);
      assert readings[..n] == readings[..n - 1] + [readings[n - 1]];
    }
  }

  lemma TupleFieldsAllocate(m: int, portMin: nat, portMax: nat, fs: seq<string>, readings: seq<Reading>)
    requires IsTuple(m) && ReadingsFor(m, readings) && fs == FieldsOf(readings)
    requires portMax == portMin + |readings| - 1 < 255
    ensures Allocates(portMin, portMax, m, fs)
    ensures Tuples(fs, Arity(m), |readings|) == readings
  {
    hide AllHaveValues, FieldOf, Tuples, HasValues;
    TuplesOfFields(Arity(m), readings, fs, |readings|);
    assert readings[..|readings|] == readings;
  }

  lemma AcceptBy(st: Store, h: Header, fs: seq<string>)
    requires Shaped(st) && h.code != 0 && fs == Tokens(h.data, {','})
    requires Count(h.data, {','}) == h.portMax - h.portMin < 256
    requires Allocates(h.portMin, h.portMax, h.code, fs)
    ensures Accept(h, st) == Parse(EspOk, Allocated(st, h.portMin, h.portMax, h.code, fs))
  {
  }

  lemma AcceptReadings(st: Store, h: Header, m: int, readings: seq<Reading>)
    requires Shaped(st) && (IsScalar(m) || IsTuple(m)) && ReadingsFor(m, readings)
    requires h.portMax == h.portMin + |readings| - 1 < 255 && h.code == m
    requires h.data == Join(FieldsOf(readings), ',') && Proper(FieldsOf(readings), {','})
    ensures Accept(h, st) == Parse(EspOk, WithSlots(st, m, Overwrite(Slots(st, m), readings)).(gps := FIXED_GPS))
  {
    hide Accept, Tokens, Count, Allocates, Scalars, Tuples, Join;
    var fs := FieldsOf(readings);
    TokensOfJoin(fs, ',');
    if IsScalar(m) {
      ScalarFieldsAllocate(m, h.portMin, h.portMax, fs, readings);
    } else {
      TupleFieldsAllocate(m, h.portMin, h.portMax, fs, readings);
    }
    AcceptBy(st, h, fs);
  }

  // ---- How long replies are --------------------------------------------------

  lemma {:induction false} JoinLength(ts: seq<string>, c: char, n: nat)
    requires forall i | 0 <= i < |ts| :: |ts[i]| <= n
    ensures |Join(ts, c)| <= |ts| * (n + 1)
  {
    if |ts| <= 1 {
    } else {
      JoinLength(ts[1..], c, n);
    }
  }

  lemma {:induction false} JoinLengthIs(ts: seq<string>, c: char, n: nat)
    requires ts != [] && forall i | 0 <= i < |ts| :: |ts[i]| == n
    ensures |Join(ts, c)| == |ts| * (n + 1) - 1
  {
    if |ts| == 1 {
    } else {
      JoinLengthIs(ts[1..], c, n);
    }
  }

  lemma FrameLength(portMin: nat, portMax: nat, code: nat, readings: seq<Reading>)
    ensures |Frame(portMin, portMax, code, readings)| ==
            |DecText(portMin)| + |DecText(portMax)| + |DecText(code)| + |Join(FieldsOf(readings), ',')| + 4
  {
    hide DecText, Join, FieldsOf;
  }

  // A reply whose values have at most w characters each
  lemma FrameShort(m: nat, portMin: nat, portMax: nat, readings: seq<Reading>, w: nat)
    requires portMin < 1000 && portMax < 1000 && m < 100
    requires forall i | 0 <= i < |readings| ::
               |readings[i]| == Arity(m) && forall k | 0 <= k < Arity(m) :: |DecText(readings[i][k])| <= w
    ensures |Frame(portMin, portMax, m, readings)| <=
            |DecText(portMin)| + |DecText(portMax)| + 6 + |readings| * (Arity(m) * (w + 1) + 1)
  {
    hide DecText, Join, Frame;
    FrameLength(portMin, portMax, m, readings);
    DecTextShort(m, 2) by { assert PowerOfTen(2) == 100; }
    var fs := FieldsOf(readings);
    forall i | 0 <= i < |fs| ensures |fs[i]| <= Arity(m) * (w + 1) {
      JoinLength(Texts(readings[i]), ':', w);
    }
    JoinLength(fs, ',', Arity(m) * (w + 1));
  }

  // The largest number of readings with which every reply of the module fits the payload buffer
  function ReplyLimit(m: int): nat {
    if m == LIQUID then 2 else if m == ANALOG then 5 else Capacity(m)
  }

  lemma ReplyFits(m: nat, readings: seq<Reading>)
    requires m in {TEMPERATURE, LIQUID, ANALOG, DIGITAL_OUTPUT, FAN}
    requires ReadingsFor(m, readings) && |readings| <= ReplyLimit(m)
    ensures |Frame(Base(m), Base(m) + |readings| - 1, m, readings)| < PAYLOAD_SIZE
  {
    hide DecText, Frame;
    forall i, k | 0 <= i < |readings| && 0 <= k < Arity(m) ensures |DecText(readings[i][k])| <= 11 {
      DecTextFitsScratch(readings[i][k]);
    }
    FrameShort(m, Base(m), Base(m) + |readings| - 1, readings, 11);
    assert PowerOfTen(2) == 100;
    DecTextShort(Base(m), 2);
    DecTextShort(Base(m) + |readings| - 1, 2);
  }

  // A reply of single-digit values fits, whatever ports it announces.
  lemma SmallReplyFits(m: nat, portMin: nat, portMax: nat, readings: seq<Reading>)
    requires m in {TEMPERATURE, LIQUID, ANALOG, DIGITAL_OUTPUT, FAN} && ReadingsFor(m, readings)
    requires portMin < 1000 && portMax < 1000
    requires forall i, k | 0 <= i < |readings| && 0 <= k < Arity(m) :: 0 <= readings[i][k] < 10
    ensures |Frame(portMin, portMax, m, readings)| < PAYLOAD_SIZE
  {
    hide DecText, Frame;
    assert PowerOfTen(1) == 10 && PowerOfTen(3) == 1000;
    forall i, k | 0 <= i < |readings| && 0 <= k < Arity(m) ensures |DecText(readings[i][k])| <= 1 {
      DecTextShort(readings[i][k], 1);
    }
    FrameShort(m, portMin, portMax, readings, 1);
    DecTextShort(portMin, 3);
    DecTextShort(portMax, 3);
  }

  // The longest reply of n readings
  function Longest(m: nat, n: nat): (readings: seq<Reading>)
    ensures |readings| == n && forall i | 0 <= i < n :: readings[i] == Constant(Arity(m), INT32_MIN)
  {
    seq(n, _ => Constant(Arity(m), INT32_MIN))
  }

  lemma LongReply(m: nat, n: nat)
    requires m in {LIQUID, ANALOG} && ReplyLimit(m) < n <= Capacity(m)
    ensures ReadingsFor(m, Longest(m, n))
    ensures |Frame(Base(m), Base(m) + n - 1, m, Longest(m, n))| >= PAYLOAD_SIZE
  {
    hide DecText, Join, Frame;
    var readings := Longest(m, n);
    FrameLength(Base(m), Base(m) + n - 1, m, readings);
    var fs := FieldsOf(readings);
    DecTextLongest();
    forall i | 0 <= i < n ensures |fs[i]| == Arity(m) * 12 - 1 {
      JoinLengthIs(Texts(readings[i]), ':', 11);
    }
    JoinLengthIs(fs, ',', Arity(m) * 12 - 1);
    NumberLength(Base(m));
    NumberLength(Base(m) + n - 1);
    NumberLength(m);
  }

  lemma NumberLength(n: nat)
    ensures |DecText(n)| >= if n >= 10 then 2 else 1
  {
    assert PowerOfTen(1) == 10;
    if n >= 10 { NatTextLonger(n, 2); }
  }

  // A reply with more readings than the array holds is undefined, wherever it starts below the
  // last port: it overflows the payload copy or is stored past the array's end.
  lemma OverfullReply(m: nat, portMin: nat, readings: seq<Reading>, st: Store)
    requires m in {TEMPERATURE, LIQUID, ANALOG, DIGITAL_OUTPUT, FAN} && ReadingsOf(m, readings) && Shaped(st)
    requires |readings| > Capacity(m) && portMin < 100
    ensures ParseData(Frame(portMin, portMin + |readings| - 1, m, readings), st).status == UndefinedBehaviour
  {
    hide ParseHeader, Frame, Accept, Shaped, Join, FieldsOf;
    var portMax := portMin + |readings| - 1;
    var s := Frame(portMin, portMax, m, readings);
    if |s| < PAYLOAD_SIZE {
      FrameAtLeast(portMin, portMax, m, readings);
      FrameHeader(portMin, portMax, m, readings, s);
      FramePartsShaped(portMin, portMax, m, readings);
      OverfullFields(Header(portMin, portMax, Join(FieldsOf(readings), ','), m), readings, st);
    }
  }

  lemma OverfullFields(h: Header, readings: seq<Reading>, st: Store)
    requires h.code in {TEMPERATURE, LIQUID, ANALOG, DIGITAL_OUTPUT, FAN} && Shaped(st)
    requires |readings| > Capacity(h.code) && h.portMax == h.portMin + |readings| - 1 < 255
    requires h.data == Join(FieldsOf(readings), ',') && Proper(FieldsOf(readings), {','})
    ensures Accept(h, st).status == UndefinedBehaviour
  {
    hide Tokens, Count, Join, FieldsOf, Shaped, Scalars, Tuples, AllHaveValues;
    TokensOfJoin(FieldsOf(readings), ',');
  }

  // Every reading takes at least one character and a comma.
  lemma FrameAtLeast(portMin: nat, portMax: nat, code: nat, readings: seq<Reading>)
    requires readings != [] && forall i | 0 <= i < |readings| :: readings[i] != []
    ensures |Frame(portMin, portMax, code, readings)| >= 2 * |readings|
  {
    hide DecText, Join, Frame, FieldOf;
    FrameLength(portMin, portMax, code, readings);
    var fs := FieldsOf(readings);
    forall i | 0 <= i < |fs| ensures |fs[i]| >= 1 { FieldProper(readings[i]); }
    JoinAtLeast(fs, ',');
  }

  lemma {:induction false} JoinAtLeast(ts: seq<string>, c: char)
    requires ts != [] && forall i | 0 <= i < |ts| :: |ts[i]| >= 1
    ensures |Join(ts, c)| >= 2 * |ts| - 1
  {
    if |ts| == 1 {
    } else {
      JoinAtLeast(ts[1..], c);
    }
  }

  // For how many readings every reply from the module's first port fits the payload buffer
  lemma EveryReplyFitsIff(m: nat, n: nat)
    requires m in {TEMPERATURE, LIQUID, ANALOG, DIGITAL_OUTPUT, FAN} && 1 <= n <= Capacity(m)
    ensures (forall readings | ReadingsFor(m, readings) && |readings| == n ::
               |Frame(Base(m), Base(m) + n - 1, m, readings)| < PAYLOAD_SIZE) <==> n <= ReplyLimit(m)
  {
    hide Frame, ReadingsFor;
    if n <= ReplyLimit(m) {
      forall readings | ReadingsFor(m, readings) && |readings| == n
        ensures |Frame(Base(m), Base(m) + n - 1, m, readings)| < PAYLOAD_SIZE
      {
        ReplyFits(m, readings);
      }
    } else {
      LongReply(m, n);
    }
  }
}
