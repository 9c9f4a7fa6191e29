// The sensor families, what allocate_data stores for them, and what the web buffer prints.
module Sensors {
  import opened DecimalText
  import opened Tokenizing

  // ModulosApp codes (main/serial_controller.h:135-150)
  const TEMPERATURE := 1
  const DIGITAL_INPUT := 4
  const LIQUID := 6
  const INCLINATION := 7
  const GPS := 8
  const ANALOG := 9
  const DIGITAL_OUTPUT := 11
  const FAN := 12

  // A struct with n int fields valor1..valorn is the sequence of its n values.
  type Reading = seq<int>

  datatype Gps = Gps(fix: bool, time: Option<string>, latitude: string, longitude: string, error: nat)

  // The constants written after every allocation (main/serial_controller.h:816-823), the two
  // single-precision ones as "%f" prints them.
  const FIXED_GPS := Gps(true, Some("1677863090000"), "41.261059", "1.775043", 3)

  datatype Store = Store(temperature: seq<Reading>, digitalInput: seq<Reading>, tank: seq<Reading>,
                         inclination: seq<Reading>, analog: seq<Reading>, digitalOutput: seq<Reading>,
                         fan: seq<Reading>, gps: Gps)

  // modulos_response
  datatype Flags = Flags(temperature: bool, liquid: bool, digitalInput: bool, inclination: bool, gps: bool,
                         analog: bool, digitalOutput: bool, fan: bool)

  // Array sizes (main/serial_controller.h:27-34)
  function Capacity(m: int): nat {
    if m == TEMPERATURE then 3 else if m == LIQUID then 4 else if m == ANALOG then 8
    else if m == DIGITAL_OUTPUT || m == FAN then 2 else 1
  }

  // Values per port
  function Arity(m: int): (n: nat)
    ensures n >= 1
  {
    if m == LIQUID then 5 else if m == INCLINATION then 3 else if m == ANALOG then 2 else 1
  }

  predicate IsScalar(m: int) {
    m == TEMPERATURE || m == DIGITAL_INPUT || m == DIGITAL_OUTPUT || m == FAN
  }

  predicate IsTuple(m: int) {
    m == LIQUID || m == ANALOG
  }

  function Constant(arity: nat, v: int): (r: Reading)
    ensures |r| == arity && forall k | 0 <= k < arity :: r[k] == v
  {
    seq(arity, _ => v)
  }

  // The array of a family
  function Slots(st: Store, m: int): seq<Reading> {
    if m == TEMPERATURE then st.temperature else if m == DIGITAL_INPUT then st.digitalInput
    else if m == LIQUID then st.tank else if m == INCLINATION then st.inclination
    else if m == ANALOG then st.analog else if m == DIGITAL_OUTPUT then st.digitalOutput
    else if m == FAN then st.fan else []
  }

  function WithSlots(st: Store, m: int, slots: seq<Reading>): Store {
    if m == TEMPERATURE then st.(temperature := slots) else if m == DIGITAL_INPUT then st.(digitalInput := slots)
    else if m == LIQUID then st.(tank := slots) else if m == ANALOG then st.(analog := slots)
    else if m == DIGITAL_OUTPUT then st.(digitalOutput := slots) else if m == FAN then st.(fan := slots) else st
  }

  ghost predicate ShapedSlots(slots: seq<Reading>, m: int) {
    && |slots| == Capacity(m)
    && forall i | 0 <= i < |slots| :: |slots[i]| == Arity(m) && forall k | 0 <= k < Arity(m) :: IsInt32(slots[i][k])
  }

  // The arrays have their sizes, every slot its int fields.
  ghost predicate Shaped(st: Store) {
    && ShapedSlots(st.temperature, TEMPERATURE) && ShapedSlots(st.digitalInput, DIGITAL_INPUT)
    && ShapedSlots(st.tank, LIQUID) && ShapedSlots(st.inclination, INCLINATION)
    && ShapedSlots(st.analog, ANALOG) && ShapedSlots(st.digitalOutput, DIGITAL_OUTPUT)
    && ShapedSlots(st.fan, FAN)
  }

  // ---- allocate_data --------------------------------------------------------

  // How often `while(port <= port_max)` runs, for port_max < 255.
  function PortCount(portMin: nat, portMax: nat): nat {
    if portMax < portMin then 0 else portMax - portMin + 1
  }

  // The loop ends, and indexes neither the fields nor the array beyond their ends. With
  // portMax == 255 the 8-bit port wraps and the guard never fails.
  predicate Fits(portMin: nat, portMax: nat, fields: nat, capacity: nat) {
    || portMax < portMin
    || (portMax < 255 && PortCount(portMin, portMax) <= fields && PortCount(portMin, portMax) <= capacity)
  }

  function Scalars(fields: seq<string>, n: nat): (r: seq<Reading>)
    requires n <= |fields|
    ensures |r| == n && forall i | 0 <= i < n :: r[i] == [Atoi(fields[i])]
  {
    if n == 0 then [] else Scalars(fields, n - 1) + [[Atoi(fields[n - 1])]]
  }

  function Numbers(texts: seq<string>, n: nat): (r: Reading)
    requires n <= |texts|
    ensures |r| == n && forall k | 0 <= k < n :: r[k] == Atoi(texts[k])
  {
    if n == 0 then [] else Numbers(texts, n - 1) + [Atoi(texts[n - 1])]
  }

  predicate HasValues(field: string, arity: nat) {
    arity <= |Tokens(field, {':'})|
  }

  // The first `arity` values of a field like "a:b:c".
  function Values(field: string, arity: nat): (r: Reading)
    ensures forall k | 0 <= k < |r| :: IsInt32(r[k])
    ensures HasValues(field, arity) ==> |r| == arity
  {
    var ts := Tokens(field, {':'});
    Numbers(ts, if arity <= |ts| then arity else |ts|)
  }

  function Tuples(fields: seq<string>, arity: nat, n: nat): (r: seq<Reading>)
    requires n <= |fields|
    ensures |r| == n
  {
    if n == 0 then [] else Tuples(fields, arity, n - 1) + [Values(fields[n - 1], arity)]
  }

  // No field among the first n is short of values.
  predicate AllHaveValues(fields: seq<string>, arity: nat, n: nat)
    requires n <= |fields|
  {
    n == 0 || (AllHaveValues(fields, arity, n - 1) && HasValues(fields[n - 1], arity))
  }

  lemma {:induction false} AllHaveValuesIff(fields: seq<string>, arity: nat, n: nat)
    requires n <= |fields|
    ensures AllHaveValues(fields, arity, n) <==> forall i | 0 <= i < n :: HasValues(fields[i], arity)
  {
    hide HasValues;
    if n == 0 {
    } else {
      AllHaveValuesIff(fields, arity, n - 1);
    }
  }

  lemma {:induction false} TuplesShaped(fields: seq<string>, arity: nat, n: nat)
    requires n <= |fields| && AllHaveValues(fields, arity, n)
    ensures forall i | 0 <= i < n ::
              && |Tuples(fields, arity, n)[i]| == arity
              && forall k | 0 <= k < arity :: IsInt32(Tuples(fields, arity, n)[i][k])
  {
    if n == 0 {
    } else {
      TuplesShaped(fields, arity, n - 1);
    }
  }

  function Overwrite(slots: seq<Reading>, front: seq<Reading>): seq<Reading>
    requires |front| <= |slots|
  {
    front + slots[|front|..]
  }

  // The fields a frame carries are enough for its ports and module.
  predicate Allocates(portMin: nat, portMax: nat, m: int, fields: seq<string>) {
    var n := PortCount(portMin, portMax);
    if IsScalar(m) then Fits(portMin, portMax, |fields|, Capacity(m))
    else if IsTuple(m) then
      n <= |fields| && Fits(portMin, portMax, |fields|, Capacity(m)) && AllHaveValues(fields, Arity(m), n)
    else if m == GPS then n <= |fields| && Fits(portMin, portMax, |fields|, 1) && AllHaveValues(fields, 8, n)
    else if m == INCLINATION then Fits(portMin, portMax, |fields|, |fields|)
    else true
  }

  // allocate_data as a whole, where its behaviour is defined.
  function Allocated(st: Store, portMin: nat, portMax: nat, m: int, fields: seq<string>): Store
    requires Allocates(portMin, portMax, m, fields)
    requires |Slots(st, m)| >= if IsScalar(m) || IsTuple(m) then Capacity(m) else 0
  {
    var n := PortCount(portMin, portMax);
    var st' :=
      if IsScalar(m) then WithSlots(st, m, Overwrite(Slots(st, m), Scalars(fields, n)))
      else if IsTuple(m) then WithSlots(st, m, Overwrite(Slots(st, m), Tuples(fields, Arity(m), n)))
      else st;
    st'.(gps := FIXED_GPS)
  }

  lemma OverwriteShaped(slots: seq<Reading>, front: seq<Reading>, m: int)
    requires ShapedSlots(slots, m) && |front| <= |slots|
    requires forall i | 0 <= i < |front| ::
               |front[i]| == Arity(m) && forall k | 0 <= k < Arity(m) :: IsInt32(front[i][k])
    ensures ShapedSlots(Overwrite(slots, front), m)
  {
  }

  lemma WithSlotsShaped(st: Store, m: int, slots: seq<Reading>)
    requires Shaped(st) && ShapedSlots(slots, m)
    ensures Shaped(WithSlots(st, m, slots))
  {
  }

  // Every allocation keeps the shape of the arrays.
  lemma AllocatedShaped(st: Store, portMin: nat, portMax: nat, m: int, fields: seq<string>)
    requires Shaped(st) && Allocates(portMin, portMax, m, fields)
    ensures Shaped(Allocated(st, portMin, portMax, m, fields))
  {
    if IsScalar(m) || IsTuple(m) {
      var n := PortCount(portMin, portMax);
      assert ShapedSlots(Slots(st, m), m);
      if IsTuple(m) { TuplesShaped(fields, Arity(m), n); }
      var front := if IsScalar(m) then Scalars(fields, n) else Tuples(fields, Arity(m), n);
      OverwriteShaped(Slots(st, m), front, m);
      WithSlotsShaped(st, m, Overwrite(Slots(st, m), front));
    }
  }

  // ---- vector_positions and the ports --------------------------------------

  // First port of a family (main/serial_controller.h:477-538)
  function Base(m: int): nat {
    if m == TEMPERATURE then 0 else if m == DIGITAL_INPUT then 4 else if m == LIQUID then 5
    else if m == INCLINATION then 9 else if m == ANALOG then 10 else if m == GPS then 18
    else if m == FAN then 40 else 42
  }

  function VectorPositions(port: nat): nat {
    match port
    case 0 => 0 case 1 => 1 case 2 => 2
    case 5 => 0 case 6 => 1 case 7 => 2 case 8 => 3
    case 9 => 0
    case 10 => 0 case 11 => 1 case 12 => 2 case 13 => 3 case 14 => 4 case 15 => 5 case 16 => 6 case 17 => 7
    case 18 => 0
    case 40 => 0 case 41 => 1
    case 42 => 0 case 43 => 1
    case _ => 255
  }

  // The branch web_buffer_constructor takes for a port; 0 when it takes none.
  function FamilyOf(port: nat): int {
    if port <= 2 then TEMPERATURE
    else if port == 4 then DIGITAL_INPUT
    else if 5 <= port <= 8 then LIQUID
    else if port == 9 then INCLINATION
    else if 10 <= port <= 17 then ANALOG
    else if port == 18 then GPS
    else if 40 <= port <= 41 then FAN
    else if 42 <= port <= 43 then DIGITAL_OUTPUT
    else 0
  }

  function Answered(flags: Flags, m: int): bool {
    if m == TEMPERATURE then flags.temperature else if m == DIGITAL_INPUT then flags.digitalInput
    else if m == LIQUID then flags.liquid else if m == INCLINATION then flags.inclination
    else if m == ANALOG then flags.analog else if m == GPS then flags.gps
    else if m == FAN then flags.fan else flags.digitalOutput
  }

  // The two index schemes agree on every port of every family except the digital input's
  // port 4, which vector_positions does not know.
  lemma IndexSchemesAgree(port: nat)
    requires FamilyOf(port) != 0
    ensures var m := FamilyOf(port);
            && Base(m) <= port < Base(m) + Capacity(m)
            && (VectorPositions(port) == port - Base(m) <==> port != 4)
            && (VectorPositions(port) < Capacity(m) <==> port != 4)
  {
  }

  // ... and every slot of every array is some port's.
  lemma FamilyOfSlot(m: int, i: nat)
    requires m in {TEMPERATURE, DIGITAL_INPUT, LIQUID, INCLINATION, GPS, ANALOG, DIGITAL_OUTPUT, FAN}
    requires i < Capacity(m)
    ensures FamilyOf(Base(m) + i) == m
  {
  }

  // ---- web_buffer_constructor ----------------------------------------------

  function Texts(values: seq<int>): (ts: seq<string>)
    ensures |ts| == |values| && forall k | 0 <= k < |ts| :: ts[k] == DecText(values[k])
  {
    if values == [] then [] else [DecText(values[0])] + Texts(values[1..])
  }

  function Bit(b: bool): string {
    if b then "1" else "0"
  }

  // The five GPS values that are printed
  function GpsFields(g: Gps): seq<string>
    requires g.time.Some?
  {
    [Bit(g.fix), g.time.value, g.latitude, g.longitude, DecText(g.error)]
  }

  // What the port's branch appends, or None where it would read outside an array or
  // through the null timestamp.
  function Payload(st: Store, flags: Flags, port: nat): Option<string>
    requires Shaped(st)
  {
    var m := FamilyOf(port);
    if m == 0 then Some("")
    else if !Answered(flags, m) then Some("-")
    else if m == DIGITAL_INPUT then None
    else if m == GPS then
      if st.gps.time.None? then None
      else Some(Join(GpsFields(st.gps), ':'))
    else
      IndexSchemesAgree(port);
      Some(Join(Texts(Slots(st, m)[VectorPositions(port)]), ':'))
  }

  // The text for one loaded key, without the closing bar.
  function Record(st: Store, flags: Flags, key: nat, port: nat): Option<string>
    requires Shaped(st)
  {
    match Payload(st, flags, port)
    case None => None
    case Some(payload) => Some(DecText(key) + ":" + DecText(port) + ":" + payload)
  }
}
