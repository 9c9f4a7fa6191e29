// Several HTTP clients on the one pair of static variables of _http_event_handler: the login, the
// telemetry, the panic and the alarm task run at the same time, and the last three also share a
// response buffer (main/http_client_controller.h:43-116, 322-362).
module SharedAccumulator {
  import opened Octets
  import opened HttpAccumulator

  // An event of one of the clients
  datatype Turn = Turn(client: nat, event: Event)

  function Appended(e: Event): seq<byte> {
    if e.Data? && !e.chunked then e.bytes else []
  }

  function Resets(e: Event): bool {
    e.Finish? || e.Disconnected?
  }

  // What output_len becomes
  function SharedLen(turns: seq<Turn>): nat {
    if turns == [] then 0
    else
      var n := |turns| - 1;
      if Resets(turns[n].event) then 0 else SharedLen(turns[..n]) + |Appended(turns[n].event)|
  }

  // The events of one client
  function EventsOf(turns: seq<Turn>, c: nat): seq<Event> {
    if turns == [] then []
    else
      var n := |turns| - 1;
      EventsOf(turns[..n], c) + if turns[n].client == c then [turns[n].event] else []
  }

  // A client's own response so far
  function Own(turns: seq<Turn>, c: nat): seq<byte> {
    Body(EventsOf(turns, c))
  }

  function Overwritten(buffer: seq<byte>, at: nat, bytes: seq<byte>): (r: seq<byte>)
    ensures |r| == |buffer|
  {
    if at + |bytes| <= |buffer| then buffer[..at] + bytes + buffer[at + |bytes|..] else buffer
  }

  // What response buffer b becomes, from zeros; `bufferOf` says which buffer a client was given.
  function Contents(turns: seq<Turn>, bufferOf: nat -> nat, size: nat, b: nat): (r: seq<byte>)
    ensures |r| == size
  {
    if turns == [] then seq(size, _ => 0)
    else
      var n := |turns| - 1;
      var before := Contents(turns[..n], bufferOf, size, b);
      if bufferOf(turns[n].client) == b then Overwritten(before, SharedLen(turns[..n]), Appended(turns[n].event))
      else before
  }

  // Every write ends inside the buffer.
  ghost predicate InBounds(turns: seq<Turn>, size: nat) {
    forall i | 0 <= i < |turns| :: SharedLen(turns[..i]) + |Appended(turns[i].event)| <= size
  }

  lemma TurnsNext(turns: seq<Turn>, t: Turn, bufferOf: nat -> nat, size: nat, b: nat, c: nat)
    ensures SharedLen(turns + [t]) == if Resets(t.event) then 0 else SharedLen(turns) + |Appended(t.event)|
    ensures Own(turns + [t], c) ==
            if t.client != c then Own(turns, c) else if Resets(t.event) then [] else Own(turns, c) + Appended(t.event)
    ensures Contents(turns + [t], bufferOf, size, b) ==
            if bufferOf(t.client) == b then
              Overwritten(Contents(turns, bufferOf, size, b), SharedLen(turns), Appended(t.event))
            else Contents(turns, bufferOf, size, b)
  {
    hide Overwritten;
    assert (turns + [t])[..|turns|] == turns;
    OwnNext(EventsOf(turns, c), t.event);
    assert EventsOf(turns, c) + [] == EventsOf(turns, c);
  }

  lemma OwnNext(events: seq<Event>, e: Event)
    ensures Body(events + [e]) == if Resets(e) then [] else Body(events) + Appended(e)
  {
    assert (events + [e])[..|events|] == events;
    assert Body(events) + [] == Body(events);
  }

  // ---- The runs in which every response is intact -----------------------------------

  // At every moment, every client's buffer starts with its own response.
  ghost predicate Intact(turns: seq<Turn>, bufferOf: nat -> nat, size: nat) {
    forall i: nat, c: nat | i <= |turns| :: StartsWithOwn(turns[..i], bufferOf, size, c)
  }

  ghost predicate StartsWithOwn(turns: seq<Turn>, bufferOf: nat -> nat, size: nat, c: nat) {
    Own(turns, c) <= Contents(turns, bufferOf, size, bufferOf(c))
  }

  // The write goes behind the client's own response, and not into another one of the same buffer.
  ghost predicate Undisturbed(turns: seq<Turn>, t: Turn, bufferOf: nat -> nat) {
    Appended(t.event) != [] ==>
      && SharedLen(turns) == |Own(turns, t.client)|
      && forall c: nat | bufferOf(c) == bufferOf(t.client) :: |Own(turns, c)| <= SharedLen(turns)
  }

  ghost predicate Disciplined(turns: seq<Turn>, bufferOf: nat -> nat) {
    forall i | 0 <= i < |turns| :: Undisturbed(turns[..i], turns[i], bufferOf)
  }

  lemma {:induction false} DisciplinedIntact(turns: seq<Turn>, bufferOf: nat -> nat, size: nat, c: nat)
    requires Disciplined(turns, bufferOf) && InBounds(turns, size)
    ensures StartsWithOwn(turns, bufferOf, size, c)
  {
    hide Own, Contents, SharedLen, Overwritten;
    if turns == [] {
      NoTurns(bufferOf, size, c);
    } else {
      var n := |turns| - 1;
      PrefixKept(turns, bufferOf, size, n);
      DisciplinedIntact(turns[..n], bufferOf, size, c);
      assert turns == turns[..n] + [turns[n]];
      TurnsNext(turns[..n], turns[n], bufferOf, size, bufferOf(c), c);
      WriteKeeps(Own(turns[..n], c), Contents(turns[..n], bufferOf, size, bufferOf(c)), SharedLen(turns[..n]),
                 Appended(turns[n].event));
    }
  }

  lemma NoTurns(bufferOf: nat -> nat, size: nat, c: nat)
    ensures StartsWithOwn([], bufferOf, size, c) && Own([], c) == [] && SharedLen([]) == 0
  {
  }

  lemma PrefixKept(turns: seq<Turn>, bufferOf: nat -> nat, size: nat, n: nat)
    requires n <= |turns|
    ensures Disciplined(turns, bufferOf) ==> Disciplined(turns[..n], bufferOf)
    ensures InBounds(turns, size) ==> InBounds(turns[..n], size)
  {
    hide Undisturbed, SharedLen;
    assert forall i | 0 <= i < n :: turns[..n][..i] == turns[..i] && turns[..n][i] == turns[i];
  }

  // A write behind a response keeps it, and right behind it extends it.
  lemma WriteKeeps(own: seq<byte>, buffer: seq<byte>, at: nat, bytes: seq<byte>)
    requires own <= buffer && at + |bytes| <= |buffer|
    ensures |own| <= at ==> own <= Overwritten(buffer, at, bytes)
    ensures |own| == at ==> own + bytes <= Overwritten(buffer, at, bytes)
    ensures bytes == [] ==> Overwritten(buffer, at, bytes) == buffer && own + bytes == own
  {
  }

  // ---- Other contents of the same lengths ---------------------------------------------

  // The same events but for the bytes they carry
  ghost predicate SameShape(turns: seq<Turn>, turns': seq<Turn>) {
    |turns| == |turns'| && forall i | 0 <= i < |turns| :: SameTurn(turns[i], turns'[i])
  }

  predicate SameTurn(t: Turn, t': Turn) {
    && t.client == t'.client && Resets(t.event) == Resets(t'.event)
    && |Appended(t.event)| == |Appended(t'.event)|
  }

  lemma {:induction false} SameLengths(turns: seq<Turn>, turns': seq<Turn>, c: nat)
    requires SameShape(turns, turns')
    ensures SharedLen(turns) == SharedLen(turns') && |Own(turns, c)| == |Own(turns', c)|
  {
    hide Own, SharedLen;
    if turns == [] {
    } else {
      var n := |turns| - 1;
      SameLengths(turns[..n], turns'[..n], c);
      assert turns == turns[..n] + [turns[n]] && turns' == turns'[..n] + [turns'[n]];
      TurnsNext(turns[..n], turns[n], x => x, 0, 0, c);
      TurnsNext(turns'[..n], turns'[n], x => x, 0, 0, c);
    }
  }

  lemma SameDiscipline(turns: seq<Turn>, turns': seq<Turn>, bufferOf: nat -> nat, size: nat)
    requires SameShape(turns, turns')
    ensures Disciplined(turns, bufferOf) ==> Disciplined(turns', bufferOf)
    ensures InBounds(turns, size) ==> InBounds(turns', size)
  {
    hide Own, SharedLen;
    forall i: nat, c: nat | i < |turns|
      ensures SharedLen(turns[..i]) == SharedLen(turns'[..i]) && |Own(turns[..i], c)| == |Own(turns'[..i], c)|
    {
      SameLengths(turns[..i], turns'[..i], c);
    }
    if Disciplined(turns, bufferOf) {
      forall i | 0 <= i < |turns'| ensures Undisturbed(turns'[..i], turns'[i], bufferOf) {
        assert Undisturbed(turns[..i], turns[i], bufferOf) && SameTurn(turns[i], turns'[i]);
      }
    }
    if InBounds(turns, size) {
      forall i | 0 <= i < |turns'| ensures SharedLen(turns'[..i]) + |Appended(turns'[i].event)| <= size {
        SameLengths(turns[..i], turns'[..i], 0);
        assert SameTurn(turns[i], turns'[i]);
      }
    }
  }

  // The same events carrying the one byte v
  function Painted(e: Event, v: byte): Event {
    if e.Data? then Data(seq(|e.bytes|, _ => v), e.chunked, e.contentLength) else e
  }

  // ... ones up to event i, twos from there on
  function Repainted(turns: seq<Turn>, i: nat): (r: seq<Turn>)
    ensures |r| == |turns|
    ensures forall j | 0 <= j < |r| :: r[j] == Turn(turns[j].client, Painted(turns[j].event, if j < i then 1 else 2))
  {
    seq(|turns|, j requires 0 <= j < |turns| =>
      Turn(turns[j].client, Painted(turns[j].event, if j < i then 1 else 2)))
  }

  ghost predicate Ones(turns: seq<Turn>) {
    forall j | 0 <= j < |turns| :: forall k | 0 <= k < |Appended(turns[j].event)| :: Appended(turns[j].event)[k] == 1
  }

  ghost predicate AllIn(s: seq<byte>, values: set<byte>) {
    forall k | 0 <= k < |s| :: s[k] in values
  }

  lemma {:induction false} OnesStay(turns: seq<Turn>, bufferOf: nat -> nat, size: nat, b: nat, c: nat)
    requires Ones(turns)
    ensures AllIn(Own(turns, c), {1}) && AllIn(Contents(turns, bufferOf, size, b), {0, 1})
  {
    hide Own, Contents, SharedLen;
    if turns == [] {
      NothingWritten(bufferOf, size, b, c);
    } else {
      var n := |turns| - 1;
      OnesStay(turns[..n], bufferOf, size, b, c);
      assert turns == turns[..n] + [turns[n]];
      TurnsNext(turns[..n], turns[n], bufferOf, size, b, c);
    }
  }

  lemma NothingWritten(bufferOf: nat -> nat, size: nat, b: nat, c: nat)
    ensures Own([], c) == [] && AllIn(Contents([], bufferOf, size, b), {0})
  {
  }

  // A disturbed write damages a response for some contents.
  lemma DisturbedDamages(turns: seq<Turn>, bufferOf: nat -> nat, size: nat, i: nat) returns (turns': seq<Turn>)
    requires i < |turns| && InBounds(turns, size) && !Undisturbed(turns[..i], turns[i], bufferOf)
    ensures SameShape(turns, turns') && !Intact(turns', bufferOf, size)
  {
    hide Own, SharedLen, Contents, Overwritten, StartsWithOwn;
    turns' := Repainted(turns, i);
    var before, t := turns'[..i], turns'[i];
    RepaintedShape(turns, i);
    SameDiscipline(turns, turns', bufferOf, size);
    SameLengths(turns[..i], before, t.client);
    var c := t.client;
    if SharedLen(before) == |Own(before, t.client)| {
      c :| bufferOf(c) == bufferOf(t.client) && |Own(turns[..i], c)| > SharedLen(turns[..i]);
      SameLengths(turns[..i], before, c);
    }
    TurnDamages(before, t, bufferOf, size, c);
    assert turns'[..i + 1] == before + [t];
  }

  lemma RepaintedShape(turns: seq<Turn>, i: nat)
    requires i < |turns|
    ensures var r := Repainted(turns, i);
            && SameShape(turns, r) && SameShape(turns[..i], r[..i]) && SameTurn(turns[i], r[i])
            && Ones(r[..i]) && AllIn(Appended(r[i].event), {2})
  {
  }

  // A turn of twos after ones, at the wrong place
  lemma TurnDamages(before: seq<Turn>, t: Turn, bufferOf: nat -> nat, size: nat, c: nat)
    requires Ones(before) && AllIn(Appended(t.event), {2}) && Appended(t.event) != []
    requires SharedLen(before) + |Appended(t.event)| <= size && bufferOf(c) == bufferOf(t.client)
    requires |Own(before, c)| > SharedLen(before) || (c == t.client && |Own(before, c)| < SharedLen(before))
    ensures !StartsWithOwn(before + [t], bufferOf, size, c)
  {
    hide Own, SharedLen, Contents, Overwritten, Ones;
    var b := bufferOf(c);
    OnesStay(before, bufferOf, size, b, c);
    TurnsNext(before, t, bufferOf, size, b, c);
    Damaged(Own(before, c), Contents(before, bufferOf, size, b), SharedLen(before), Appended(t.event), c == t.client);
  }

  // Twos written over ones, or short of where they belong
  lemma Damaged(own: seq<byte>, buffer: seq<byte>, at: nat, bytes: seq<byte>, mine: bool)
    requires AllIn(own, {1}) && AllIn(buffer, {0, 1}) && AllIn(bytes, {2}) && bytes != [] && at + |bytes| <= |buffer|
    requires |own| > at || (mine && |own| < at)
    ensures var after := Overwritten(buffer, at, bytes);
            !((if mine then own + bytes else own) <= after)
  {
    var after, expected := Overwritten(buffer, at, bytes), if mine then own + bytes else own;
    if |own| > at {
      assert after[at] == bytes[0] == 2 && expected[at] == own[at] == 1;
    } else {
      assert after[|own|] == buffer[|own|] && expected[|own|] == bytes[0] == 2;
    }
  }

  // Over any interleaving of the clients' events, every buffer starts with its own client's
  // response at every moment, whatever the responses contain, exactly when each write finds
  // output_len at the end of its own client's response, and no longer one in the same buffer.
  lemma IntactIff(turns: seq<Turn>, bufferOf: nat -> nat, size: nat)
    requires InBounds(turns, size)
    ensures (forall turns' | SameShape(turns, turns') :: Intact(turns', bufferOf, size)) <==>
              Disciplined(turns, bufferOf)
  {
    hide Intact, SameShape, Undisturbed;
    if Disciplined(turns, bufferOf) {
      forall turns' | SameShape(turns, turns') ensures Intact(turns', bufferOf, size) {
        SameDiscipline(turns, turns', bufferOf, size);
        DisciplinedAlways(turns', bufferOf, size);
      }
    } else {
      var i :| 0 <= i < |turns| && !Undisturbed(turns[..i], turns[i], bufferOf);
      var damaged := DisturbedDamages(turns, bufferOf, size, i);
    }
  }

  lemma DisciplinedAlways(turns: seq<Turn>, bufferOf: nat -> nat, size: nat)
    requires Disciplined(turns, bufferOf) && InBounds(turns, size)
    ensures Intact(turns, bufferOf, size)
  {
    hide Disciplined, InBounds, StartsWithOwn;
    forall i: nat, c: nat | i <= |turns| ensures StartsWithOwn(turns[..i], bufferOf, size, c) {
      PrefixKept(turns, bufferOf, size, i);
      DisciplinedIntact(turns[..i], bufferOf, size, c);
    }
  }

  // ---- The handler ----------------------------------------------------------------------

  // The handler on the clients' real buffers does what Contents says.
  method HandleTurns(handler: Accumulator, turns: seq<Turn>, buffers: seq<array<byte>>, bufferOf: nat -> nat, size: nat)
    requires handler.outputBuffer == null && handler.outputLen == 0
    requires forall b | 0 <= b < |buffers| ::
               buffers[b].Length == size && buffers[b][..] == Contents([], bufferOf, size, b)
    requires forall a, b | 0 <= a < b < |buffers| :: buffers[a] != buffers[b]
    requires forall i | 0 <= i < |turns| :: bufferOf(turns[i].client) < |buffers|
    requires InBounds(turns, size)
    modifies handler, buffers
    ensures handler.outputBuffer == null && handler.outputLen == SharedLen(turns)
    ensures forall b | 0 <= b < |buffers| :: buffers[b][..] == Contents(turns, bufferOf, size, b)
  {
    hide Contents, SharedLen, Overwritten, Appended, Resets;
    assert turns[..0] == [];
    NoTurns(bufferOf, size, 0);
    for i := 0 to |turns|
      invariant handler.outputBuffer == null && handler.outputLen == SharedLen(turns[..i])
      invariant forall b | 0 <= b < |buffers| :: buffers[b][..] == Contents(turns[..i], bufferOf, size, b)
    {
      ghost var before := turns[..i];
      assert turns[..i + 1] == before + [turns[i]];
      forall b | 0 <= b < |buffers|
        ensures SharedLen(turns[..i + 1]) ==
                if Resets(turns[i].event) then 0 else SharedLen(before) + |Appended(turns[i].event)|
        ensures Contents(turns[..i + 1], bufferOf, size, b) ==
                if bufferOf(turns[i].client) == b then
                  Overwritten(Contents(before, bufferOf, size, b), SharedLen(before), Appended(turns[i].event))
                else Contents(before, bufferOf, size, b)
      {
        TurnsNext(before, turns[i], bufferOf, size, b, 0);
      }
      HandleTurn(handler, turns[i].event, buffers[bufferOf(turns[i].client)]);
    }
    assert turns[..|turns|] == turns;
  }

  // One event, on its client's buffer
  method HandleTurn(handler: Accumulator, e: Event, buffer: array<byte>)
    requires handler.outputBuffer == null && handler.outputLen + |Appended(e)| <= buffer.Length
    modifies handler, buffer
    ensures handler.outputBuffer == null
    ensures handler.outputLen == if Resets(e) then 0 else old(handler.outputLen) + |Appended(e)|
    ensures buffer[..] == Overwritten(old(buffer[..]), old(handler.outputLen), Appended(e))
  {
    ghost var before, at := buffer[..], handler.outputLen;
    var ok := handler.Handle(e, buffer, true);
    assert before[..at] + [] + before[at..] == before;
  }

  // ---- Two tasks at once ------------------------------------------------------------------

  // Two clients with buffers of their own and one event each already collide.
  lemma TwoClientsCollide(a: seq<byte>, b: seq<byte>, chunkA: nat, chunkB: nat)
    requires a != [] && b != []
    ensures var turns := [Turn(0, Data(a, false, chunkA)), Turn(1, Data(b, false, chunkB))];
            !Disciplined(turns, c => c)
  {
    hide Own, SharedLen;
    var turns := [Turn(0, Data(a, false, chunkA)), Turn(1, Data(b, false, chunkB))];
    NoTurns(c => c, 0, 0);
    NoTurns(c => c, 0, 1);
    TurnsNext([], turns[0], c => c, 0, 0, 1);
    assert turns[..1] == [] + [turns[0]];
    assert !Undisturbed(turns[..1], turns[1], c => c);
  }
}
