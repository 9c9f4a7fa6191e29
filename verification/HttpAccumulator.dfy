// The response accumulator of _http_event_handler (main/http_client_controller.h:46-114).
module HttpAccumulator {
  import opened Octets

  // An event as the handler tells them apart; Other stands for the four it only logs.
  datatype Event = Other | Data(bytes: seq<byte>, chunked: bool, contentLength: nat) | Finish | Disconnected

  // The response data since the last reset
  function Body(events: seq<Event>): seq<byte> {
    if events == [] then []
    else
      var before := Body(events[..|events| - 1]);
      match events[|events| - 1]
      case Other => before
      case Data(bytes, chunked, _) => if chunked then before else before + bytes
      case Finish => []
      case Disconnected => []
  }

  // The longest any response grew, that is, one past the highest offset written
  function HighWater(events: seq<Event>): (n: nat)
    ensures |Body(events)| <= n
  {
    if events == [] then 0
    else
      var n := HighWater(events[..|events| - 1]);
      if |Body(events)| > n then |Body(events)| else n
  }

  lemma {:induction false} HighWaterGrows(events: seq<Event>, i: nat)
    requires i <= |events|
    ensures HighWater(events[..i]) <= HighWater(events)
    decreases |events| - i
  {
    hide Body;
    if i < |events| {
      HighWaterGrows(events, i + 1);
      assert events[..i + 1][..i] == events[..i];
    } else {
      assert events[..i] == events;
    }
  }

  // It is the length some response had.
  lemma {:induction false} HighWaterReached(events: seq<Event>) returns (i: nat)
    ensures i <= |events| && HighWater(events) == |Body(events[..i])|
  {
    hide Body;
    if events == [] {
      NoEvents();
      assert events[..0] == [];
      return 0;
    } else {
      var n := |events| - 1;
      i := HighWaterReached(events[..n]);
      assert events[..n][..i] == events[..i];
      if |Body(events)| > HighWater(events[..n]) {
        assert events[..|events|] == events;
        return |events|;
      }
    }
  }

  lemma NoEvents()
    ensures Body([]) == [] && HighWater([]) == 0
  {
  }

  lemma HighWaterNext(events: seq<Event>, i: nat)
    requires i < |events|
    ensures Body(events[..i + 1]) ==
            match events[i]
            case Other => Body(events[..i])
            case Data(bytes, chunked, _) => if chunked then Body(events[..i]) else Body(events[..i]) + bytes
            case Finish => []
            case Disconnected => []
    ensures HighWater(events[..i]) <= HighWater(events[..i + 1]) <= HighWater(events)
    ensures HighWater(events[..i + 1]) >= |Body(events[..i + 1])|
  {
    assert events[..i + 1][..i] == events[..i];
    HighWaterGrows(events, i + 1);
  }

  class Accumulator {
    // The two static variables
    var outputBuffer: array?<byte>
    var outputLen: nat

    constructor ()
      ensures outputBuffer == null && outputLen == 0
    {
      outputBuffer, outputLen := null, 0;
    }

    // One event. Without a user buffer the response goes to a buffer of the announced length;
    // `memory` is whether malloc succeeds.
    method Handle(e: Event, userData: array?<byte>, memory: bool) returns (ok: bool)
      requires outputBuffer != null ==> outputBuffer != userData
      requires e.Data? && !e.chunked ==>
                 outputLen + |e.bytes| <=
                   if userData != null then userData.Length
                   else if outputBuffer != null then outputBuffer.Length
                   else e.contentLength + outputLen
      modifies this, userData, outputBuffer
      ensures ok <==> !(e.Data? && !e.chunked && userData == null && old(outputBuffer) == null && !memory)
      ensures e.Finish? || e.Disconnected? ==> outputLen == 0 && outputBuffer == null
      ensures userData != null ==>
                && (outputBuffer == old(outputBuffer) || outputBuffer == null)
                && (e.Data? && !e.chunked ==>
                      outputLen == old(outputLen) + |e.bytes|
                      && userData[..] == old(userData[..outputLen]) + e.bytes + old(userData[outputLen + |e.bytes|..]))
                && (!(e.Data? && !e.chunked) ==> userData[..] == old(userData[..]))
                && (e.Other? || (e.Data? && e.chunked) ==> outputLen == old(outputLen))
      ensures userData == null && e.Data? && !e.chunked && old(outputBuffer) != null ==>
                && outputBuffer == old(outputBuffer) && outputLen == old(outputLen) + |e.bytes|
                && outputBuffer[..] ==
                   old(outputBuffer[..outputLen]) + e.bytes + old(outputBuffer[outputLen + |e.bytes|..])
      ensures userData == null && ok && e.Data? && !e.chunked && old(outputBuffer) == null ==>
                && fresh(outputBuffer) && outputBuffer.Length == e.contentLength
                && outputLen == |e.bytes| && outputBuffer[..outputLen] == e.bytes
      ensures !ok ==> outputLen == 0 && outputBuffer == null
      ensures userData == null && (e.Other? || (e.Data? && e.chunked)) ==>
                unchanged(this) && (outputBuffer != null ==> outputBuffer[..] == old(outputBuffer[..]))
    {
      ok := true;
      match e
      case Other =>
      case Data(bytes, chunked, contentLength) =>
        if !chunked {
          if userData != null {
            Memcpy(userData, outputLen, bytes);
          } else {
            if outputBuffer == null {
              outputLen := 0;
              if !memory {
                return false;
              }
              outputBuffer := new byte[contentLength];
            }
            Memcpy(outputBuffer, outputLen, bytes);
          }
          outputLen := outputLen + |bytes|;
        }
      case Finish =>
        outputBuffer, outputLen := null, 0;
      case Disconnected =>
        outputBuffer, outputLen := null, 0;
    }

    // Nothing beyond the longest response so far was touched, and the current one is in place.
    ghost predicate Accumulated(events: seq<Event>, userData: array<byte>, before: seq<byte>)
      reads this, userData
    {
      && outputBuffer == null && outputLen == |Body(events)| <= HighWater(events) <= userData.Length == |before|
      && userData[..outputLen] == Body(events)
      && userData[HighWater(events)..] == before[HighWater(events)..]
    }

    // The i-th event of a run
    method HandleNext(events: seq<Event>, i: nat, userData: array<byte>, ghost before: seq<byte>)
      requires i < |events| && HighWater(events) <= userData.Length && Accumulated(events[..i], userData, before)
      modifies this, userData
      ensures Accumulated(events[..i + 1], userData, before)
    {
      hide Body, HighWater;
      HighWaterNext(events, i);
      var ok := Handle(events[i], userData, true);
    }

    // Any run of one client's events into one user buffer: the length is that of the current
    // response, the buffer starts with exactly that response, and no byte beyond the longest
    // response was touched.
    method HandleAll(events: seq<Event>, userData: array<byte>)
      requires outputBuffer == null && outputLen == 0 && HighWater(events) <= userData.Length
      modifies this, userData
      ensures outputBuffer == null && outputLen == |Body(events)| <= userData.Length
      ensures userData[..outputLen] == Body(events)
      ensures userData[HighWater(events)..] == old(userData[HighWater(events)..])
    {
      hide Body, HighWater;
      ghost var before := userData[..];
      NoEvents();
      assert events[..0] == [] && events[..|events|] == events;
      for i := 0 to |events|
        invariant Accumulated(events[..i], userData, before)
      {
        HandleNext(events, i, userData, before);
      }
    }
  }

  // memcpy(dst + at, bytes, len)
  method Memcpy(dst: array<byte>, at: nat, bytes: seq<byte>)
    requires at + |bytes| <= dst.Length
    modifies dst
    ensures dst[..] == old(dst[..at]) + bytes + old(dst[at + |bytes|..])
  {
    ghost var before := dst[..];
    for i := 0 to |bytes|
      invariant forall j | 0 <= j < i :: dst[at + j] == bytes[j]
      invariant forall j | 0 <= j < at || at + i <= j < dst.Length :: dst[j] == before[j]
    {
      dst[at + i] := bytes[i];
    }
  }
}
