// The padding that encrypt_any_length_string puts before AES-CBC, and the serial number it is
// used on (main/config_initial.h:37-57, 78-176).
module Padding {
  import opened CBuffer
  import opened Tokenizing
  import opened Strtok

  // padded_input_len for a text of n characters
  function PaddedLength(n: nat): nat {
    if n + 1 < 16 then 16 else (n / 16 + 1) * 16
  }

  // pkc5_value
  function PadByte(n: nat): nat {
    17 - (n + 1) % 16
  }

  lemma PaddedLengthIsLeast(n: nat)
    ensures PaddedLength(n) % 16 == 0 && n < PaddedLength(n) <= n + 16
    ensures forall m | n < m && m % 16 == 0 :: PaddedLength(n) <= m
  {
  }

  function Repeated(b: nat, count: nat): (s: seq<nat>)
    ensures |s| == count && forall i | 0 <= i < count :: s[i] == b
  {
    seq(count, _ => b)
  }

  function Padded(input: seq<nat>): (p: seq<nat>)
    ensures |p| == PaddedLength(|input|)
  {
    PaddedLengthIsLeast(|input|);
    input + Repeated(PadByte(|input|), PaddedLength(|input|) - |input|)
  }

  method Pad(input: seq<nat>) returns (padded: array<nat>)
    ensures padded[..] == Padded(input)
  {
    var inputLen := |input| + 1;
    var modulo16 := inputLen % 16;
    var paddedLen := if inputLen < 16 then 16 else (|input| / 16 + 1) * 16;
    PaddedLengthIsLeast(|input|);
    padded := new nat[paddedLen];
    for i := 0 to |input|
      invariant padded[..i] == input[..i]
    {
      padded[i] := input[i];
    }
    for i := |input| to paddedLen
      invariant padded[..i] == input + Repeated(17 - modulo16, i - |input|)
    {
      padded[i] := 17 - modulo16;
    }
    assert padded[..] == padded[..paddedLen];
  }

  // Removing the padding of section 6.3 of RFC 5652 for a block of 16 octets
  function Unpadded(s: seq<nat>): Option<seq<nat>> {
    if s == [] || |s| % 16 != 0 then None
    else
      var v := s[|s| - 1];
      if 1 <= v <= 16 && v <= |s| && s[|s| - v..] == Repeated(v, v) then Some(s[..|s| - v]) else None
  }

  // The padding is the standard one, and can be removed again, exactly when the text's length is
  // not 15 modulo 16; then a single octet of value 17 is appended, which no unpadder accepts.
  lemma UnpadIff(input: seq<nat>)
    ensures Unpadded(Padded(input)) == Some(input) <==> |input| % 16 != 15
    ensures |input| % 16 == 15 ==> Padded(input) == input + [17] && Unpadded(Padded(input)) == None
  {
    var n := |input|;
    PadCount(n);
    var count := PaddedLength(n) - n;
    var p := Padded(input);
    assert p[|p| - 1] == PadByte(n);
    if n % 16 == 15 {
      assert p == input + [17];
    } else {
      assert p[|p| - count..] == Repeated(count, count) && p[..|p| - count] == input;
    }
  }

  lemma PadCount(n: nat)
    ensures PaddedLength(n) % 16 == 0 && PaddedLength(n) > n
    ensures PaddedLength(n) - n == 16 - n % 16
    ensures PadByte(n) == if n % 16 == 15 then 17 else 16 - n % 16
  {
    var q, r := n / 16, n % 16;
    assert n == 16 * q + r;
    RemainderNext(n, q, r);
    assert (q + 1) * 16 == n - r + 16;
  }

  lemma RemainderNext(n: nat, q: nat, r: nat)
    requires n == 16 * q + r && r < 16
    ensures (n + 1) % 16 == if r == 15 then 0 else r + 1
  {
    if r == 15 { assert n + 1 == 16 * (q + 1); }
  }

  // ---- The serial number ------------------------------------------------------

  // data_as_string, mac_esp and ahsn
  const REPLY_SIZE := 60
  const MAC_TEXT_SIZE := 24
  const AHSN_SIZE := 33
  const AHSN_PREFIX := ":020a0000"
  const BASE64_OUTPUT_SIZE := 65

  function HexDigit(d: nat): char
    requires d < 16
  {
    if d < 10 then '0' + d as char else 'a' + (d - 10) as char
  }

  // "%02hhx" of each octet
  function HexText(octets: seq<nat>): (t: string)
    requires forall i | 0 <= i < |octets| :: octets[i] < 256
    ensures |t| == 2 * |octets| && NulFree(t)
  {
    if octets == [] then []
    else
      var t := HexText(octets[1..]);
      var h, l := HexDigit(octets[0] / 16), HexDigit(octets[0] % 16);
      assert h != '\0' && l != '\0';
      [h, l] + t
  }

  // macText is what is assembled in mac_esp first.
  datatype Ahsn = Accepted(macText: string, text: string) | Refused | Undefined

  // The text between the first two strtok calls' delimiters
  function IdRun(reply: string): (r: Option<Run>)
    ensures r.Some? ==> r.value.start < r.value.end <= |reply|
  {
    NextOf(reply, {'m'}, After(reply, Next(reply, {'d'}, 0)))
  }

  function AhsnOf(reply: string, mac: seq<nat>): Ahsn
    requires |mac| == 4 && forall i | 0 <= i < 4 :: mac[i] < 256
  {
    if |reply| >= REPLY_SIZE then Undefined
    else if !('p' in reply && '-' in reply && 'd' in reply && 'm' in reply) then Refused
    else if IdRun(reply).None? then Undefined
    else
      var id := reply[IdRun(reply).value.start..IdRun(reply).value.end];
      if |id| != 16 then Refused else Accepted(HexText(mac) + id, AHSN_PREFIX + (HexText(mac) + id))
  }

  method RequestAhsn(tokenizer: Tokenizer, reply: string, mac: seq<nat>) returns (r: Ahsn)
    requires NulFree(reply) && |mac| == 4 && forall i | 0 <= i < 4 :: mac[i] < 256
    modifies tokenizer
    ensures r == AhsnOf(reply, mac)
    ensures r.Accepted? ==> |r.macText| + 1 == MAC_TEXT_SIZE + 1 && |r.text| + 1 == AHSN_SIZE + 1
  {
    hide Next;
    if |reply| >= REPLY_SIZE {
      return Undefined;
    }
    if !('p' in reply && '-' in reply && 'd' in reply && 'm' in reply) {
      return Refused;
    }
    var data := Duplicate(reply);
    var token := tokenizer.Start(data, 0, {'d'}, reply);
    token := tokenizer.Continue({'m'}, data, 0, reply, After(reply, Next(reply, {'d'}, 0)));
    if token.None? {
      return Undefined;
    }
    ghost var run := IdRun(reply).value;
    var id := TextAt(data, token.value, reply[run.start..run.end]);
    if |id| != 16 {
      return Refused;
    }
    var macText := HexText(mac) + id;
    return Accepted(macText, AHSN_PREFIX + macText);
  }

  // Characters of base64 text for n octets
  function Base64Length(n: nat): nat {
    4 * ((n + 2) / 3)
  }

  // ---- The serial number by its parts -------------------------------------------

  // What a lower-case hexadecimal digit is worth
  function HexValue(c: char): int {
    if '0' <= c <= '9' then c as int - '0' as int else if 'a' <= c <= 'f' then c as int - 'a' as int + 10 else -1
  }

  // The octets' text, read two digits at a time, is the octets.
  lemma {:induction false} HexTextReads(octets: seq<nat>, i: nat)
    requires i < |octets| && forall j | 0 <= j < |octets| :: octets[j] < 256
    ensures var t := HexText(octets);
            && 0 <= HexValue(t[2 * i]) < 16 && 0 <= HexValue(t[2 * i + 1]) < 16
            && 16 * HexValue(t[2 * i]) + HexValue(t[2 * i + 1]) == octets[i]
  {
    HexDigitReads(octets[0] / 16);
    HexDigitReads(octets[0] % 16);
    if i == 0 {
    } else {
      HexTextReads(octets[1..], i - 1);
      assert HexText(octets)[2..] == HexText(octets[1..]);
      assert HexText(octets)[2 * i] == HexText(octets[1..])[2 * (i - 1)];
      assert HexText(octets)[2 * i + 1] == HexText(octets[1..])[2 * (i - 1) + 1];
    }
  }

  lemma HexDigitReads(d: nat)
    requires d < 16
    ensures HexValue(HexDigit(d)) == d
  {
  }

  // A reply as the two strtok calls cut it: d's, the header without a d, a d, m's, the identifier
  // without an m, and then the end or an m and anything.
  datatype IdParts = IdParts(lead: string, pre: string, gap: string, id: string, post: string)

  function Whole(p: IdParts): string {
    p.lead + p.pre + "d" + p.gap + p.id + p.post
  }

  ghost predicate IdShaped(p: IdParts) {
    && (forall i | 0 <= i < |p.lead| :: p.lead[i] == 'd') && p.pre != [] && Free(p.pre, {'d'})
    && (forall i | 0 <= i < |p.gap| :: p.gap[i] == 'm') && p.id != [] && Free(p.id, {'m'})
    && (p.post != [] ==> p.post[0] == 'm')
  }

  lemma IdRunOfParts(p: IdParts, s: string)
    requires IdShaped(p) && s == Whole(p)
    ensures IdRun(s).Some? && s[IdRun(s).value.start..IdRun(s).value.end] == p.id
  {
    var a := |p.lead|;
    var b := a + |p.pre|;
    var c := b + 1 + |p.gap|;
    var e := c + |p.id|;
    IdPlaces(p, s, a, b, c, e);
    hide Next, IdShaped, Whole;
    NextIs(s, {'d'}, 0, a, b);
    NextIs(s, {'m'}, b + 1, c, e);
  }

  lemma IdPlaces(p: IdParts, s: string, a: nat, b: nat, c: nat, e: nat)
    requires IdShaped(p) && s == Whole(p)
    requires a == |p.lead| && b == a + |p.pre| && c == b + 1 + |p.gap| && e == c + |p.id|
    ensures a < b < c < e <= |s| && s[c..e] == p.id && s[b] == 'd' && (e < |s| ==> s[e] == 'm')
    ensures forall j | 0 <= j < a :: s[j] == 'd'
    ensures forall j | a <= j < b :: s[j] != 'd'
    ensures forall j | b < j < c :: s[j] == 'm'
    ensures forall j | c <= j < e :: s[j] != 'm'
  {
    assert forall j | a <= j < b :: s[j] == p.pre[j - a];
    assert forall j | b < j < c :: s[j] == p.gap[j - b - 1];
    assert forall j | c <= j < e :: s[j] == p.id[j - c];
  }

  lemma IdPartsOfRun(s: string) returns (p: IdParts)
    requires IdRun(s).Some?
    ensures IdShaped(p) && Whole(p) == s
  {
    hide Next, IdShaped;
    var r1, r := Next(s, {'d'}, 0).value, IdRun(s).value;
    NextPlaces(s, {'d'}, 0, r1);
    NextPlaces(s, {'m'}, r1.end + 1, r);
    ShapedPieces(s, r1.start, r1.end, r.start, r.end);
    p := IdParts(s[..r1.start], s[r1.start..r1.end], s[r1.end + 1..r.start], s[r.start..r.end], s[r.end..]);
    Pieces(s, r1.start, r1.end, r.start, r.end);
  }

  lemma ShapedPieces(s: string, a: nat, b: nat, c: nat, e: nat)
    requires a < b < c < e <= |s| && s[b] == 'd' && (e < |s| ==> s[e] == 'm')
    requires (forall j | 0 <= j < a :: s[j] == 'd') && (forall j | a <= j < b :: s[j] != 'd')
    requires (forall j | b < j < c :: s[j] == 'm') && (forall j | c <= j < e :: s[j] != 'm')
    ensures IdShaped(IdParts(s[..a], s[a..b], s[b + 1..c], s[c..e], s[e..]))
  {
  }

  lemma Pieces(s: string, a: nat, b: nat, c: nat, e: nat)
    requires a <= b < c <= e <= |s| && s[b] == 'd'
    ensures s[..a] + s[a..b] + "d" + s[b + 1..c] + s[c..e] + s[e..] == s
  {
    assert s[..a] + s[a..b] == s[..b];
    assert s[..b] + "d" == s[..b + 1];
    assert s[..b + 1] + s[b + 1..c] == s[..c];
    assert s[..c] + s[c..e] == s[..e];
  }

  // The outcome of every reply, exactly, by its parts.
  lemma AhsnOutcome(reply: string, mac: seq<nat>)
    requires |mac| == 4 && forall i | 0 <= i < 4 :: mac[i] < 256
    ensures var a := AhsnOf(reply, mac);
            var letters := 'p' in reply && '-' in reply && 'd' in reply && 'm' in reply;
            && (a.Accepted? <==>
                  |reply| < 60 && letters && exists p: IdParts :: IdShaped(p) && Whole(p) == reply && |p.id| == 16)
            && (a.Undefined? <==>
                  |reply| >= 60 || (letters && !exists p: IdParts :: IdShaped(p) && Whole(p) == reply))
  {
    hide Next, Whole, IdShaped, HexText;
    if IdRun(reply).Some? {
      var p := IdPartsOfRun(reply);
      IdRunOfParts(p, reply);
    }
    forall p: IdParts | IdShaped(p) && Whole(p) == reply
      ensures IdRun(reply).Some? && |p.id| == IdRun(reply).value.end - IdRun(reply).value.start
    {
      IdRunOfParts(p, reply);
    }
  }

  // An accepted serial number, character by character: the fixed prefix, the four octets of the
  // address in lower-case hexadecimal, and the identifier.
  lemma AhsnByParts(p: IdParts, mac: seq<nat>)
    requires IdShaped(p) && |p.id| == 16 && |Whole(p)| < 60
    requires 'p' in Whole(p) && '-' in Whole(p) && 'm' in Whole(p)
    requires |mac| == 4 && forall i | 0 <= i < 4 :: mac[i] < 256
    ensures var a := AhsnOf(Whole(p), mac);
            && a.Accepted? && |a.text| == 33 && a.text[..9] == ":020a0000" && a.text[17..] == p.id
            && a.macText == a.text[9..]
            && forall i | 0 <= i < 4 ::
                 && 0 <= HexValue(a.text[9 + 2 * i]) < 16 && 0 <= HexValue(a.text[10 + 2 * i]) < 16
                 && 16 * HexValue(a.text[9 + 2 * i]) + HexValue(a.text[10 + 2 * i]) == mac[i]
  {
    hide Next, IdShaped, HexText, IdRun;
    var s := Whole(p);
    assert s[|p.lead| + |p.pre|] == 'd';
    hide Whole;
    IdRunOfParts(p, s);
    var text := AHSN_PREFIX + (HexText(mac) + p.id);
    assert text[..9] == AHSN_PREFIX && text[9..] == HexText(mac) + p.id && text[17..] == p.id;
    forall i | 0 <= i < 4
      ensures text[9 + 2 * i] == HexText(mac)[2 * i] && text[10 + 2 * i] == HexText(mac)[2 * i + 1]
      ensures 0 <= HexValue(text[9 + 2 * i]) < 16 && 0 <= HexValue(text[10 + 2 * i]) < 16
      ensures 16 * HexValue(text[9 + 2 * i]) + HexValue(text[10 + 2 * i]) == mac[i]
    {
      HexTextReads(mac, i);
    }
  }

  // Every accepted serial number is one character too long, with its terminator, for both buffers
  // it is assembled in.
  lemma AcceptedAhsnOverflows(reply: string, mac: seq<nat>)
    requires |mac| == 4 && forall i | 0 <= i < 4 :: mac[i] < 256
    requires AhsnOf(reply, mac).Accepted?
    ensures var a := AhsnOf(reply, mac);
            |a.macText| + 1 > MAC_TEXT_SIZE && |a.text| + 1 > AHSN_SIZE
  {
  }

  // Every accepted serial number has 33 characters, so its padding is removable, and its
  // ciphertext in base64 with a terminator fills the output buffer exactly.
  lemma AcceptedAhsn(reply: string, mac: seq<nat>, octets: seq<nat>)
    requires |mac| == 4 && forall i | 0 <= i < 4 :: mac[i] < 256
    requires AhsnOf(reply, mac).Accepted? && |octets| == |AhsnOf(reply, mac).text|
    ensures |octets| == 33 && AHSN_PREFIX <= AhsnOf(reply, mac).text
    ensures Unpadded(Padded(octets)) == Some(octets)
    ensures Base64Length(|Padded(octets)|) + 1 == BASE64_OUTPUT_SIZE
  {
    UnpadIff(octets);
  }
}
