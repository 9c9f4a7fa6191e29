// Decimal text as the C library prints and reads it on a 32-bit target:
// sprintf("%d"), strtol-based atoi, and strtoul.
module DecimalText {
  const INT32_MIN: int := -0x8000_0000
  const INT32_MAX: int := 0x7fff_ffff
  const ULONG_MAX: int := 0xffff_ffff

  predicate IsDigit(c: char) {
    '0' <= c <= '9'
  }

  predicate IsSpace(c: char) {
    c == ' ' || '\t' <= c <= '\r'
  }

  predicate IsInt32(n: int) {
    INT32_MIN <= n <= INT32_MAX
  }

  function DigitChar(d: nat): char
    requires d < 10
  {
    '0' + d as char
  }

  function NatText(n: nat): (s: string)
    ensures s != [] && (forall c <- s :: IsDigit(c))
  {
    if n < 10 then [DigitChar(n)] else NatText(n / 10) + [DigitChar(n % 10)]
  }

  // sprintf(_, "%d", n)
  function DecText(n: int): string {
    if n < 0 then ['-'] + NatText(-n) else NatText(n)
  }

  // The value of the longest digit prefix of `s`, read after the digits already worth `acc`.
  function DigitsFrom(s: string, acc: nat): nat
    decreases |s|
  {
    if s == [] || !IsDigit(s[0]) then acc
    else DigitsFrom(s[1..], 10 * acc + (s[0] as int - '0' as int))
  }

  function SkipSpace(s: string): string
    decreases |s|
  {
    if s == [] || !IsSpace(s[0]) then s else SkipSpace(s[1..])
  }

  // The signed value that strtol and strtoul scan, before either clamps it.
  function Scanned(s: string): int {
    var t := SkipSpace(s);
    if t == [] then 0
    else if t[0] == '-' then 0 - DigitsFrom(t[1..], 0)
    else if t[0] == '+' then DigitsFrom(t[1..], 0)
    else DigitsFrom(t, 0)
  }

  // atoi, which is (int)strtol(s, NULL, 10): out-of-range values clamp.
  function Atoi(s: string): (n: int)
    ensures IsInt32(n)
  {
    var v := Scanned(s);
    if v < INT32_MIN then INT32_MIN else if v > INT32_MAX then INT32_MAX else v
  }

  // strtoul(s, NULL, 10): overflow clamps to ULONG_MAX, a minus sign negates modulo 2^32.
  function Strtoul(s: string): (n: nat)
    ensures n <= ULONG_MAX
  {
    var v := Scanned(s);
    if v > ULONG_MAX || v < -ULONG_MAX then ULONG_MAX else v % (ULONG_MAX + 1)
  }

  // (uint8_t) of an unsigned or two's-complement value
  function ToUint8(n: int): (r: nat)
    ensures r < 256
    ensures 0 <= n < 256 ==> r == n
  {
    n % 256
  }

  predicate StopsDigits(s: string) {
    s == [] || !IsDigit(s[0])
  }

  lemma {:induction false} DigitsFromConcat(s: string, t: string, acc: nat)
    requires forall c <- s :: IsDigit(c)
    ensures DigitsFrom(s + t, acc) == DigitsFrom(t, DigitsFrom(s, acc))
    decreases |s|
  {
    if s == [] {
      assert s + t == t;
    } else {
      assert IsDigit(s[0]) && (s + t)[1..] == s[1..] + t;
      DigitsFromConcat(s[1..], t, 10 * acc + (s[0] as int - '0' as int));
    }
  }

  // Printing then scanning a natural number gives it back, whatever non-digit follows.
  lemma {:induction false} NatTextScans(n: nat, rest: string)
    requires StopsDigits(rest)
    ensures DigitsFrom(NatText(n) + rest, 0) == n
  {
    if n < 10 {
      assert ([DigitChar(n)] + rest)[1..] == rest;
    } else {
      var last := [DigitChar(n % 10)];
      NatTextScans(n / 10, []);
      assert NatText(n / 10) + [] == NatText(n / 10);
      assert NatText(n) + rest == NatText(n / 10) + (last + rest);
      DigitsFromConcat(NatText(n / 10), last + rest, 0);
      assert (last + rest)[1..] == rest;
    }
  }

  lemma {:induction false} DecTextScans(n: int, rest: string)
    requires StopsDigits(rest)
    ensures Scanned(DecText(n) + rest) == n
  {
    var t := DecText(n) + rest;
    assert NatText(if n < 0 then -n else n)[0] == DecText(n)[if n < 0 then 1 else 0];
    assert t[0] == '-' || IsDigit(t[0]);
    if n < 0 {
      NatTextScans(-n, rest);
      assert t[1..] == NatText(-n) + rest;
    } else {
      NatTextScans(n, rest);
    }
  }

  // Round trip of sprintf("%d") and atoi over the whole 32-bit range.
  lemma {:induction false} AtoiOfDecText(n: int, rest: string)
    requires IsInt32(n) && StopsDigits(rest)
    ensures Atoi(DecText(n) + rest) == n
    ensures Atoi(DecText(n)) == n
  {
    DecTextScans(n, rest);
    DecTextScans(n, []);
    assert DecText(n) + [] == DecText(n);
  }

  lemma {:induction false} StrtoulOfDecText(n: nat)
    requires n <= ULONG_MAX
    ensures Strtoul(DecText(n)) == n
  {
    DecTextScans(n, []);
    assert DecText(n) + [] == DecText(n);
  }

  function PowerOfTen(k: nat): (p: nat)
    ensures p >= 1
  {
    if k == 0 then 1 else 10 * PowerOfTen(k - 1)
  }

  lemma {:induction false} NatTextLength(n: nat, k: nat)
    requires 1 <= k && n < PowerOfTen(k)
    ensures |NatText(n)| <= k
  {
    if n < 10 {
    } else {
      NatTextLength(n / 10, k - 1);
    }
  }

  lemma {:induction false} NatTextLonger(n: nat, k: nat)
    requires 1 <= k && PowerOfTen(k - 1) <= n
    ensures |NatText(n)| >= k
  {
    if k == 1 {
    } else {
      NatTextLonger(n / 10, k - 1);
    }
  }

  // The 12-byte scratch buffer of the printer holds every 32-bit integer and its terminator.
  lemma DecTextFitsScratch(n: int)
    requires IsInt32(n)
    ensures 1 <= |DecText(n)| <= 11
  {
    assert PowerOfTen(10) == 10_000_000_000 by {
      assert PowerOfTen(5) == 100_000;
    }
    NatTextLength(if n < 0 then -n else n, 10);
  }

  // The smallest integer needs all eleven characters.
  lemma DecTextLongest()
    ensures |DecText(INT32_MIN)| == 11
  {
    assert PowerOfTen(9) == 1_000_000_000 by {
      assert PowerOfTen(5) == 100_000;
    }
    NatTextLonger(-INT32_MIN, 10);
    DecTextFitsScratch(INT32_MIN);
  }

  lemma DecTextShort(n: nat, k: nat)
    requires 1 <= k && n < PowerOfTen(k)
    ensures 1 <= |DecText(n)| <= k
  {
    NatTextLength(n, k);
  }

  // The characters DecText may use.
  lemma DecTextChars(n: int)
    ensures forall c <- DecText(n) :: c == '-' || IsDigit(c)
    ensures DecText(n) != []
    ensures n >= 0 ==> forall c <- DecText(n) :: IsDigit(c)
  {
  }

  // The cast wraps around.
  lemma Uint8Wraps(n: int)
    ensures ToUint8(n + 256) == ToUint8(n)
  {
  }

  // ---- The printed form -------------------------------------------------------

  ghost predicate AllDigits(s: string) {
    forall i | 0 <= i < |s| :: IsDigit(s[i])
  }

  // A decimal number without superfluous characters
  ghost predicate Canonical(s: string) {
    || s == "0"
    || (s != [] && AllDigits(s) && s[0] != '0')
    || (|s| > 1 && s[0] == '-' && AllDigits(s[1..]) && s[1] != '0')
  }

  lemma {:induction false} NatTextCanonical(n: nat)
    ensures AllDigits(NatText(n)) && (NatText(n) == "0" || NatText(n)[0] != '0') && (n > 0 ==> NatText(n) != "0")
  {
    if n < 10 {
    } else {
      NatTextCanonical(n / 10);
    }
  }

  // What is printed has that form, ...
  lemma DecTextCanonical(n: int)
    ensures Canonical(DecText(n))
    ensures n < 0 ==> DecText(n) == ['-'] + DecText(-n)
  {
    NatTextCanonical(if n < 0 then -n else n);
    if n < 0 { assert DecText(n)[1..] == NatText(-n); }
  }

  lemma {:induction false} DigitsPositive(s: string)
    requires s != [] && AllDigits(s) && s[0] != '0'
    ensures DigitsFrom(s, 0) >= 1
  {
    DigitsGrow(s[1..], s[0] as int - '0' as int);
  }

  lemma {:induction false} DigitsGrow(s: string, acc: nat)
    ensures DigitsFrom(s, acc) >= acc
    decreases |s|
  {
    if s == [] || !IsDigit(s[0]) {
    } else {
      DigitsGrow(s[1..], 10 * acc + (s[0] as int - '0' as int));
    }
  }

  lemma {:induction false} NatTextUnique(s: string)
    requires s != [] && AllDigits(s) && (s[0] != '0' || s == "0")
    ensures NatText(DigitsFrom(s, 0)) == s
    decreases |s|
  {
    var n := |s| - 1;
    var last := s[n];
    if n == 0 {
      assert s == [last] && DigitsFrom(s, 0) == last as int - '0' as int;
    } else {
      var front := s[..n];
      NatTextUnique(front);
      DigitsPositive(front);
      assert s == front + [last];
      DigitsFromConcat(front, [last], 0);
      assert DigitsFrom([last], DigitsFrom(front, 0)) == 10 * DigitsFrom(front, 0) + (last as int - '0' as int);
    }
  }

  // ... and it is the only text of that form that reads as the number.
  lemma DecTextUnique(s: string)
    requires Canonical(s)
    ensures DecText(Scanned(s)) == s
  {
    if s[0] == '-' {
      NatTextUnique(s[1..]);
      DigitsPositive(s[1..]);
    } else {
      NatTextUnique(s);
    }
  }

  // ---- The scanned form -------------------------------------------------------

  ghost predicate AllSpaces(s: string) {
    forall i | 0 <= i < |s| :: IsSpace(s[i])
  }

  lemma {:induction false} SpacesSkipped(space: string, rest: string)
    requires AllSpaces(space) && (rest == [] || !IsSpace(rest[0]))
    ensures SkipSpace(space + rest) == rest
  {
    if space == [] {
      assert space + rest == rest;
    } else {
      assert (space + rest)[1..] == space[1..] + rest;
      SpacesSkipped(space[1..], rest);
    }
  }

  lemma {:induction false} ZerosSkipped(zeros: string, rest: string)
    requires forall i | 0 <= i < |zeros| :: zeros[i] == '0'
    ensures DigitsFrom(zeros + rest, 0) == DigitsFrom(rest, 0)
  {
    if zeros == [] {
      assert zeros + rest == rest;
    } else {
      assert (zeros + rest)[1..] == zeros[1..] + rest;
      ZerosSkipped(zeros[1..], rest);
    }
  }

  // Blanks, a sign, zeros and a number, whatever follows
  lemma ScannedNumber(space: string, sign: string, zeros: string, n: nat, rest: string)
    requires AllSpaces(space) && sign in {"", "+", "-"} && StopsDigits(rest)
    requires forall i | 0 <= i < |zeros| :: zeros[i] == '0'
    ensures Scanned(space + (sign + (zeros + (NatText(n) + rest)))) == (if sign == "-" then -1 else 1) * n
  {
    var digits := zeros + (NatText(n) + rest);
    ZerosSkipped(zeros, NatText(n) + rest);
    NatTextScans(n, rest);
    assert IsDigit(digits[0]);
    SpacesSkipped(space, sign + digits);
    if sign == "" {
      assert sign + digits == digits;
    } else {
      assert (sign + digits)[1..] == digits;
    }
  }

  // A text with no digit behind its blanks and sign
  lemma ScannedNothing(space: string, sign: string, rest: string)
    requires AllSpaces(space) && sign in {"", "+", "-"} && StopsDigits(rest)
    requires sign == "" && rest != [] ==> !IsSpace(rest[0]) && rest[0] !in {'+', '-'}
    ensures Scanned(space + (sign + rest)) == 0
  {
    SpacesSkipped(space, sign + rest);
    if sign == "" {
      assert sign + rest == rest;
    } else {
      assert (sign + rest)[1..] == rest;
    }
  }

  // atoi clamps to the 32-bit range; strtoul clamps to it unsigned, and negates modulo 2^32.
  lemma NumbersClamp(s: string)
    ensures IsInt32(Scanned(s)) ==> Atoi(s) == Scanned(s)
    ensures Scanned(s) > INT32_MAX ==> Atoi(s) == INT32_MAX
    ensures Scanned(s) < INT32_MIN ==> Atoi(s) == INT32_MIN
    ensures 0 <= Scanned(s) <= ULONG_MAX ==> Strtoul(s) == Scanned(s)
    ensures -ULONG_MAX <= Scanned(s) < 0 ==> Strtoul(s) == Scanned(s) + ULONG_MAX + 1
    ensures Scanned(s) > ULONG_MAX || Scanned(s) < -ULONG_MAX ==> Strtoul(s) == ULONG_MAX
  {
  }
}
