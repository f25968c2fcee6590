/** Byte-level model of the Arduino `String` operations and of the C library
    numeral parsers (`atol`, `strtoul`) that the WS3 bridge calls. A `String`
    is its sequence of bytes; the NUL terminator of its C buffer is not part
    of the sequence. `long` and `unsigned long` are 32 bits wide, as on the
    ESP8266 and ESP32 targets of ESPHome. */
module ArduinoString {

  type Byte = bv8

  const NUL: Byte := 0
  const NL: Byte := 0x0A    // '\n'
  const CR: Byte := 0x0D    // '\r'
  const Star: Byte := 0x2A  // '*'

  const LongMin: int := -0x8000_0000
  const LongMax: int := 0x7FFF_FFFF
  const ULongMax: int := 0xFFFF_FFFF

  // ---------------------------------------------------------------------
  // Character classes of the C locale

  predicate IsSpace(b: Byte) {
    b == 0x20 || (0x09 <= b <= 0x0D)  // ' ', or '\t' through '\r'
  }

  predicate IsDigit(b: Byte) {
    0x30 <= b <= 0x39  // '0' through '9'
  }

  function DigitValue(b: Byte): (v: nat)
    requires IsDigit(b)
    ensures v < 10
  {
    (b - 0x30) as nat
  }

  predicate IsHexDigit(b: Byte) {
    IsDigit(b) || (0x41 <= b <= 0x46) || (0x61 <= b <= 0x66)  // 'A'-'F', 'a'-'f'
  }

  function HexDigitValue(b: Byte): (v: nat)
    requires IsHexDigit(b)
    ensures v < 16
    ensures IsDigit(b) ==> v == DigitValue(b)
  {
    if IsDigit(b) then DigitValue(b)
    else if 0x41 <= b <= 0x46 then (b - 0x41) as nat + 10
    else (b - 0x61) as nat + 10
  }

  predicate AllDigits(d: seq<Byte>) {
    forall i | 0 <= i < |d| :: IsDigit(d[i])
  }

  predicate AllHexDigits(d: seq<Byte>) {
    forall i | 0 <= i < |d| :: IsHexDigit(d[i])
  }

  function Pow10(n: nat): (p: nat)
    ensures p >= 1
  {
    if n == 0 then 1 else 10 * Pow10(n - 1)
  }

  function Pow16(n: nat): (p: nat)
    ensures p >= 1
  {
    if n == 0 then 1 else 16 * Pow16(n - 1)
  }

  /** Value of a run of decimal digits, most significant first. */
  function DecimalValue(d: seq<Byte>): (v: nat)
    requires AllDigits(d)
    ensures v < Pow10(|d|)
  {
    if d == [] then 0 else 10 * DecimalValue(d[..|d| - 1]) + DigitValue(d[|d| - 1])
  }

  /** Value of a run of hexadecimal digits, most significant first. */
  function HexValue(d: seq<Byte>): (v: nat)
    requires AllHexDigits(d)
    ensures v < Pow16(|d|)
  {
    if d == [] then 0 else 16 * HexValue(d[..|d| - 1]) + HexDigitValue(d[|d| - 1])
  }

  // ---------------------------------------------------------------------
  // Scanning helpers shared by the parsers

  /** Number of leading white-space bytes, which the C parsers skip. */
  function SpaceRun(s: seq<Byte>): (n: nat)
    ensures n <= |s| && AllSpace(s[..n])
    ensures n == |s| || !IsSpace(s[n])
  {
    if s == [] || !IsSpace(s[0]) then 0 else 1 + SpaceRun(s[1..])
  }

  predicate AllSpace(d: seq<Byte>) {
    forall i | 0 <= i < |d| :: IsSpace(d[i])
  }

  /** The input with its leading white space removed. */
  function SkipSpace(s: seq<Byte>): seq<Byte> {
    s[SpaceRun(s)..]
  }

  /** Length of the longest prefix of decimal digits. */
  function DigitRun(s: seq<Byte>): (n: nat)
    ensures n <= |s| && AllDigits(s[..n])
    ensures n == |s| || !IsDigit(s[n])
  {
    if s == [] || !IsDigit(s[0]) then 0 else 1 + DigitRun(s[1..])
  }

  /** Length of the longest prefix of hexadecimal digits. */
  function HexRun(s: seq<Byte>): (n: nat)
    ensures n <= |s| && AllHexDigits(s[..n])
    ensures n == |s| || !IsHexDigit(s[n])
  {
    if s == [] || !IsHexDigit(s[0]) then 0 else 1 + HexRun(s[1..])
  }

  predicate IsSign(b: Byte) {
    b == 0x2D || b == 0x2B  // '-' or '+'
  }

  /** The input after an optional leading sign. */
  function DropSign(t: seq<Byte>): seq<Byte> {
    if t != [] && IsSign(t[0]) then t[1..] else t
  }

  predicate Negative(t: seq<Byte>) {
    t != [] && t[0] == 0x2D
  }

  // ---------------------------------------------------------------------
  // String members

  /** Length of the C string held in the buffer: the bytes before the first
      NUL, which is where `strchr` stops searching. */
  function CLen(s: seq<Byte>): (n: nat)
    ensures n <= |s| && NUL !in s[..n]
    ensures n < |s| ==> s[n] == NUL
  {
    if s == [] || s[0] == NUL then 0 else 1 + CLen(s[1..])
  }

  /** `String::indexOf(char)`: the position of the first `c`, found with
      `strchr`, or -1 when `c` is not in the C string. */
  function IndexOf(s: seq<Byte>, c: Byte): (r: int)
    requires c != NUL
    ensures -1 <= r < CLen(s)
    ensures r == -1 <==> c !in s[..CLen(s)]
    ensures r >= 0 ==> s[r] == c && c !in s[..r]
  {
    if s == [] || s[0] == NUL then -1
    else if s[0] == c then 0
    else
      var k := IndexOf(s[1..], c);
      assert s[1..][..CLen(s[1..])] == s[1..1 + CLen(s[1..])];
      if k < 0 then -1 else k + 1
  }

  /** `String::substring(left, right)`: reversed bounds are swapped, a start
      at or past the end gives the empty string, and the end is clamped to the
      length. The callers' arguments are never negative. */
  function Substring(s: seq<Byte>, left: nat, right: nat): (r: seq<Byte>)
    ensures var lo := if left <= right then left else right;
            var hi := if left <= right then right else left;
            |r| == (if lo >= |s| then 0 else if hi <= |s| then hi - lo else |s| - lo) &&
            forall i | 0 <= i < |r| :: r[i] == s[lo + i]
  {
    if left > right then Substring(s, right, left)
    else if left >= |s| then []
    else if right > |s| then s[left..]
    else s[left..right]
  }

  /** `String::charAt(i)`: the byte at `i`, or NUL past the end. */
  function CharAt(s: seq<Byte>, i: nat): (b: Byte)
    ensures i < |s| ==> b == s[i]
    ensures i >= |s| ==> b == NUL
  {
    if i < |s| then s[i] else NUL
  }

  /** `String::toInt()`, which is `atol`: white space, an optional sign and the
      longest run of decimal digits; 0 when there is no digit; saturated to the
      range of a 32-bit `long`. */
  function ToInt(s: seq<Byte>): (r: int)
    ensures LongMin <= r <= LongMax
  {
    var t := SkipSpace(s);
    var u := DropSign(t);
    var v: int := DecimalValue(u[..DigitRun(u)]);
    if Negative(t) then (if -v < LongMin then LongMin else -v)
    else if v > LongMax then LongMax else v
  }

  /** `strtoul(s, NULL, 16)`: white space, an optional sign, an optional `0x`
      or `0X`, then the longest run of hexadecimal digits of either case; 0
      when there is no digit; `ULONG_MAX` on overflow; a minus sign negates
      modulo 2^32. */
  function StrToULHex(s: seq<Byte>): (r: int)
    ensures 0 <= r <= ULongMax
  {
    var t := SkipSpace(s);
    var u := DropSign(t);
    // an "0x" or "0X" prefix
    var w := if |u| >= 2 && u[0] == 0x30 && (u[1] == 0x78 || u[1] == 0x58) then u[2..] else u;
    var v: int := HexValue(w[..HexRun(w)]);
    if v > ULongMax then ULongMax
    else if Negative(t) then (ULongMax + 1 - v) % (ULongMax + 1)
    else v
  }

  // ---------------------------------------------------------------------
  // Lemmas

  lemma {:induction false} Pow10Monotonic(m: nat, n: nat)
    requires m <= n
    ensures Pow10(m) <= Pow10(n)
  {
    if m < n { Pow10Monotonic(m, n - 1); }
  }

  /** `indexOf` finds the first occurrence of `c` when no NUL comes before it. */
  lemma IndexOfFirst(s: seq<Byte>, c: Byte, k: nat)
    requires c != NUL && k < |s| && s[k] == c
    requires c !in s[..k] && NUL !in s[..k]
    ensures IndexOf(s, c) == k
  {
    assert forall j | 0 <= j < k :: s[..k][j] == s[j];
    assert CLen(s) > k;
    assert s[..CLen(s)][k] == c;
    var i := IndexOf(s, c);
    assert forall j | 0 <= j < i :: s[..i][j] == s[j];
  }

  /** A numeral of one to nine digits is read by `toInt` as its decimal value. */
  lemma ToIntOfDigits(d: seq<Byte>)
    requires 0 < |d| <= 9 && AllDigits(d)
    ensures ToInt(d) == DecimalValue(d)
  {
    assert !IsSpace(d[0]) && !IsSign(d[0]);
    assert SpaceRun(d) == 0;
    assert SkipSpace(d) == d;
    assert DropSign(d) == d && !Negative(d);
    DigitRunAll(d);
    assert d[..|d|] == d;
    Pow10Monotonic(|d|, 9);
    Pow10Nine();
    assert DecimalValue(d) <= LongMax;
  }

  /** A run of digits is its own longest digit prefix. */
  lemma {:induction false} DigitRunAll(d: seq<Byte>)
    requires AllDigits(d)
    ensures DigitRun(d) == |d|
  {
    if d != [] {
      DigitRunAll(d[1..]);
    }
  }

  /** `toInt` returns 0 when the text starts with neither a digit, white
      space nor a sign. */
  lemma ToIntNoDigits(s: seq<Byte>)
    requires s == [] || !(IsDigit(s[0]) || IsSpace(s[0]) || IsSign(s[0]))
    ensures ToInt(s) == 0
  {
    assert SkipSpace(s) == s;
    assert DigitRun(s) == 0;
  }

  /** The value `toInt` reads from a text of at most `width` bytes, `width`
      between one and nine, has at most `width` digits, and at most
      `width - 1` when it is negative: `toInt` never saturates there. */
  lemma ToIntBounds(s: seq<Byte>, width: nat)
    requires |s| <= width && 1 <= width <= 9
    ensures -(Pow10(width - 1) as int) < ToInt(s) < Pow10(width)
  {
    var t := SkipSpace(s);
    var u := DropSign(t);
    var n := DigitRun(u);
    var v := DecimalValue(u[..n]);
    assert |u[..n]| == n && v < Pow10(n);
    Pow10Monotonic(n, width);
    Pow10Monotonic(width, 9);
    Pow10Nine();
    assert v < 1000000000;
    if Negative(t) {
      assert |u| == |t| - 1 && n <= width - 1;
      Pow10Monotonic(n, width - 1);
      assert ToInt(s) == -v;
    } else {
      assert ToInt(s) == v;
    }
  }

  lemma Pow10Nine()
    ensures Pow10(9) == 1000000000
  {
  }

  /** Two hexadecimal digits are read by `strtoul(., 16)` as the byte they
      spell, in either letter case. */
  lemma StrToULHexOfPair(h: Byte, l: Byte)
    requires IsHexDigit(h) && IsHexDigit(l)
    ensures StrToULHex([h, l]) == 16 * HexDigitValue(h) + HexDigitValue(l)
  {
    var s := [h, l];
    assert SkipSpace(s) == s;
    assert DropSign(s) == s;
    assert HexRun(s) == 2 by {
      assert HexRun(s[1..]) >= 1;
      assert s[1..][1..] == [];
    }
    assert s[..2] == s;
    assert s[..1] == [h];
    assert [h][..0] == [];
    assert HexValue([h]) == HexDigitValue(h);
    assert HexValue(s) == 16 * HexValue([h]) + HexDigitValue(l);
  }

  /** `strtoul(., 16)` returns 0 when the text starts with neither a
      hexadecimal digit, white space nor a sign. */
  lemma StrToULHexNoDigits(s: seq<Byte>)
    requires s == [] || !(IsHexDigit(s[0]) || IsSpace(s[0]) || IsSign(s[0]))
    ensures StrToULHex(s) == 0
  {
    assert SkipSpace(s) == s;
    assert HexRun(s) == 0;
  }

  /** `strtoul(., 16)` of text that is only white space, or empty, is 0. */
  lemma StrToULHexOfSpace(s: seq<Byte>)
    requires AllSpace(s)
    ensures StrToULHex(s) == 0
  {
    assert SpaceRun(s) == |s|;
    assert SkipSpace(s) == [];
  }

  /** `toInt` reads a minus sign followed by one to nine digits as the
      negated value of the digits: a temperature group such as `-05` reads
      as -5. */
  lemma ToIntNegative(d: seq<Byte>)
    requires 0 < |d| <= 9 && AllDigits(d)
    ensures ToInt([0x2D] + d) == -(DecimalValue(d) as int)
  {
    var s := [0x2D] + d;
    assert s[0] == 0x2D && s[1..] == d;
    assert SpaceRun(s) == 0;
    assert SkipSpace(s) == s;
    assert Negative(s) && DropSign(s) == d;
    DigitRunAll(d);
    assert d[..|d|] == d;
    Pow10Monotonic(|d|, 9);
    Pow10Nine();
    assert DecimalValue(d) <= LongMax;
  }

  /** Appending a digit multiplies the value by ten and adds the digit. */
  lemma DecimalValueSnoc(d: seq<Byte>, c: Byte)
    requires AllDigits(d) && IsDigit(c)
    ensures AllDigits(d + [c]) && DecimalValue(d + [c]) == 10 * DecimalValue(d) + DigitValue(c)
  {
    assert (d + [c])[..|d|] == d;
  }
}
