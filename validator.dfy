/** The checksum check of a framed WS3 packet in "basic" mode: the `*`
    delimiter at offset 33, the two hexadecimal checksum digits at offsets 34
    and 35, and the running XOR of the 33 payload bytes before the delimiter. */
module Validator {
  import opened ArduinoString

  const DelimiterIndex: nat := 33
  const ChecksumStart: nat := 34
  const ChecksumEnd: nat := 36

  /** Running XOR of the first `n` bytes, starting from 0 and taken left to
      right. */
  function XorPrefix(s: seq<Byte>, n: nat): Byte
    requires n <= |s|
  {
    if n == 0 then 0 else XorPrefix(s, n - 1) ^ s[n - 1]
  }

  /** Running XOR of all the bytes. */
  function XorFold(s: seq<Byte>): Byte {
    XorPrefix(s, |s|)
  }

  /** `validate_packet`: folds the payload into a byte with XOR and compares
      the result with the transmitted checksum `chk`. */
  method ValidatePacket(pay: seq<Byte>, chk: int) returns (ok: bool)
    ensures ok <==> XorFold(pay) as int == chk
  {
    var tmp: Byte := 0;
    for x := 0 to |pay|
      invariant tmp == XorPrefix(pay, x)
    {
      var i1 := pay[x];
      tmp := tmp ^ i1;
    }
    ok := tmp as int == chk;
  }

  /** The delimiter test of `process_packet`. */
  function HasDelimiter(pkt: seq<Byte>): (b: bool)
    ensures b <==> |pkt| > DelimiterIndex && pkt[DelimiterIndex] == Star
  {
    CharAt(pkt, DelimiterIndex) == Star
  }

  /** The checksum as `process_packet` reads it: bytes 34 and 35 in base 16. */
  function TransmittedChecksum(pkt: seq<Byte>): (chk: int)
    ensures 0 <= chk <= ULongMax
  {
    StrToULHex(Substring(pkt, ChecksumStart, ChecksumEnd))
  }

  /** The payload as `process_packet` cuts it: the bytes before offset 33,
      or the whole frame when it is shorter. */
  function PayloadOf(pkt: seq<Byte>): (p: seq<Byte>)
    ensures |pkt| >= DelimiterIndex ==> p == pkt[..DelimiterIndex]
    ensures |pkt| < DelimiterIndex ==> p == pkt
  {
    Substring(pkt, 0, DelimiterIndex)
  }

  /** Why a frame is rejected, or the payload of an accepted one. The source
      only returns `false` on rejection; the two reasons are kept apart here
      because they follow different branches. */
  datatype Verdict =
    | MissingDelimiter
    | ChecksumMismatch(transmitted: int, computed: Byte)
    | Accepted(payload: seq<Byte>)

  /** The decision `process_packet` takes about a frame. */
  function Validate(pkt: seq<Byte>): (v: Verdict)
    ensures v.MissingDelimiter? <==> |pkt| <= 33 || pkt[33] != Star
    ensures v.Accepted? ==>
              v.payload == pkt[..33] && XorFold(pkt[..33]) as int == TransmittedChecksum(pkt)
    ensures v.ChecksumMismatch? ==>
              v.computed == XorFold(pkt[..33]) && v.transmitted == TransmittedChecksum(pkt) &&
              v.computed as int != v.transmitted
  {
    if !HasDelimiter(pkt) then MissingDelimiter
    else
      var chk := TransmittedChecksum(pkt);
      var tmp := XorFold(PayloadOf(pkt));
      if tmp as int == chk then Accepted(PayloadOf(pkt)) else ChecksumMismatch(chk, tmp)
  }

  // ---------------------------------------------------------------------
  // Lemmas

  /** The first `n` bytes alone decide the XOR of the first `n` bytes. */
  lemma {:induction false} XorPrefixAgree(s: seq<Byte>, t: seq<Byte>, n: nat)
    requires n <= |s| && n <= |t|
    requires forall k | 0 <= k < n :: s[k] == t[k]
    ensures XorPrefix(s, n) == XorPrefix(t, n)
  {
    if n > 0 {
      XorPrefixAgree(s, t, n - 1);
    }
  }

  /** The fold of a concatenation is the XOR of the folds of its parts. */
  lemma {:induction false} XorFoldAppend(a: seq<Byte>, b: seq<Byte>)
    ensures XorFold(a + b) == XorFold(a) ^ XorFold(b)
  {
    XorPrefixAgree(a + b, a, |a|);
    XorPrefixAppend(a, b, |b|);
  }

  lemma {:induction false} XorPrefixAppend(a: seq<Byte>, b: seq<Byte>, n: nat)
    requires n <= |b| && XorPrefix(a + b, |a|) == XorFold(a)
    ensures XorPrefix(a + b, |a| + n) == XorFold(a) ^ XorPrefix(b, n)
  {
    if n > 0 {
      XorPrefixAppend(a, b, n - 1);
    }
  }

  /** Appending a byte XORs it into the fold. */
  lemma XorFoldSnoc(s: seq<Byte>, b: Byte)
    ensures XorFold(s + [b]) == XorFold(s) ^ b
  {
    XorPrefixAgree(s + [b], s, |s|);
  }

  /** Replacing one byte changes the fold by exactly the XOR of the old and the
      new byte. */
  lemma XorFoldUpdate(s: seq<Byte>, i: nat, b: Byte)
    requires i < |s|
    ensures XorFold(s[i := b]) == XorFold(s) ^ s[i] ^ b
  {
    XorPrefixUpdate(s, i, b, |s|);
  }

  lemma {:induction false} XorPrefixUpdate(s: seq<Byte>, i: nat, b: Byte, n: nat)
    requires i < n <= |s|
    ensures XorPrefix(s[i := b], n) == XorPrefix(s, n) ^ s[i] ^ b
  {
    if n == i + 1 {
      XorPrefixAgree(s[i := b], s, i);
    } else {
      XorPrefixUpdate(s, i, b, n - 1);
    }
  }

  /** Distinct bytes have distinct numeric values. */
  lemma ByteValueInjective(x: Byte, y: Byte)
    ensures x != y ==> x as int != y as int
  {
  }

  /** For a frame of the full "basic" length with two hexadecimal digits after
      the delimiter, the transmitted checksum is the byte those digits spell
      and the payload is exactly bytes 0 to 32. */
  lemma ChecksumAndPayload(pkt: seq<Byte>)
    requires |pkt| >= 36 && pkt[33] == Star
    requires IsHexDigit(pkt[34]) && IsHexDigit(pkt[35])
    ensures TransmittedChecksum(pkt) == 16 * HexDigitValue(pkt[34]) + HexDigitValue(pkt[35])
    ensures PayloadOf(pkt) == pkt[..33] && |PayloadOf(pkt)| == 33
    ensures Validate(pkt).Accepted? <==>
              XorFold(pkt[..33]) as int == 16 * HexDigitValue(pkt[34]) + HexDigitValue(pkt[35])
  {
    assert Substring(pkt, ChecksumStart, ChecksumEnd) == [pkt[34], pkt[35]];
    StrToULHexOfPair(pkt[34], pkt[35]);
  }

  /** Changing any single payload byte of an accepted frame makes it rejected
      with a checksum mismatch. */
  lemma SingleByteChangeRejected(pkt: seq<Byte>, i: nat, b: Byte)
    requires Validate(pkt).Accepted?
    requires i < 33 && b != pkt[i]
    ensures Validate(pkt[i := b]).ChecksumMismatch?
  {
    var pkt' := pkt[i := b];
    var d, d' := Substring(pkt, ChecksumStart, ChecksumEnd), Substring(pkt', ChecksumStart, ChecksumEnd);
    assert |d'| == |d| && forall k | 0 <= k < |d| :: d'[k] == d[k];
    assert d' == d;
    assert pkt'[..33] == pkt[..33][i := b];
    XorFoldUpdate(pkt[..33], i, b);
    assert pkt[..33][i] ^ b != 0;
    ByteValueInjective(XorFold(pkt'[..33]), XorFold(pkt[..33]));
  }

  /** A frame that ends right after the delimiter, or has only white space
      there, carries no checksum digits; `strtoul` then reads 0, so such a
      frame is accepted whenever its payload folds to 0. */
  lemma MissingChecksumDigitsReadAsZero(payload: seq<Byte>, tail: seq<Byte>)
    requires |payload| == 33 && XorFold(payload) == 0
    requires forall k | 0 <= k < |tail| :: IsSpace(tail[k])
    ensures Validate(payload + [Star] + tail) == Accepted(payload)
  {
    var pkt := payload + [Star] + tail;
    assert pkt[33] == Star;
    assert pkt[..33] == payload;
    var digits := Substring(pkt, ChecksumStart, ChecksumEnd);
    assert forall k | 0 <= k < |digits| :: digits[k] == tail[k];
    StrToULHexOfSpace(digits);
  }
}
