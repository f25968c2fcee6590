/** The sending side of the protocol: how a WS3 station in "basic" mode lays
    out a packet. Eight tagged, zero-padded decimal fields make the 33-byte
    payload; `*`, the payload's XOR checksum as two upper-case hexadecimal
    digits, CR and LF follow, 38 bytes in all. The validator and the decoder
    are proved against this layout: a packet built from a reading is accepted
    and decodes back to that reading. */
module Transmitter {
  import opened ArduinoString
  import opened Validator
  import opened Decoder

  /** Bytes per packet in "basic" mode. */
  const PacketLength: nat := 38

  /** Readings that fit the fixed widths of the wire format. */
  predicate Sendable(r: Reading) {
    && 0 <= r.windDir < 1000 && 0 <= r.windSpeed < 1000
    && 0 <= r.windSpeed5m < 1000 && 0 <= r.tempF < 1000
    && 0 <= r.rain1h < 1000 && 0 <= r.rain24h < 1000
    && 0 <= r.humidity < 100 && 0 <= r.airPressure < 100000
  }

  function DigitByte(d: nat): (b: Byte)
    requires d < 10
    ensures IsDigit(b) && DigitValue(b) == d
  {
    0x30 + d as Byte
  }

  /** `v` written with exactly `width` decimal digits, zero-padded. */
  function Numeral(v: nat, width: nat): (d: seq<Byte>)
    requires v < Pow10(width)
    ensures |d| == width && AllDigits(d) && DecimalValue(d) == v
  {
    if width == 0 then []
    else
      var d := Numeral(v / 10, width - 1) + [DigitByte(v % 10)];
      assert d[..width - 1] == Numeral(v / 10, width - 1);
      d
  }

  function HexChar(n: Byte): (c: Byte)
    requires n < 16
    ensures IsHexDigit(c) && HexDigitValue(c) == n as int
  {
    if n < 10 then 0x30 + n else 0x37 + n  // '0' + n, or 'A' + n - 10
  }

  /** A byte as two upper-case hexadecimal digits. */
  function HexByte(b: Byte): (r: seq<Byte>)
    ensures |r| == 2 && IsHexDigit(r[0]) && IsHexDigit(r[1])
    ensures 16 * HexDigitValue(r[0]) + HexDigitValue(r[1]) == b as int
  {
    [HexChar(b / 16), HexChar(b % 16)]
  }

  /** The eight groups the station sends for a reading. */
  function Groups(r: Reading): (gs: seq<Group>)
    requires Sendable(r)
    ensures |gs| == 8
  {
    assert Pow10(2) == 100 && Pow10(3) == 1000 && Pow10(5) == 100000;
    BasicGroups(Numeral(r.windDir, 3), Numeral(r.windSpeed, 3), Numeral(r.windSpeed5m, 3),
                Numeral(r.tempF, 3), Numeral(r.rain1h, 3), Numeral(r.rain24h, 3),
                Numeral(r.humidity, 2), Numeral(r.airPressure, 5))
  }

  /** The payload the station sends for a reading. */
  function EncodePayload(r: Reading): (p: seq<Byte>)
    requires Sendable(r)
    ensures |p| == DelimiterIndex
  {
    assert Pow10(2) == 100 && Pow10(3) == 1000 && Pow10(5) == 100000;
    BasicLayoutLength(Numeral(r.windDir, 3), Numeral(r.windSpeed, 3), Numeral(r.windSpeed5m, 3),
                      Numeral(r.tempF, 3), Numeral(r.rain1h, 3), Numeral(r.rain24h, 3),
                      Numeral(r.humidity, 2), Numeral(r.airPressure, 5));
    Layout(Groups(r))
  }

  /** The whole packet the station sends for a reading. */
  function EncodePacket(r: Reading): (pkt: seq<Byte>)
    requires Sendable(r)
    ensures |pkt| == PacketLength
  {
    var p := EncodePayload(r);
    p + [Star] + HexByte(XorFold(p)) + [CR, NL]
  }

  // ---------------------------------------------------------------------
  // Lemmas

  /** Decoding the payload of a reading gives that reading back. */
  lemma DecodeEncode(r: Reading)
    requires Sendable(r)
    ensures Decode(EncodePayload(r)) == r
  {
    assert Pow10(2) == 100 && Pow10(3) == 1000 && Pow10(5) == 100000;
    DecodeBasicLayout(Numeral(r.windDir, 3), Numeral(r.windSpeed, 3), Numeral(r.windSpeed5m, 3),
                      Numeral(r.tempF, 3), Numeral(r.rain1h, 3), Numeral(r.rain24h, 3),
                      Numeral(r.humidity, 2), Numeral(r.airPressure, 5));
  }

  /** The packet of a reading passes the checksum test with its own payload. */
  lemma ValidateEncode(r: Reading)
    requires Sendable(r)
    ensures Validate(EncodePacket(r)) == Accepted(EncodePayload(r))
  {
    var p := EncodePayload(r);
    var pkt := EncodePacket(r);
    var h := HexByte(XorFold(p));
    assert pkt[33] == Star && pkt[34] == h[0] && pkt[35] == h[1];
    assert pkt[..33] == p;
    ChecksumAndPayload(pkt);
  }

  /** The packet of a reading holds no line feed before its last byte, so the
      framer hands it on whole. */
  lemma PacketHasOneLineFeed(r: Reading)
    requires Sendable(r)
    ensures EncodePacket(r)[PacketLength - 1] == NL
    ensures NL !in EncodePacket(r)[..PacketLength - 1]
  {
    assert Pow10(2) == 100 && Pow10(3) == 1000 && Pow10(5) == 100000;
    var p := EncodePayload(r);
    assert NL !in p by {
      var gs := Groups(r);
      assert WellFormed(gs);
      ByteNotInLayout(gs, NL);
    }
    LineFeedOnlyAtEnd(p, HexByte(XorFold(p)));
  }

  /** A payload free of line feeds, framed with `*`, two hexadecimal digits,
      CR and LF, has its only line feed at the end. */
  lemma LineFeedOnlyAtEnd(p: seq<Byte>, h: seq<Byte>)
    requires NL !in p && |h| == 2 && IsHexDigit(h[0]) && IsHexDigit(h[1])
    ensures var pkt := p + [Star] + h + [CR, NL];
            pkt[|pkt| - 1] == NL && NL !in pkt[..|pkt| - 1]
  {
    var pkt := p + [Star] + h + [CR, NL];
    assert pkt[..|pkt| - 1] == p + [Star] + h + [CR];
  }

  /** XOR of the tags and of the digit folds of groups, in order. */
  function GroupsXor(gs: seq<Group>): Byte {
    if gs == [] then 0 else gs[0].tag ^ XorFold(gs[0].digits) ^ GroupsXor(gs[1..])
  }

  /** The checksum of a layout can be taken group by group. */
  lemma {:induction false} XorFoldLayout(gs: seq<Group>)
    ensures XorFold(Layout(gs)) == GroupsXor(gs)
  {
    if gs != [] {
      var g := gs[0];
      XorFoldLayout(gs[1..]);
      XorFoldSnoc([], g.tag);
      assert [] + [g.tag] == [g.tag];
      XorFoldAppend([g.tag], g.digits);
      XorFoldAppend([g.tag] + g.digits, Layout(gs[1..]));
    }
  }
}
