/** The packet quoted in the comments of `loop`,
    `c000s000g000t069r000p000h49b09945*38`, as the station sends it (with CR
    and LF after the checksum): the bridge frames it whole, accepts it and
    reads 69 degrees Fahrenheit, 49 % humidity and 994.5 hPa, with no wind
    and no rain. */
module QuotedPacket {
  import opened ArduinoString
  import opened Validator
  import opened Decoder
  import opened Transmitter
  import opened Bridge

  const Zeros: seq<Byte> := [0x30, 0x30, 0x30]                // "000"
  const TempDigits: seq<Byte> := [0x30, 0x36, 0x39]           // "069"
  const HumidityDigits: seq<Byte> := [0x34, 0x39]             // "49"
  const PressureDigits: seq<Byte> := [0x30, 0x39, 0x39, 0x34, 0x35] // "09945"

  /** The groups `c000`, `s000`, `g000`, `t069`, `r000`, `p000`, `h49` and
      `b09945`. */
  function QuotedGroups(): (gs: seq<Group>)
    ensures |gs| == 8
  {
    BasicGroups(Zeros, Zeros, Zeros, TempDigits, Zeros, Zeros, HumidityDigits, PressureDigits)
  }

  /** `c000s000g000t069r000p000h49b09945`. */
  function Payload(): seq<Byte> {
    Layout(QuotedGroups())
  }

  /** The payload followed by `*38`, CR and LF. */
  function Frame(): seq<Byte> {
    Payload() + [Star, 0x33, 0x38, CR, NL]
  }

  /** One more digit: the value and the checksum of `d + [c]` from those of
      `d`. */
  lemma Snoc(d: seq<Byte>, c: Byte, e: seq<Byte>)
    requires AllDigits(d) && IsDigit(c) && e == d + [c]
    ensures AllDigits(e) && DecimalValue(e) == 10 * DecimalValue(d) + DigitValue(c)
    ensures XorFold(e) == XorFold(d) ^ c
  {
    DecimalValueSnoc(d, c);
    XorFoldSnoc(d, c);
  }

  /** The values and the checksums of the digit groups. */
  lemma GroupValues()
    ensures AllDigits(Zeros) && DecimalValue(Zeros) == 0 && XorFold(Zeros) == 0x30
    ensures AllDigits(TempDigits) && DecimalValue(TempDigits) == 69 && XorFold(TempDigits) == 0x3F
    ensures AllDigits(HumidityDigits) && DecimalValue(HumidityDigits) == 49
    ensures XorFold(HumidityDigits) == 0x0D
    ensures AllDigits(PressureDigits) && DecimalValue(PressureDigits) == 9945
    ensures XorFold(PressureDigits) == 0x31
  {
    Snoc([], 0x30, [0x30]);
    Snoc([0x30], 0x30, [0x30, 0x30]);
    Snoc([0x30, 0x30], 0x30, Zeros);
    Snoc([0x30], 0x36, [0x30, 0x36]);
    Snoc([0x30, 0x36], 0x39, TempDigits);
    Snoc([], 0x34, [0x34]);
    Snoc([0x34], 0x39, HumidityDigits);
    Snoc([0x30], 0x39, [0x30, 0x39]);
    Snoc([0x30, 0x39], 0x39, [0x30, 0x39, 0x39]);
    Snoc([0x30, 0x39, 0x39], 0x34, [0x30, 0x39, 0x39, 0x34]);
    Snoc([0x30, 0x39, 0x39, 0x34], 0x35, PressureDigits);
  }

  /** The fields of the quoted payload. */
  lemma PayloadDecodes()
    ensures Decode(Payload()) == Reading(0, 0, 0, 69, 0, 0, 49, 9945)
  {
    GroupValues();
    DecodeBasicLayout(Zeros, Zeros, Zeros, TempDigits, Zeros, Zeros, HumidityDigits, PressureDigits);
  }

  /** The payload's checksum is 0x38, the `38` after the `*`. */
  lemma PayloadChecksum()
    ensures XorFold(Payload()) == 0x38
  {
    var gs := QuotedGroups();
    XorFoldLayout(gs);
    GroupValues();
    assert GroupsXor(gs[8..]) == 0;
    assert GroupsXor(gs[7..]) == 0x53;
    assert GroupsXor(gs[6..]) == 0x36;
    assert GroupsXor(gs[5..]) == 0x76;
    assert GroupsXor(gs[4..]) == 0x34;
    assert GroupsXor(gs[3..]) == 0x7F;
    assert GroupsXor(gs[2..]) == 0x28;
    assert GroupsXor(gs[1..]) == 0x6B;
    assert gs[0..] == gs;
  }

  /** The quoted packet is framed whole and accepted with its payload. */
  lemma FrameAccepted()
    ensures ReadLength(Frame()) == |Frame()| == PacketLength
    ensures Validate(Frame()) == Accepted(Payload())
    ensures PayloadOf(Frame()) == Payload()
  {
    var gs := QuotedGroups();
    GroupValues();
    BasicLayoutLength(Zeros, Zeros, Zeros, TempDigits, Zeros, Zeros, HumidityDigits, PressureDigits);
    BasicGroupsDistinct(Zeros, Zeros, Zeros, TempDigits, Zeros, Zeros, HumidityDigits, PressureDigits);
    ByteNotInLayout(gs, NL);
    PayloadChecksum();
    FramedPayloadAccepted(Payload(), 0x33, 0x38);
  }
}
