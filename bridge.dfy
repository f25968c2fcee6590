/** The `WS3` component: it frames the bytes of the UART into packets ending
    in a line feed, checks each packet's checksum and stores the decoded
    fields of every accepted packet in its `WS3Packet` record. */
module Bridge {
  import opened ArduinoString
  import opened Validator
  import opened Decoder
  import opened Transmitter

  /** How many bytes one call of `loop` takes from the bytes available to it
      when no packet is pending: everything up to and including the first
      line feed, or everything when there is none. */
  function ReadLength(input: seq<Byte>): (n: nat)
    ensures n <= |input|
    ensures NL in input ==> 0 < n && input[n - 1] == NL && NL !in input[..n - 1]
    ensures NL !in input ==> n == |input|
  {
    if input == [] then 0
    else if input[0] == NL then 1
    else
      var m := ReadLength(input[1..]);
      assert input == [input[0]] + input[1..];
      assert NL in input[1..] ==> input[..m] == [input[0]] + input[1..][..m - 1];
      1 + m
  }

  /** The end of a frame is its first line feed: a prefix ending in a line
      feed and holding no other is exactly what `loop` takes. */
  lemma ReadLengthFirstLineFeed(input: seq<Byte>, n: nat)
    requires 0 < n <= |input| && input[n - 1] == NL && NL !in input[..n - 1]
    ensures ReadLength(input) == n
  {
    var m := ReadLength(input);
    assert forall j | 0 <= j < n - 1 :: input[..n - 1][j] == input[j];
    assert forall j | 0 <= j < m - 1 :: input[..m - 1][j] == input[j];
  }

  /** The record `parse_packet` fills in. The source's rainfall and pressure
      members are `float`s holding the wire value times 0.01 or 0.1; here they
      hold the wire value itself, in hundredths of an inch and tenths of a hPa. */
  class WS3Packet {
    var windDir: int
    var windSpeed: int
    var windSpeed5m: int
    var tempF: int
    var rain1h: int
    var rain24h: int
    var humidity: int
    var airPressure: int

    constructor ()
      ensures Value() == Reading(0, 0, 0, 0, 0, 0, 0, 0)
    {
      windDir, windSpeed, windSpeed5m, tempF := 0, 0, 0, 0;
      rain1h, rain24h, humidity, airPressure := 0, 0, 0, 0;
    }

    /** Writes every member of the record. */
    method Store(r: Reading)
      modifies this
      ensures Value() == r
    {
      windDir, windSpeed, windSpeed5m, tempF := r.windDir, r.windSpeed, r.windSpeed5m, r.tempF;
      rain1h, rain24h, humidity, airPressure := r.rain1h, r.rain24h, r.humidity, r.airPressure;
    }

    /** The record's fields as a value. */
    function Value(): Reading
      reads this
    {
      Reading(windDir, windSpeed, windSpeed5m, tempF, rain1h, rain24h, humidity, airPressure)
    }
  }

  class WS3 {
    /** The bytes of the packet being received (`pkt_str`). */
    var pktStr: seq<Byte>
    /** The payload cut from the last packet that had a delimiter (`payload`). */
    var payload: seq<Byte>
    /** Whether `pktStr` holds a complete packet (`pkt_ok`). */
    var pktOk: bool
    /** The record of the last accepted packet (`privPkt`). */
    const privPkt: WS3Packet

    constructor ()
      ensures pktStr == [] && payload == [] && !pktOk && Valid()
      ensures fresh(privPkt) && privPkt.Value() == Reading(0, 0, 0, 0, 0, 0, 0, 0)
    {
      pktStr, payload, pktOk := [], [], false;
      privPkt := new WS3Packet();
    }

    /** Between two calls of `loop` no packet is pending and the bytes
        gathered so far hold no line feed. */
    predicate Valid()
      reads this
    {
      !pktOk && NL !in pktStr
    }

    /** `parse_packet`: stores the eight fields of `pay` in `p`. */
    method ParsePacket(pay: seq<Byte>, p: WS3Packet)
      modifies p
      ensures p.Value() == Decode(pay)
    {
      p.Store(Decode(pay));
    }

    /** `process_packet`: checks the delimiter, cuts the payload into the
        `payload` member, validates it and, when it passes, parses it into
        `p`. Nothing is stored in `p` for a rejected packet. */
    method ProcessPacket(pkt: seq<Byte>, p: WS3Packet) returns (ok: bool)
      modifies this`payload, p
      ensures ok <==> Validate(pkt).Accepted?
      ensures payload == if HasDelimiter(pkt) then PayloadOf(pkt) else old(payload)
      ensures p.Value() == if ok then Decode(PayloadOf(pkt)) else old(p.Value())
    {
      if CharAt(pkt, DelimiterIndex) != Star {
        return false;
      }
      var chksum := StrToULHex(Substring(pkt, ChecksumStart, ChecksumEnd));
      payload := Substring(pkt, 0, DelimiterIndex);
      ok := ValidatePacket(payload, chksum);
      if ok {
        ParsePacket(payload, p);
      }
    }

    /** `loop`: while no packet is pending, appends the available bytes to
        `pktStr` up to and including a line feed; then, if a packet is
        complete, processes it and starts a new one. `input` stands for the
        bytes the UART has available during the call. */
    method Loop(input: seq<Byte>) returns (consumed: nat)
      modifies this`pktStr, this`pktOk, this`payload, privPkt
      ensures consumed == if old(pktOk) then 0 else ReadLength(input)
      ensures !pktOk
      ensures old(Valid()) ==> Valid()
      ensures var frame := old(pktStr) + input[..consumed];
              if old(pktOk) || NL in input then
                && pktStr == []
                && payload == (if HasDelimiter(frame) then PayloadOf(frame) else old(payload))
                && privPkt.Value() ==
                   (if Validate(frame).Accepted? then Decode(PayloadOf(frame)) else old(privPkt.Value()))
              else
                pktStr == frame && payload == old(payload) && privPkt.Value() == old(privPkt.Value())
    {
      consumed := 0;
      while consumed < |input| && !pktOk
        invariant consumed <= |input|
        invariant old(pktOk) ==> consumed == 0 && pktOk
        invariant pktStr == old(pktStr) + input[..consumed]
        invariant !pktOk ==> NL !in input[..consumed]
        invariant pktOk && !old(pktOk) ==>
                    0 < consumed && input[consumed - 1] == NL && NL !in input[..consumed - 1]
        invariant payload == old(payload) && privPkt.Value() == old(privPkt.Value())
      {
        var inChar := input[consumed];
        assert input[..consumed + 1] == input[..consumed] + [inChar];
        pktStr := pktStr + [inChar];
        consumed := consumed + 1;
        if inChar == NL {
          pktOk := true;
        }
      }
      if !old(pktOk) {
        if pktOk {
          ReadLengthFirstLineFeed(input, consumed);
        } else {
          assert input[..consumed] == input;
        }
      }
      if pktOk {
        var accepted := ProcessPacket(pktStr, privPkt);
        pktStr := [];
        pktOk := false;
      }
    }
  }

  // ---------------------------------------------------------------------
  // Lemmas

  /** Any 33-byte payload free of line feeds, followed by `*`, two
      hexadecimal digits spelling its checksum, CR and LF, is framed whole
      and accepted with that payload. */
  lemma FramedPayloadAccepted(p: seq<Byte>, hi: Byte, lo: Byte)
    requires |p| == DelimiterIndex && NL !in p
    requires IsHexDigit(hi) && IsHexDigit(lo)
    requires XorFold(p) as int == 16 * HexDigitValue(hi) + HexDigitValue(lo)
    ensures var pkt := p + [Star, hi, lo, CR, NL];
            ReadLength(pkt) == |pkt| && Validate(pkt) == Accepted(p) && PayloadOf(pkt) == p
  {
    var pkt := p + [Star, hi, lo, CR, NL];
    assert ReadLength(pkt) == |pkt| by {
      assert pkt[..37] == p + [Star, hi, lo, CR];
      ReadLengthFirstLineFeed(pkt, 38);
    }
    assert Validate(pkt) == Accepted(p) && PayloadOf(pkt) == p by {
      assert pkt[33] == Star && pkt[34] == hi && pkt[35] == lo;
      assert pkt[..33] == p;
      ChecksumAndPayload(pkt);
    }
  }

  /** A packet the station sends, followed by anything, is framed whole by a
      bridge with no bytes pending: the frame is exactly that packet, it is
      accepted, and the stored record is the reading it was built from. */
  lemma StationPacketDelivered(r: Reading, rest: seq<Byte>)
    requires Sendable(r)
    ensures var input := EncodePacket(r) + rest;
            var n := ReadLength(input);
            && n == PacketLength
            && input[..n] == EncodePacket(r)
            && Validate(input[..n]) == Accepted(EncodePayload(r))
            && PayloadOf(input[..n]) == EncodePayload(r)
            && Decode(PayloadOf(input[..n])) == r
  {
    var pkt := EncodePacket(r);
    var input := pkt + rest;
    PacketHasOneLineFeed(r);
    assert input[..PacketLength - 1] == pkt[..PacketLength - 1];
    ReadLengthFirstLineFeed(input, PacketLength);
    assert input[..PacketLength] == pkt;
    ValidateEncode(r);
    DecodeEncode(r);
  }
}
