/** `parse_packet`: the eight tagged fields of a "basic" WS3 payload such as
    `c000s000g000t069r000p000h49b09945`. Each field is found by searching for
    its tag byte, and its digits are the fixed-width slice right after it. */
module Decoder {
  import opened ArduinoString

  const TagWindDir: Byte := 0x63     // 'c'
  const TagWindSpeed: Byte := 0x73   // 's'
  const TagWindSpeed5m: Byte := 0x67 // 'g'
  const TagTemp: Byte := 0x74        // 't'
  const TagRain1h: Byte := 0x72      // 'r'
  const TagRain24h: Byte := 0x70     // 'p'
  const TagHumidity: Byte := 0x68    // 'h'
  const TagPressure: Byte := 0x62    // 'b'

  /** The `WS3Packet` record as a value. Rainfall is counted in hundredths of
      an inch and air pressure in tenths of a hPa, the units the station
      sends, instead of the source's scaled `float`s. */
  datatype Reading = Reading(
    windDir: int,     // degrees
    windSpeed: int,   // mph, over one minute
    windSpeed5m: int, // mph, highest over five minutes
    tempF: int,       // degrees Fahrenheit
    rain1h: int,      // hundredths of an inch, previous hour
    rain24h: int,     // hundredths of an inch, previous 24 hours
    humidity: int,    // percent
    airPressure: int  // tenths of a hPa
  )

  /** Where the digits of a field start: one past the first `tag`, or 0 when
      the tag is absent, because `indexOf` then gives -1. */
  function FieldStart(pay: seq<Byte>, tag: Byte): (k: nat)
    requires tag != NUL
    ensures k == 0 <==> tag !in pay[..CLen(pay)]
    ensures k > 0 ==> k <= |pay| && pay[k - 1] == tag && tag !in pay[..k - 1]
  {
    IndexOf(pay, tag) + 1
  }

  /** The `substring` of `width` bytes that follows the first `tag`. */
  function FieldText(pay: seq<Byte>, tag: Byte, width: nat): (text: seq<Byte>)
    requires tag != NUL
    ensures |text| <= width
  {
    var k := FieldStart(pay, tag);
    Substring(pay, k, k + width)
  }

  /** The field of `width` digits after the first `tag`, read with `toInt`. */
  function Field(pay: seq<Byte>, tag: Byte, width: nat): (v: int)
    requires tag != NUL && 1 <= width <= 9
    ensures -(Pow10(width - 1) as int) < v < Pow10(width)
  {
    var text := FieldText(pay, tag, width);
    ToIntBounds(text, width);
    ToInt(text)
  }

  /** `parse_packet`: all eight fields of a payload. */
  function Decode(pay: seq<Byte>): (r: Reading)
    ensures -100 < r.windDir < 1000 && -100 < r.windSpeed < 1000
    ensures -100 < r.windSpeed5m < 1000 && -100 < r.tempF < 1000
    ensures -100 < r.rain1h < 1000 && -100 < r.rain24h < 1000
    ensures -10 < r.humidity < 100
    ensures -10000 < r.airPressure < 100000
  {
    assert Pow10(2) == 100 && Pow10(3) == 1000;
    assert Pow10(4) == 10000 && Pow10(5) == 100000;
    Reading(
      Field(pay, TagWindDir, 3),
      Field(pay, TagWindSpeed, 3),
      Field(pay, TagWindSpeed5m, 3),
      Field(pay, TagTemp, 3),
      Field(pay, TagRain1h, 3),
      Field(pay, TagRain24h, 3),
      Field(pay, TagHumidity, 2),
      Field(pay, TagPressure, 5))
  }

  // ---------------------------------------------------------------------
  // Lemmas

  /** When the first `tag` is at `k` and no NUL comes before it, the field is
      `toInt` of the `width` bytes after it. */
  lemma FieldAt(pay: seq<Byte>, tag: Byte, width: nat, k: nat)
    requires tag != NUL && 1 <= width <= 9
    requires k + 1 + width <= |pay| && pay[k] == tag
    requires tag !in pay[..k] && NUL !in pay[..k]
    ensures Field(pay, tag, width) == ToInt(pay[k + 1..k + 1 + width])
  {
    assert FieldText(pay, tag, width) == pay[k + 1..k + 1 + width] by {
      IndexOfFirst(pay, tag, k);
      assert FieldStart(pay, tag) == k + 1;
    }
  }

  /** When the first `tag` is at `k`, no NUL comes before it and `width`
      digits follow it, the field is the decimal value of those digits. */
  lemma FieldOfDigits(pay: seq<Byte>, tag: Byte, width: nat, k: nat)
    requires tag != NUL && 1 <= width <= 9
    requires k + 1 + width <= |pay| && pay[k] == tag
    requires tag !in pay[..k] && NUL !in pay[..k]
    requires AllDigits(pay[k + 1..k + 1 + width])
    ensures Field(pay, tag, width) == DecimalValue(pay[k + 1..k + 1 + width])
  {
    FieldAt(pay, tag, width, k);
    ToIntOfDigits(pay[k + 1..k + 1 + width]);
  }

  /** A field whose digits carry a minus sign, such as a temperature group
      `t-05`, reads as the negated value of the digits after the sign. */
  lemma FieldOfNegative(pay: seq<Byte>, tag: Byte, width: nat, k: nat)
    requires tag != NUL && 2 <= width <= 9
    requires k + 1 + width <= |pay| && pay[k] == tag
    requires tag !in pay[..k] && NUL !in pay[..k]
    requires pay[k + 1] == 0x2D && AllDigits(pay[k + 2..k + 1 + width])  // '-'
    ensures Field(pay, tag, width) == -(DecimalValue(pay[k + 2..k + 1 + width]) as int)
  {
    var text, digits := pay[k + 1..k + 1 + width], pay[k + 2..k + 1 + width];
    assert Field(pay, tag, width) == ToInt(text) by {
      FieldAt(pay, tag, width, k);
    }
    assert text == [0x2D] + digits;
    ToIntNegative(digits);
  }

  /** A field whose tag is missing is read from the start of the payload. */
  lemma AbsentTagReadsFromStart(pay: seq<Byte>, tag: Byte, width: nat)
    requires tag != NUL && 1 <= width <= 9 && tag !in pay
    ensures Field(pay, tag, width) == ToInt(Substring(pay, 0, width))
  {
    assert FieldText(pay, tag, width) == Substring(pay, 0, width) by {
      assert forall j | 0 <= j < CLen(pay) :: pay[..CLen(pay)][j] == pay[j];
      assert tag !in pay[..CLen(pay)];
      assert FieldStart(pay, tag) == 0;
    }
  }

  /** So a payload that starts with a tag letter, as every payload of the
      station does, yields 0 for each field whose tag is missing. */
  lemma AbsentTagReadsZero(pay: seq<Byte>, tag: Byte, width: nat)
    requires tag != NUL && 1 <= width <= 9 && tag !in pay
    requires pay != [] && pay[0] == TagWindDir
    ensures Field(pay, tag, width) == 0
  {
    AbsentTagReadsFromStart(pay, tag, width);
    var text := Substring(pay, 0, width);
    assert text[0] == TagWindDir;
    ToIntNoDigits(text);
  }

  /** A field preceded only by bytes that are neither its tag nor NUL is
      decoded as the value of the digits that follow the tag. */
  lemma FieldAfterPrefix(pre: seq<Byte>, tag: Byte, digits: seq<Byte>, post: seq<Byte>)
    requires tag != NUL && 1 <= |digits| <= 9 && AllDigits(digits)
    requires tag !in pre && NUL !in pre
    ensures Field(pre + [tag] + digits + post, tag, |digits|) == DecimalValue(digits)
  {
    var pay := pre + [tag] + digits + post;
    var k := |pre|;
    assert pay[k] == tag;
    assert pay[..k] == pre;
    assert pay[k + 1..k + 1 + |digits|] == digits;
    FieldOfDigits(pay, tag, |digits|, k);
  }

  lemma DigitsOnly(d: seq<Byte>)
    requires AllDigits(d)
    ensures forall c | c in d :: IsDigit(c)
  {
  }

  /** A tag and the digits the station sends after it. */
  datatype Group = Group(tag: Byte, digits: seq<Byte>)

  /** The bytes of groups sent one after the other. */
  function Layout(gs: seq<Group>): seq<Byte> {
    if gs == [] then [] else [gs[0].tag] + gs[0].digits + Layout(gs[1..])
  }

  /** Every tag is neither NUL nor a digit and is followed by digits only. */
  predicate WellFormed(gs: seq<Group>) {
    forall i | 0 <= i < |gs| :: gs[i].tag != NUL && !IsDigit(gs[i].tag) && AllDigits(gs[i].digits)
  }

  /** In a well-formed layout, the field of a tag that no earlier group uses
      is the decimal value of that group's digits, whatever precedes the
      layout, as long as that has neither the tag nor NUL in it. */
  lemma {:induction false} FieldInLayout(pre: seq<Byte>, gs: seq<Group>, i: nat)
    requires WellFormed(gs) && i < |gs| && 1 <= |gs[i].digits| <= 9
    requires forall j | 0 <= j < i :: gs[j].tag != gs[i].tag
    requires gs[i].tag !in pre && NUL !in pre
    ensures Field(pre + Layout(gs), gs[i].tag, |gs[i].digits|) == DecimalValue(gs[i].digits)
    decreases i
  {
    var g := gs[0];
    if i == 0 {
      assert pre + Layout(gs) == pre + [g.tag] + g.digits + Layout(gs[1..]);
      FieldAfterPrefix(pre, g.tag, g.digits, Layout(gs[1..]));
    } else {
      DigitsOnly(g.digits);
      var pre' := pre + [g.tag] + g.digits;
      assert pre' + Layout(gs[1..]) == pre + Layout(gs);
      FieldInLayout(pre', gs[1..], i - 1);
    }
  }

  /** A byte that is no tag and no digit never occurs in a well-formed layout. */
  lemma {:induction false} ByteNotInLayout(gs: seq<Group>, b: Byte)
    requires WellFormed(gs) && !IsDigit(b)
    requires forall i | 0 <= i < |gs| :: gs[i].tag != b
    ensures b !in Layout(gs)
  {
    if gs != [] {
      DigitsOnly(gs[0].digits);
      ByteNotInLayout(gs[1..], b);
    }
  }

  /** The station's eight groups in the order it sends them. */
  function BasicGroups(d1: seq<Byte>, d2: seq<Byte>, d3: seq<Byte>, d4: seq<Byte>,
                       d5: seq<Byte>, d6: seq<Byte>, d7: seq<Byte>, d8: seq<Byte>): (gs: seq<Group>)
    ensures |gs| == 8
  {
    [Group(TagWindDir, d1), Group(TagWindSpeed, d2), Group(TagWindSpeed5m, d3), Group(TagTemp, d4),
     Group(TagRain1h, d5), Group(TagRain24h, d6), Group(TagHumidity, d7), Group(TagPressure, d8)]
  }

  /** A payload in the station's layout is one byte per tag plus its digits. */
  lemma {:induction false} BasicLayoutLength(d1: seq<Byte>, d2: seq<Byte>, d3: seq<Byte>, d4: seq<Byte>,
                                             d5: seq<Byte>, d6: seq<Byte>, d7: seq<Byte>, d8: seq<Byte>)
    ensures |Layout(BasicGroups(d1, d2, d3, d4, d5, d6, d7, d8))| ==
            8 + |d1| + |d2| + |d3| + |d4| + |d5| + |d6| + |d7| + |d8|
  {
    var gs := BasicGroups(d1, d2, d3, d4, d5, d6, d7, d8);
    assert |Layout(gs[8..])| == 0;
    assert |Layout(gs[7..])| == 1 + |d8|;
    assert |Layout(gs[6..])| == 2 + |d7| + |d8|;
    assert |Layout(gs[5..])| == 3 + |d6| + |d7| + |d8|;
    assert |Layout(gs[4..])| == 4 + |d5| + |d6| + |d7| + |d8|;
    assert |Layout(gs[3..])| == 5 + |d4| + |d5| + |d6| + |d7| + |d8|;
    assert |Layout(gs[2..])| == 6 + |d3| + |d4| + |d5| + |d6| + |d7| + |d8|;
    assert |Layout(gs[1..])| == 7 + |d2| + |d3| + |d4| + |d5| + |d6| + |d7| + |d8|;
    assert gs[0..] == gs;
  }

  /** The station's groups are well formed and no two of them share a tag. */
  lemma BasicGroupsDistinct(d1: seq<Byte>, d2: seq<Byte>, d3: seq<Byte>, d4: seq<Byte>,
                            d5: seq<Byte>, d6: seq<Byte>, d7: seq<Byte>, d8: seq<Byte>)
    requires AllDigits(d1) && AllDigits(d2) && AllDigits(d3) && AllDigits(d4)
    requires AllDigits(d5) && AllDigits(d6) && AllDigits(d7) && AllDigits(d8)
    ensures WellFormed(BasicGroups(d1, d2, d3, d4, d5, d6, d7, d8))
    ensures forall i, j | 0 <= j < i < 8 ::
              BasicGroups(d1, d2, d3, d4, d5, d6, d7, d8)[j].tag !=
              BasicGroups(d1, d2, d3, d4, d5, d6, d7, d8)[i].tag
  {
  }

  /** A field depends only on the payload up to the end of its digits: two
      payloads that agree there, with the tag first found at `k` and no NUL
      before it, read the same value for that field, whatever follows. */
  lemma FieldLocal(pay: seq<Byte>, pay': seq<Byte>, tag: Byte, width: nat, k: nat)
    requires tag != NUL && 1 <= width <= 9
    requires k + 1 + width <= |pay| && k + 1 + width <= |pay'|
    requires pay[k] == tag && tag !in pay[..k] && NUL !in pay[..k]
    requires pay[..k + 1 + width] == pay'[..k + 1 + width]
    ensures Field(pay', tag, width) == Field(pay, tag, width)
  {
    assert pay[..k] == pay'[..k] && pay'[k] == tag by {
      assert pay[..k] == pay[..k + 1 + width][..k];
      assert pay'[..k] == pay'[..k + 1 + width][..k];
      assert pay[..k + 1 + width][k] == pay[k];
    }
    assert pay[k + 1..k + 1 + width] == pay'[k + 1..k + 1 + width] by {
      assert pay[k + 1..k + 1 + width] == pay[..k + 1 + width][k + 1..];
      assert pay'[k + 1..k + 1 + width] == pay'[..k + 1 + width][k + 1..];
    }
    FieldAt(pay, tag, width, k);
    FieldAt(pay', tag, width, k);
  }

  /** A well-formed layout of eight groups carrying the station's tags, in
      the station's order and widths, decodes to the values of its digits. */
  lemma {:induction false} DecodeLayout(gs: seq<Group>)
    requires |gs| == 8 && WellFormed(gs)
    requires forall i, j | 0 <= j < i < 8 :: gs[j].tag != gs[i].tag
    requires gs[0].tag == TagWindDir && gs[1].tag == TagWindSpeed
    requires gs[2].tag == TagWindSpeed5m && gs[3].tag == TagTemp
    requires gs[4].tag == TagRain1h && gs[5].tag == TagRain24h
    requires gs[6].tag == TagHumidity && gs[7].tag == TagPressure
    requires forall i | 0 <= i < 6 :: |gs[i].digits| == 3
    requires |gs[6].digits| == 2 && |gs[7].digits| == 5
    ensures Decode(Layout(gs)) ==
            Reading(DecimalValue(gs[0].digits), DecimalValue(gs[1].digits),
                    DecimalValue(gs[2].digits), DecimalValue(gs[3].digits),
                    DecimalValue(gs[4].digits), DecimalValue(gs[5].digits),
                    DecimalValue(gs[6].digits), DecimalValue(gs[7].digits))
  {
    assert [] + Layout(gs) == Layout(gs);
    FieldInLayout([], gs, 0);
    FieldInLayout([], gs, 1);
    FieldInLayout([], gs, 2);
    FieldInLayout([], gs, 3);
    FieldInLayout([], gs, 4);
    FieldInLayout([], gs, 5);
    FieldInLayout([], gs, 6);
    FieldInLayout([], gs, 7);
  }

  /** A payload in the station's layout decodes, field by field, to the
      decimal values of its digit groups (3, 3, 3, 3, 3, 3, 2 and 5 digits). */
  lemma {:induction false} DecodeBasicLayout(d1: seq<Byte>, d2: seq<Byte>, d3: seq<Byte>, d4: seq<Byte>,
                          d5: seq<Byte>, d6: seq<Byte>, d7: seq<Byte>, d8: seq<Byte>)
    requires |d1| == |d2| == |d3| == |d4| == |d5| == |d6| == 3 && |d7| == 2 && |d8| == 5
    requires AllDigits(d1) && AllDigits(d2) && AllDigits(d3) && AllDigits(d4)
    requires AllDigits(d5) && AllDigits(d6) && AllDigits(d7) && AllDigits(d8)
    ensures Decode(Layout(BasicGroups(d1, d2, d3, d4, d5, d6, d7, d8))) ==
            Reading(DecimalValue(d1), DecimalValue(d2), DecimalValue(d3), DecimalValue(d4),
                    DecimalValue(d5), DecimalValue(d6), DecimalValue(d7), DecimalValue(d8))
  {
    BasicGroupsDistinct(d1, d2, d3, d4, d5, d6, d7, d8);
    DecodeLayout(BasicGroups(d1, d2, d3, d4, d5, d6, d7, d8));
  }
}
