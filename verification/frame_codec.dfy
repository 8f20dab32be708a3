/** The fixed-offset decoders for SAE J1979 service 01 replies carried in an
    ISO 15765-4 frame from the engine ECU (11-bit response identifier 7E8):
    after all spaces are removed, a reply reads
    `7E8` (ECU) + length byte + `41` (mode 01 reply) + PID + data bytes.
    The three parsers are textually identical in every revision; the
    revisions differ only in what they do on failure (see the session
    modules), so the decoders return an `Option`. */
module FrameCodec {
  import opened Wrappers
  import opened Text

  /** Swift's `/` on `Int` truncates toward zero: the remainder takes the
      sign of the dividend and is smaller than the divisor. */
  function SwiftDiv(a: int, b: int): (q: int)
    requires b > 0
    ensures a >= 0 ==> 0 <= a - q * b < b
    ensures a < 0 ==> -b < a - q * b <= 0
  {
    if a >= 0 then a / b else -((-a) / b)
  }

  /** The nine characters before the data bytes: ECU `7E8`, the length
      byte, `41` (reply to mode 01) and the PID. */
  function Header(len: string, pid: string): (h: string)
    requires |len| == 2 && |pid| == 2
    ensures |h| == 9
  {
    "7E8" + len + "41" + pid
  }

  const SpeedHeader: string := Header("03", "0D")
  const RpmHeader: string := Header("04", "0C")
  const FuelPressureHeader: string := Header("03", "0A")

  /** The guard shared by the parsers: a minimum length, `hasPrefix("7E8")`,
      and the two-character fields at offsets 3, 5 and 7. */
  predicate HeaderMatches(c: string, minLength: nat, len: string, pid: string) {
    && |c| >= minLength
    && Field(c, 0, 3) == "7E8"
    && Field(c, 3, 2) == len
    && Field(c, 5, 2) == "41"
    && Field(c, 7, 2) == pid
  }

  /** The field-by-field guard is the same as asking for the nine-character
      header at the front. */
  lemma HeaderMatchesPrefix(c: string, minLength: nat, len: string, pid: string)
    requires minLength >= 9 && |len| == 2 && |pid| == 2
    ensures HeaderMatches(c, minLength, len, pid)
        <==> |c| >= minLength && c[..9] == Header(len, pid)
  {
    if |c| >= minLength {
      var h := Header(len, pid);
      if c[..9] == h {
        assert Field(c, 0, 3) == h[0..3];
        assert Field(c, 3, 2) == h[3..5];
        assert Field(c, 5, 2) == h[5..7];
        assert Field(c, 7, 2) == h[7..9];
      }
      if HeaderMatches(c, minLength, len, pid) {
        assert c[..9] == Field(c, 0, 3) + Field(c, 3, 2) + Field(c, 5, 2) + Field(c, 7, 2);
      }
    }
  }

  /** Where the text is long enough, a field is the plain slice. */
  lemma FieldIsSlice(c: string, k: nat, n: nat)
    ensures k + n <= |c| ==> Field(c, k, n) == c[k..k + n]
  {
  }

  // ---------------------------------------------------------------------------
  // PID 0D: vehicle speed, A km/h

  /** `parseSpeed`: the byte at offset 9 of the space-free text, read with
      Swift's `Int(_:radix: 16)` (so a sign is accepted, and a 10-character
      text yields a one-digit payload). */
  function DecodeSpeed(text: string): (r: Option<int>)
    ensures var c := StripSpaces(text);
      r.Some? <==> |c| >= 10 && c[..9] == SpeedHeader && ParseHexInt(Field(c, 9, 2)).Some?
    ensures r.Some? ==> -15 <= r.value <= 255
    ensures var c := StripSpaces(text);
      |c| == 10 && c[..9] == SpeedHeader && IsHexDigit(c[9]) ==> r == Some(HexDigitValue(c[9]))
    ensures var c := StripSpaces(text);
      |c| >= 11 && c[..9] == SpeedHeader && AllHex(c[9..11]) ==> r == Some(DigitsValue(c[9..11]))
  {
    var c := StripSpaces(text);
    HeaderMatchesPrefix(c, 10, "03", "0D");
    FieldIsSlice(c, 9, 2);
    if HeaderMatches(c, 10, "03", "0D") then ParseHexInt(Field(c, 9, 2)) else None
  }

  // ---------------------------------------------------------------------------
  // PID 0C: engine speed, (256 A + B) / 4 rpm

  /** Engine speed from the two data bytes, in quarter revolutions. */
  function RpmFromBytes(a: int, b: int): (v: int)
    requires -15 <= a <= 255 && -15 <= b <= 255
    ensures -963 <= v <= 16383
    ensures a * 256 + b >= 0 ==> 0 <= a * 256 + b - 4 * v < 4
    ensures a * 256 + b < 0 ==> -4 < a * 256 + b - 4 * v <= 0
  {
    SwiftDiv(a * 256 + b, 4)
  }

  /** On bytes without a sign, truncation is Dafny's division. */
  lemma RpmFromUnsignedBytes(a: int, b: int)
    requires -15 <= a <= 255 && -15 <= b <= 255
    ensures a >= 0 && b >= 0 ==> RpmFromBytes(a, b) == (256 * a + b) / 4
  {
  }

  /** `parseRPM`: bytes at offsets 9 and 11, combined with Swift's truncating
      division. */
  function DecodeRpm(text: string): (r: Option<int>)
    ensures var c := StripSpaces(text);
      r.Some? <==> && |c| >= 12 && c[..9] == RpmHeader
                   && ParseHexInt(Field(c, 9, 2)).Some? && ParseHexInt(Field(c, 11, 2)).Some?
    ensures r.Some? ==> -963 <= r.value <= 16383
    ensures var c := StripSpaces(text);
      |c| >= 13 && c[..9] == RpmHeader && AllHex(c[9..11]) && AllHex(c[11..13]) ==>
        r == Some(RpmFromBytes(DigitsValue(c[9..11]), DigitsValue(c[11..13])))
  {
    var c := StripSpaces(text);
    HeaderMatchesPrefix(c, 12, "04", "0C");
    FieldIsSlice(c, 9, 2);
    FieldIsSlice(c, 11, 2);
    if !HeaderMatches(c, 12, "04", "0C") then None
    else match (ParseHexInt(Field(c, 9, 2)), ParseHexInt(Field(c, 11, 2)))
      case (Some(a), Some(b)) => Some(RpmFromBytes(a, b))
      case _ => None
  }

  // ---------------------------------------------------------------------------
  // PID 0A: fuel pressure, 3 A kPa

  /** `parseFuelPressure`: the byte at offset 9, times three. */
  function DecodeFuelPressure(text: string): (r: Option<int>)
    ensures var c := StripSpaces(text);
      r.Some? <==> |c| >= 10 && c[..9] == FuelPressureHeader && ParseHexInt(Field(c, 9, 2)).Some?
    ensures r.Some? ==> -45 <= r.value <= 765 && r.value % 3 == 0
    ensures var c := StripSpaces(text);
      |c| >= 11 && c[..9] == FuelPressureHeader && AllHex(c[9..11]) ==> r == Some(3 * DigitsValue(c[9..11]))
  {
    var c := StripSpaces(text);
    HeaderMatchesPrefix(c, 10, "03", "0A");
    FieldIsSlice(c, 9, 2);
    if !HeaderMatches(c, 10, "03", "0A") then None
    else match ParseHexInt(Field(c, 9, 2))
      case Some(a) => Some(a * 3)
      case None => None
  }

  // ---------------------------------------------------------------------------
  // Partners: the replies an adapter prints, and what decoding them gives

  /** Spaces are dropped before any field is read, so where the adapter puts
      them (`ATS0`/`ATS1`) does not matter. */
  lemma DecodersIgnoreSpaces(text: string)
    ensures DecodeSpeed(StripSpaces(text)) == DecodeSpeed(text)
    ensures DecodeRpm(StripSpaces(text)) == DecodeRpm(text)
    ensures DecodeFuelPressure(StripSpaces(text)) == DecodeFuelPressure(text)
  {
  }

  /** Fields printed with a space between each pair, as the adapter does
      after `ATS1`. */
  function JoinWithSpaces(fields: seq<string>): string {
    if |fields| == 0 then ""
    else if |fields| == 1 then fields[0]
    else fields[0] + " " + JoinWithSpaces(fields[1..])
  }

  function Concat(fields: seq<string>): string {
    if |fields| == 0 then "" else fields[0] + Concat(fields[1..])
  }

  lemma {:induction false} ConcatAppend(a: seq<string>, b: seq<string>)
    ensures Concat(a + b) == Concat(a) + Concat(b)
    decreases |a|
  {
    if |a| == 0 {
      assert a + b == b;
    } else {
      assert (a + b)[1..] == a[1..] + b;
      ConcatAppend(a[1..], b);
    }
  }

  /** Removing the spaces from a spaced reply gives its fields back to back. */
  lemma {:induction false} StripJoined(fields: seq<string>)
    requires forall i :: 0 <= i < |fields| ==> ' ' !in fields[i]
    ensures StripSpaces(JoinWithSpaces(fields)) == Concat(fields)
    decreases |fields|
  {
    if |fields| == 1 {
      assert Concat(fields[1..]) == "";
    } else if |fields| > 1 {
      var rest := JoinWithSpaces(fields[1..]);
      ReplaceCharAppend(fields[0] + " ", rest, ' ', "");
      ReplaceCharAppend(fields[0], " ", ' ', "");
      assert ReplaceChar(" ", ' ', "") == "" by {
        assert ReplaceChar("", ' ', "") == "";
      }
      StripJoined(fields[1..]);
    }
  }

  /** A reply as the adapter prints it with spaces on: `7E8`, the length
      byte, `41`, the PID, then the data bytes. */
  function Frame(len: string, pid: string, data: seq<string>): string {
    JoinWithSpaces(["7E8", len, "41", pid] + data)
  }

  lemma NoSpacesAppend(a: seq<string>, b: seq<string>)
    requires forall i :: 0 <= i < |a| ==> ' ' !in a[i]
    requires forall i :: 0 <= i < |b| ==> ' ' !in b[i]
    ensures forall i :: 0 <= i < |a + b| ==> ' ' !in (a + b)[i]
  {
    forall i | 0 <= i < |a + b| ensures ' ' !in (a + b)[i] {
      if i >= |a| {
        assert (a + b)[i] == b[i - |a|];
      }
    }
  }

  /** Without its spaces, a printed reply is the header and the data bytes. */
  lemma StripFrame(len: string, pid: string, data: seq<string>)
    requires |len| == 2 && |pid| == 2 && ' ' !in len && ' ' !in pid
    requires forall i :: 0 <= i < |data| ==> ' ' !in data[i]
    ensures StripSpaces(Frame(len, pid, data)) == Header(len, pid) + Concat(data)
  {
    HeadNoSpaces(len, pid);
    StripParts(["7E8", len, "41", pid], data);
    ConcatHeader(len, pid);
  }

  lemma HeadNoSpaces(len: string, pid: string)
    requires ' ' !in len && ' ' !in pid
    ensures forall i :: 0 <= i < 4 ==> ' ' !in ["7E8", len, "41", pid][i]
  {
    var head := ["7E8", len, "41", pid];
    assert ' ' !in "7E8" && ' ' !in "41";
    forall i | 0 <= i < 4 ensures ' ' !in head[i] {
      if i == 0 {
        assert head[i] == "7E8";
      } else if i == 2 {
        assert head[i] == "41";
      }
    }
  }

  /** Stripping a spaced reply splits at any point into the two parts. */
  lemma StripParts(head: seq<string>, data: seq<string>)
    requires forall i :: 0 <= i < |head| ==> ' ' !in head[i]
    requires forall i :: 0 <= i < |data| ==> ' ' !in data[i]
    ensures StripSpaces(JoinWithSpaces(head + data)) == Concat(head) + Concat(data)
  {
    NoSpacesAppend(head, data);
    StripJoined(head + data);
    ConcatAppend(head, data);
  }

  lemma ConcatHeader(len: string, pid: string)
    requires |len| == 2 && |pid| == 2
    ensures Concat(["7E8", len, "41", pid]) == Header(len, pid)
  {
    var head := ["7E8", len, "41", pid];
    assert Concat([pid]) == pid by {
      assert [pid][1..] == [];
    }
    assert Concat(["41", pid]) == "41" + pid by {
      assert ["41", pid][1..] == [pid];
    }
    assert Concat([len, "41", pid]) == len + "41" + pid by {
      assert [len, "41", pid][1..] == ["41", pid];
    }
    assert head[1..] == [len, "41", pid];
  }

  /** A byte printed in hex holds no space. */
  lemma Hex2NoSpace(b: nat)
    requires b < 256
    ensures ' ' !in Hex2(b)
  {
    var s := Hex2(b);
    assert IsHexDigit(s[0]) && IsHexDigit(s[1]);
  }

  /** The two digits printed for a byte are worth that byte. */
  lemma HexDigitsOfByte(b: nat)
    requires b < 256
    ensures DigitsValue(Hex2(b)) == b
  {
    ParseHex2(b);
  }

  /** The reply to `01 0D` for a speed of `v` km/h. */
  function SpeedFrame(v: nat): string
    requires v < 256
  {
    Frame("03", "0D", [Hex2(v)])
  }

  lemma SpeedRoundTrip(v: nat)
    requires v < 256
    ensures DecodeSpeed(SpeedFrame(v)) == Some(v)
  {
    Hex2NoSpace(v);
    StripFrame("03", "0D", [Hex2(v)]);
    assert Concat([Hex2(v)]) == Hex2(v);
    HexDigitsOfByte(v);
    DecodeSpeedPayload(SpeedFrame(v), Hex2(v), "");
  }

  /** Any reply whose space-free text is the speed header, two hex digits in
      either case, and anything at all after them decodes to those digits. */
  lemma DecodeSpeedPayload(text: string, p: string, tail: string)
    requires |p| == 2 && AllHex(p)
    requires StripSpaces(text) == SpeedHeader + p + tail
    ensures DecodeSpeed(text) == Some(DigitsValue(p))
  {
    var c := SpeedHeader + p + tail;
    assert c[..9] == SpeedHeader && c[9..11] == p;
  }

  /** The reply the parser's own pattern describes: `3C` is 60 km/h. */
  lemma SpeedExample()
    ensures DecodeSpeed("7E8 03 41 0D 3C") == Some(60)
  {
    var fields := ["7E8", "03", "41", "0D", "3C"];
    assert Hex2(60) == "3C";
    assert ["7E8", "03", "41", "0D"] + [Hex2(60)] == fields;
    assert JoinWithSpaces(fields[4..]) == "3C";
    assert JoinWithSpaces(fields[3..]) == "0D 3C" by { assert fields[3..][1..] == fields[4..]; }
    assert JoinWithSpaces(fields[2..]) == "41 0D 3C" by { assert fields[2..][1..] == fields[3..]; }
    assert JoinWithSpaces(fields[1..]) == "03 41 0D 3C" by { assert fields[1..][1..] == fields[2..]; }
    assert SpeedFrame(60) == "7E8 03 41 0D 3C";
    SpeedRoundTrip(60);
  }

  /** The reply to `01 0C` for data bytes `a` and `b`. */
  function RpmFrame(a: nat, b: nat): string
    requires a < 256 && b < 256
  {
    Frame("04", "0C", [Hex2(a), Hex2(b)])
  }

  lemma RpmRoundTrip(a: nat, b: nat)
    requires a < 256 && b < 256
    ensures var r := DecodeRpm(RpmFrame(a, b)); r.Some? && r.value == (256 * a + b) / 4
  {
    StripRpmFrame(a, b);
    HexDigitsOfByte(a);
    HexDigitsOfByte(b);
    DecodeRpmPayload(RpmFrame(a, b), Hex2(a), Hex2(b), "");
  }

  /** Without its spaces, the printed engine-speed reply is the header and
      the two bytes. */
  lemma StripRpmFrame(a: nat, b: nat)
    requires a < 256 && b < 256
    ensures StripSpaces(RpmFrame(a, b)) == RpmHeader + Hex2(a) + Hex2(b) + ""
  {
    Hex2NoSpace(a);
    Hex2NoSpace(b);
    StripFrame("04", "0C", [Hex2(a), Hex2(b)]);
    assert Concat([Hex2(a), Hex2(b)]) == Hex2(a) + Hex2(b) by {
      assert [Hex2(a), Hex2(b)][1..] == [Hex2(b)];
      assert Concat([Hex2(b)]) == Hex2(b) + Concat([]);
    }
    assert RpmHeader + Hex2(a) + Hex2(b) + "" == RpmHeader + (Hex2(a) + Hex2(b));
  }

  /** Any reply whose space-free text is the engine-speed header, two bytes
      of hex digits in either case, and anything after them decodes to
      (256 A + B) / 4. */
  lemma DecodeRpmPayload(text: string, p: string, q: string, tail: string)
    requires |p| == 2 && AllHex(p) && |q| == 2 && AllHex(q)
    requires StripSpaces(text) == RpmHeader + p + q + tail
    ensures var r := DecodeRpm(text); r.Some? && r.value == (256 * DigitsValue(p) + DigitsValue(q)) / 4
  {
    RpmSlices(p, q, tail);
    var a, b := DigitsValue(p), DigitsValue(q);
    assert DecodeRpm(text) == Some(RpmFromBytes(a, b));
    assert RpmFromBytes(a, b) == (256 * a + b) / 4 by {
      RpmFromUnsignedBytes(a, b);
    }
  }

  /** Where the two data bytes sit in a space-free engine-speed reply. */
  lemma RpmSlices(p: string, q: string, tail: string)
    requires |p| == 2 && |q| == 2
    ensures var c := RpmHeader + p + q + tail;
      |c| >= 13 && c[..9] == RpmHeader && c[9..11] == p && c[11..13] == q
  {
    var c := RpmHeader + p + q + tail;
    assert c[..9] == RpmHeader;
    assert c[9..11] == p;
    assert c[11..13] == q;
  }

  /** The reply to `01 0A` for data byte `a`. */
  function FuelPressureFrame(a: nat): string
    requires a < 256
  {
    Frame("03", "0A", [Hex2(a)])
  }

  lemma FuelPressureRoundTrip(a: nat)
    requires a < 256
    ensures DecodeFuelPressure(FuelPressureFrame(a)) == Some(3 * a)
  {
    Hex2NoSpace(a);
    StripFrame("03", "0A", [Hex2(a)]);
    assert Concat([Hex2(a)]) == Hex2(a);
    HexDigitsOfByte(a);
    DecodeFuelPressurePayload(FuelPressureFrame(a), Hex2(a), "");
  }

  /** Any reply whose space-free text is the fuel-pressure header, two hex
      digits in either case, and anything after them decodes to three times
      their value. */
  lemma DecodeFuelPressurePayload(text: string, p: string, tail: string)
    requires |p| == 2 && AllHex(p)
    requires StripSpaces(text) == FuelPressureHeader + p + tail
    ensures DecodeFuelPressure(text) == Some(3 * DigitsValue(p))
  {
    var c := FuelPressureHeader + p + tail;
    assert c[..9] == FuelPressureHeader && c[9..11] == p;
  }

  lemma NegativeDigit(d: char)
    requires IsHexDigit(d)
    ensures ParseHexInt(['-', d]) == Some(-(HexDigitValue(d) as int))
  {
    assert ['-', d][1..] == [d];
    assert DigitsValue([d]) == HexDigitValue(d) by {
      assert [d][..0] == [];
    }
  }

  /** Swift's integer parser accepts a sign, so a payload of `-` and one hex
      digit decodes to a negative speed. */
  lemma SignedSpeedPayload(d: char)
    requires IsHexDigit(d)
    ensures DecodeSpeed(SpeedHeader + ['-', d]) == Some(-(HexDigitValue(d) as int))
  {
    var c := SpeedHeader + ['-', d];
    assert StripSpaces(c) == c by {
      assert ' ' !in c;
    }
    assert c[..9] == SpeedHeader && Field(c, 9, 2) == ['-', d];
    assert ParseHexInt(['-', d]) == Some(-(HexDigitValue(d) as int)) by {
      NegativeDigit(d);
    }
  }
}
