/** The body of the scan callback up to the dispatch (main.go, lines
    113-141): check that the advertisement carries exactly one service-data
    record, that its UUID renders as "181a", build the MAC label from the
    first six bytes, and read temperature, humidity and battery from bytes
    7, 8 and 9. Byte 6 is never read. `time.Now()` is the parameter `now`,
    in Unix seconds; go-ble's rendering of the UUID is taken as given. */
module PayloadDecoder {
  import opened Wrappers
  import opened GoStrings
  import opened Strconv

  /** Go's `byte`. */
  type Byte = b: int | 0 <= b < 256

  /** One service-data record of an advertisement: its UUID as go-ble
      renders it with `UUID.String()`, and its bytes. */
  datatype ServiceData = ServiceData(uuid: string, data: seq<Byte>)

  /** `BLEPayload`: the gauge values are whole numbers (each comes from one
      byte, so the float64 conversion is exact) and the time is in Unix
      seconds. */
  datatype Payload = Payload(mac: string, temp: int, humidity: int, battery: int, time: int)

  /** The UUID string of the one record the collector accepts. */
  const SensorUuid: string := "181a"

  /** Number of leading bytes that make up the MAC. */
  const MacLength: nat := 6
  const TempIndex: nat := 7
  const HumidityIndex: nat := 8
  const BatteryIndex: nat := 9

  /** Shortest record the fixed offsets can be read from. */
  const MinDataLength: nat := BatteryIndex + 1

  /** Why an advertisement yields no measurement; the first two are the
      callback's two debug-logged early returns. */
  datatype Rejection =
    | UnexpectedServiceDataCount(count: nat)
    | IncorrectUuid(uuid: string)
    | PayloadTooShort(length: nat)

  /** Outcome of decoding one advertisement. `IndexOutOfRange` is the Go
      runtime panic of reading past the end of the record's bytes. */
  datatype Decoded =
    | Rejected(why: Rejection)
    | IndexOutOfRange(length: nat)
    | Measurement(p: Payload)

  /** The `macParts` slice: each byte in base 16. */
  function HexParts(bytes: seq<Byte>): (parts: seq<string>)
    ensures |parts| == |bytes|
    ensures forall i :: 0 <= i < |bytes| ==> parts[i] == FormatHex(bytes[i])
  {
    if bytes == [] then [] else [FormatHex(bytes[0])] + HexParts(bytes[1..])
  }

  /** The MAC label: the first six bytes in base 16, joined with ':'. */
  function Mac(data: seq<Byte>): (mac: string)
    requires |data| >= MacLength
    ensures Split(mac, ':') == HexParts(data[..MacLength])
  {
    var parts := HexParts(data[..MacLength]);
    assert forall i :: 0 <= i < |parts| ==> ':' !in parts[i] by {
      forall i | 0 <= i < |parts| ensures ':' !in parts[i] {
        assert IsLowerHexDigit(parts[i][0]);
      }
    }
    SplitJoin(parts, ':');
    Join(parts, ':')
  }

  predicate IsHexNumber(s: string)
  {
    s != [] && forall i :: 0 <= i < |s| ==> IsLowerHexDigit(s[i])
  }

  /** Reads back a list of base-16 numbers; None if some part is not one. */
  function ParseParts(parts: seq<string>): (r: Option<seq<nat>>)
    ensures r.Some? <==> forall i :: 0 <= i < |parts| ==> IsHexNumber(parts[i])
    ensures r.Some? ==> |r.value| == |parts|
  {
    if parts == [] then Some([])
    else if !IsHexNumber(parts[0]) then None
    else match ParseParts(parts[1..])
      case None => None
      case Some(rest) => Some([ParseHex(parts[0])] + rest)
  }

  /** Reads a MAC label back into its byte values. */
  function ParseMac(mac: string): (r: Option<seq<nat>>)
  {
    ParseParts(Split(mac, ':'))
  }

  lemma {:induction false} ParseHexParts(bytes: seq<Byte>)
    ensures ParseParts(HexParts(bytes)) == Some(bytes)
  {
    if bytes != [] {
      var parts := HexParts(bytes);
      assert parts[1..] == HexParts(bytes[1..]);
      ParseHexParts(bytes[1..]);
      ParseFormatHex(bytes[0]);
      assert [bytes[0]] + bytes[1..] == bytes;
    }
  }

  /** The shape of a MAC label: six ':'-separated parts (five colons), part
      i the base-16 rendering of byte i in one or two lower-case digits,
      without a leading zero unless the byte is zero. */
  lemma MacShape(data: seq<Byte>)
    requires |data| >= MacLength
    ensures var parts := Split(Mac(data), ':');
      |parts| == MacLength && Count(Mac(data), ':') == MacLength - 1 &&
      forall i :: 0 <= i < MacLength ==>
        parts[i] == FormatHex(data[i]) && 1 <= |parts[i]| <= 2 &&
        IsHexNumber(parts[i]) && (parts[i][0] == '0' <==> data[i] == 0) &&
        ParseHex(parts[i]) == data[i]
  {
    var parts := HexParts(data[..MacLength]);
    forall i | 0 <= i < MacLength
      ensures 1 <= |parts[i]| <= 2 && ParseHex(parts[i]) == data[i]
    {
      ParseFormatHex(data[i]);
    }
  }

  /** Reading a MAC label back gives the six bytes it was built from. */
  lemma MacRoundTrip(data: seq<Byte>)
    requires |data| >= MacLength
    ensures ParseMac(Mac(data)) == Some(data[..MacLength])
  {
    ParseHexParts(data[..MacLength]);
  }

  /** Devices with different MAC bytes get different labels, even though
      the parts are not zero-padded. */
  lemma MacInjective(d1: seq<Byte>, d2: seq<Byte>)
    requires |d1| >= MacLength && |d2| >= MacLength
    requires Mac(d1) == Mac(d2)
    ensures d1[..MacLength] == d2[..MacLength]
  {
    MacRoundTrip(d1);
    MacRoundTrip(d2);
  }

  /** The callback's checks and reads as written: no length check, so a
      record of the right UUID with fewer than ten bytes panics. */
  function Decode(records: seq<ServiceData>, now: int): (r: Decoded)
    ensures (r.Rejected? && r.why.UnexpectedServiceDataCount?) <==> |records| != 1
    ensures (r.Rejected? && r.why.IncorrectUuid?) <==>
      |records| == 1 && records[0].uuid != SensorUuid
    ensures r.IndexOutOfRange? <==>
      |records| == 1 && records[0].uuid == SensorUuid && |records[0].data| < MinDataLength
    ensures !(r.Rejected? && r.why.PayloadTooShort?)
    ensures r.Measurement? ==>
      var d := records[0].data;
      |d| >= MinDataLength && r.p.mac == Mac(d) && ParseMac(r.p.mac) == Some(d[..MacLength]) &&
      r.p.temp == d[TempIndex] && r.p.humidity == d[HumidityIndex] &&
      r.p.battery == d[BatteryIndex] && r.p.time == now
  {
    if |records| != 1 then Rejected(UnexpectedServiceDataCount(|records|))
    else
      var record := records[0];
      if record.uuid != SensorUuid then Rejected(IncorrectUuid(record.uuid))
      else if |record.data| < MinDataLength then IndexOutOfRange(|record.data|)
      else
        MacRoundTrip(record.data);
        Measurement(Payload(Mac(record.data), record.data[TempIndex],
          record.data[HumidityIndex], record.data[BatteryIndex], now))
  }

  /** The decoder with the missing length check added: a record too short
      for the fixed offsets is rejected instead of crashing the process.
      Everything else is as written. */
  function DecodeChecked(records: seq<ServiceData>, now: int): (r: Decoded)
    ensures !r.IndexOutOfRange?
    ensures (r.Rejected? && r.why.PayloadTooShort?) <==>
      |records| == 1 && records[0].uuid == SensorUuid && |records[0].data| < MinDataLength
    ensures r.Measurement? <==> Decode(records, now).Measurement?
  {
    match Decode(records, now)
    case IndexOutOfRange(n) => Rejected(PayloadTooShort(n))
    case d => d
  }

  /** The checked decoder agrees with the original wherever the original
      does not panic. */
  lemma DecodeCheckedAgrees(records: seq<ServiceData>, now: int)
    ensures !Decode(records, now).IndexOutOfRange? ==>
      DecodeChecked(records, now) == Decode(records, now)
    ensures Decode(records, now).IndexOutOfRange? ==>
      DecodeChecked(records, now) == Rejected(PayloadTooShort(|records[0].data|))
  {
  }

  /** A record of the sensor's shape, for the round trip below: six MAC
      bytes, one byte the decoder skips, temperature, humidity, battery and
      any further bytes. */
  function Frame(mac: seq<Byte>, skipped: Byte, temp: Byte, humidity: Byte, battery: Byte,
                 tail: seq<Byte>): (record: ServiceData)
    requires |mac| == MacLength
    ensures record.uuid == SensorUuid && |record.data| == MinDataLength + |tail|
  {
    ServiceData(SensorUuid, mac + [skipped, temp, humidity, battery] + tail)
  }

  /** Decoding a lone well-formed record recovers what was put in it; the
      skipped byte and the bytes after the battery have no influence. */
  lemma DecodeFrame(mac: seq<Byte>, skipped: Byte, temp: Byte, humidity: Byte, battery: Byte,
                    tail: seq<Byte>, now: int)
    requires |mac| == MacLength
    ensures var r := Decode([Frame(mac, skipped, temp, humidity, battery, tail)], now);
      r.Measurement? && ParseMac(r.p.mac) == Some(mac) &&
      r.p == Payload(r.p.mac, temp, humidity, battery, now) &&
      r == Decode([Frame(mac, 0, temp, humidity, battery, [])], now)
  {
    var d := Frame(mac, skipped, temp, humidity, battery, tail).data;
    var d0 := Frame(mac, 0, temp, humidity, battery, []).data;
    assert d[..MacLength] == mac == d0[..MacLength];
  }

  /** A byte of 0x0a renders as "a", not "0a": the label is not the
      two-digits-per-byte form. */
  lemma MacExample()
    ensures Mac([0xa4, 0xc1, 0x38, 0x0a, 0x00, 0xff]) == "a4:c1:38:a:0:ff"
  {
    var data: seq<Byte> := [0xa4, 0xc1, 0x38, 0x0a, 0x00, 0xff];
    var parts := HexParts(data[..MacLength]);
    assert parts == ["a4", "c1", "38", "a", "0", "ff"] by {
      HexByteExamples();
    }
    JoinExample(parts);
  }

  lemma HexByteExamples()
    ensures FormatHex(0xa4) == "a4" && FormatHex(0xc1) == "c1" && FormatHex(0x38) == "38"
    ensures FormatHex(0x0a) == "a" && FormatHex(0x00) == "0" && FormatHex(0xff) == "ff"
  {
  }

  lemma JoinExample(parts: seq<string>)
    requires parts == ["a4", "c1", "38", "a", "0", "ff"]
    ensures Join(parts, ':') == "a4:c1:38:a:0:ff"
  {
    assert Join(parts[5..], ':') == "ff";
    assert Join(parts[4..], ':') == "0:ff";
    assert Join(parts[3..], ':') == "a:0:ff";
    assert Join(parts[2..], ':') == "38:a:0:ff";
    assert Join(parts[1..], ':') == "c1:38:a:0:ff";
  }

  /** A record with the sensor UUID but only the six MAC bytes panics as
      written, and is rejected by the checked decoder. */
  lemma ShortRecordPanics(now: int)
    ensures Decode([ServiceData(SensorUuid, [0xa4, 0xc1, 0x38, 0x0a, 0x00, 0xff])], now)
      == IndexOutOfRange(6)
    ensures DecodeChecked([ServiceData(SensorUuid, [0xa4, 0xc1, 0x38, 0x0a, 0x00, 0xff])], now)
      == Rejected(PayloadTooShort(6))
  {
  }

  /** The callback's decoding steps with the length check in front of the
      reads: the two guards, the loop appending one base-16 part per MAC
      byte, the join and the three reads. */
  method DecodeAdvertisement(records: seq<ServiceData>, now: int) returns (r: Decoded)
    ensures r == DecodeChecked(records, now)
  {
    if |records| != 1 {
      return Rejected(UnexpectedServiceDataCount(|records|));
    }
    var record := records[0];
    if record.uuid != SensorUuid {
      return Rejected(IncorrectUuid(record.uuid));
    }
    if |record.data| < MinDataLength {
      return Rejected(PayloadTooShort(|record.data|));
    }
    var macParts: seq<string> := [];
    for i := 0 to MacLength
      invariant |macParts| == i
      invariant forall k :: 0 <= k < i ==> macParts[k] == FormatHex(record.data[k])
    {
      macParts := macParts + [FormatHex(record.data[i])];
    }
    assert macParts == HexParts(record.data[..MacLength]);
    var mac := Join(macParts, ':');
    r := Measurement(Payload(mac, record.data[TempIndex], record.data[HumidityIndex],
      record.data[BatteryIndex], now));
  }
}
