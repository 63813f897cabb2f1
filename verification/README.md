# BLE environmental-sensor collector: advertisement processing

A Dafny model of how the collector (`main.go`) handles one Bluetooth LE
advertisement from a thermometer beacon. The model covers three steps:

1. **The `-macFilter` allow-list.** An empty flag installs no filter, so
   every advertisement passes. A non-empty flag is split on commas. An
   advertisement then passes when some entry, with its surrounding white
   space trimmed, equals the advertiser's address string exactly.
2. **The scan callback's decoding.** It needs exactly one service-data
   record, and that record's UUID must render as `"181a"`. The MAC label is
   built from bytes 0-5: each byte is written in lower-case hex without
   padding, and the parts are joined with `:`. Temperature, humidity and
   battery are bytes 7, 8 and 9. Byte 6 is never read.
3. **`submitMeasurement`.** For the payload's MAC it sets the temp,
   humidity and battery gauges and the last-received timestamp, and
   increments `payloads_received`.

Files:

- `go_strings.dfy` models Go's `strings.Split`, `strings.Join` and
  `strings.TrimSpace`.
- `strconv.dfy` models `strconv.FormatInt(n, 16)`.
- `address_filter.dfy` is the filter.
- `payload_decoder.dfy` is the decoder.
- `metric_state.dfy` holds the metric store: a class with a
  `map<string, Entry>` and the `SubmitMeasurement` method.
- `scan_callback.dfy` ties the three steps together for one advertisement.

Three consequences of the code that are easy to miss:

- The filter does not normalise case or dashes. It trims white space only
  from the entries, never from the address, so the comparison is
  case-sensitive.
- The MAC label is lower-case and unpadded (`0x0a` gives `"a"`). It is not
  made of upper-case two-digit pairs.
- The code does not check the length of the service data before reading
  bytes 0-9 (see Findings).

## Model

| member | source | states |
|---|---|---|
| `GoStrings.Split` | main.go:94 | `strings.Split` on one character: one piece more than there are separators, and no piece contains the separator |
| `GoStrings.JoinSplit` | main.go:94 | joining the pieces of a split with the separator gives back the original string |
| `GoStrings.JoinCount` | main.go:136 | joining n separator-free pieces puts exactly n - 1 separators into the result |
| `GoStrings.SplitJoin` | main.go:136 | splitting a join of separator-free pieces gives back the pieces |
| `GoStrings.IsSpace` | main.go:97 | `unicode.IsSpace`: on ASCII exactly ' ' and '\t' through '\r'; never a comma, a colon, a letter or a digit |
| `GoStrings.TrimSpace` | main.go:97 | the result is no longer than the input and neither starts nor ends with white space |
| `GoStrings.TrimSpaceCharacterized` | main.go:97 | `TrimSpace` returns the stretch of the string after its leading white space; everything before and after it is white space, and the stretch neither starts nor ends with white space |
| `GoStrings.TrimSpaceIdempotent` | main.go:97 | trimming twice is the same as trimming once |
| `GoStrings.TrimSpaceOfBlank` | main.go:97 | a string of white space alone trims to "" |
| `Strconv.FormatHex` | main.go:131 | `FormatInt(n, 16)` uses lower-case hex digits and has no leading zero (it starts with '0' only for 0); it is one digit exactly below 16, and a byte gives at most two digits |
| `Strconv.ParseHex` | main.go:131 | the inverse reading of a base-16 string: one digit gives less than 16, two digits less than 256 |
| `Strconv.ParseFormatHex` | main.go:131 | reading the hex rendering back gives the number |
| `Strconv.FormatHexInjective` | main.go:131 | distinct numbers render differently |
| `AddressFilter.Install` | main.go:93-94 | an empty flag installs no filter; a non-empty flag installs Count(',') + 1 comma-free entries whose join is the flag |
| `AddressFilter.Matches` | main.go:95-104 | the search loop with early return answers true exactly when some trimmed entry equals the address |
| `AddressFilter.Admit` | main.go:91-105 | with no filter installed every address passes; otherwise the installed function decides |
| `AddressFilter.EmptyEntryExample` | main.go:94 | "a,,b" installs the entries "a", "" and "b" |
| `AddressFilter.BlankEntryMatchesNothing` | main.go:96-100 | an empty or all-white-space entry matches no non-empty address |
| `AddressFilter.PaddedAddressNeverListed` | main.go:97 | an address that starts or ends with white space passes no installed filter, because only the entries are trimmed |
| `AddressFilter.ListedOnlySeesTrimmedEntries` | main.go:97 | pre-trimming the entries does not change which addresses pass |
| `AddressFilter.SingleEntryAdmitsExactlyItself` | main.go:93-100 | a single trimmed entry admits exactly its own text; for example "AA:..." does not admit "aa:..." |
| `PayloadDecoder.HexParts` | main.go:128-133 | the `macParts` slice has one part per byte, and part i is the hex rendering of byte i |
| `PayloadDecoder.Mac` | main.go:128-136 | the label splits on ':' into exactly the base-16 renderings of bytes 0-5, in order |
| `PayloadDecoder.ParseParts` | main.go:128-136 | reading back a list of parts succeeds exactly when every part is a lower-case hex number, and gives one number per part |
| `PayloadDecoder.MacShape` | main.go:128-136 | the MAC label has 6 `:`-separated parts (5 colons); part i is byte i in hex, 1-2 lower-case digits, with a leading '0' only for a zero byte; parsing part i gives byte i |
| `PayloadDecoder.MacRoundTrip` | main.go:128-136 | parsing the MAC label gives back the first six bytes |
| `PayloadDecoder.MacInjective` | main.go:128-136 | different MAC bytes give different labels, even without zero padding |
| `PayloadDecoder.Decode` | main.go:113-141 | as written: rejected exactly when the record count is not 1, or the UUID is not "181a"; panics exactly when a "181a" record has fewer than 10 bytes; otherwise the record has at least 10 bytes, the label is `Mac` of its bytes and parses back to bytes 0-5, temp/humidity/battery are bytes 7/8/9, and the time is `now` |
| `PayloadDecoder.DecodeChecked` | main.go:113-141 | with the length check added: never panics, rejects a short record as `PayloadTooShort`, and measures exactly when `Decode` does |
| `PayloadDecoder.DecodeCheckedAgrees` | main.go:113-141 | the checked decoder equals `Decode` wherever `Decode` does not panic, and turns each panic into a rejection |
| `PayloadDecoder.DecodeFrame` | main.go:119-141 | decoding a lone "181a" record built from MAC bytes, a skipped byte, temp, humidity, battery and any tail gives back those values; the skipped byte 6 and the tail have no influence |
| `PayloadDecoder.MacExample` | main.go:130-136 | bytes a4 c1 38 0a 00 ff give the label "a4:c1:38:a:0:ff" |
| `PayloadDecoder.ShortRecordPanics` | main.go:130-139 | a "181a" record with only six bytes panics as written, and the checked decoder rejects it |
| `PayloadDecoder.DecodeAdvertisement` | main.go:113-141 | the callback's guards, the loop that appends one hex part per MAC byte, the join and the three reads compute `DecodeChecked` |
| `MetricState.Record` | main.go:168-178 | after a payload is recorded, its MAC has series whose gauges and timestamp hold the payload's values and whose counter is one higher (starting from 0); all other MACs are unchanged; every series still has a count of at least 1 |
| `MetricState.RecordAllCounts` | main.go:177 | over a run of payloads, a MAC's counter grows by exactly the number of payloads for it, and a MAC has series exactly when it already had them or some payload was for it |
| `MetricState.RecordAllOthers` | main.go:173-178 | payloads for other MACs leave a MAC's series as they were |
| `MetricState.LastWriteWins` | main.go:173-178 | a MAC's gauges and timestamp hold the values of the last payload recorded for it |
| `MetricState.CountForReordered` | main.go:145 | the per-MAC payload count does not depend on the order in which the dispatched updates are applied |
| `MetricState.RecordAll` | main.go:168-178 | recording payloads one after another never removes a series and keeps every series backed by at least one recorded payload |
| `MetricState.SeriesIffReceived` | main.go:168-178 | while that invariant holds, a MAC has series exactly when its `payloads_received` counter is positive |
| `MetricState.MetricStore.constructor` | main.go:29-52 | the registry starts with no series |
| `MetricState.MetricStore.SubmitMeasurement` | main.go:168-178 | a nil payload changes nothing; otherwise the store becomes `Record` of the old store, and every other MAC's entry is unchanged |
| `ScanCallback.Handled` | main.go:107-146 | the series are unchanged unless the filter admits the advertisement and it decodes to a measurement; no series is removed and the invariant is kept |
| `ScanCallback.HandledEffect` | main.go:107-146 | an advertisement changes the series only when the filter admits it and it decodes to a measurement; then only the decoded MAC changes, which is `Mac` of bytes 0-5 and parses back to them, gaining one payload with the gauges from bytes 7-9 and the timestamp `now` |
| `ScanCallback.LabelComesFromPayload` | main.go:136 | the series a measurement is filed under comes from the payload bytes, not from the advertiser address the filter checked |
| `ScanCallback.OnAdvertisement` | main.go:107-146 | one advertisement through filter, decoder and `submitMeasurement` leaves the store as `Handled` says, and the store's invariant still holds |

## Left out

- BLE device setup (`linux.NewDevice`, `ble.SetDefaultDevice`) and the endless `for { ble.Scan(...) }` restart loop are not modelled. They are radio I/O and a loop that never terminates. The model handles one advertisement at a time.
- The goroutine that runs `submitMeasurement` is modelled as a direct, sequential call. `CountForReordered` shows that the counters do not depend on the order in which whole calls are applied.
- MetricState.LastWriteWins: holds only when the calls run one after another. The five writes of `submitMeasurement` (main.go:173-178) are not atomic as a group. Two goroutines for the same MAC can interleave them, so the three gauges and the timestamp may end up mixing values from two payloads. The model does not capture that interleaving.
- The HTTP metrics server, signal handling, flag parsing and all logging are not modelled. That logging includes the debug messages and the `Temp / 10` and `%2.2f` display.
- Prometheus vectors hold float64 values. The model keeps whole numbers. The gauge values are single bytes, so they are exact. The timestamp and the counter are exact below 2^53.
- Prometheus creates each of the five series separately. The model keeps them in one entry per MAC. `submitMeasurement` always touches all five together, so they exist for the same MACs.
- `time.Now()` is the parameter `now`, in Unix seconds.
- `a.Addr().String()` and `UUID.String()` come from the go-ble library. The model takes their results as given strings.
- Strings are sequences of code points. Byte strings that are not valid UTF-8 are not modelled for `TrimSpace`.
- A file-backed filter list and a fallback between two adapters belong to another variant of the program. That variant is not part of this model.
- PayloadDecoder.DecodeAdvertisement: includes the length check that the source lacks (see Findings). The as-written behaviour is `PayloadDecoder.Decode`.
- ScanCallback.OnAdvertisement: uses the decoder with the length check. The source would panic on a short "181a" record instead.

## Findings

| source | as written | input that shows it | evidently intended | confidence | as-written member | corrected member |
|---|---|---|---|---|---|---|
| main.go:130-139 | the callback reads `Data[:6]` and `Data[7]`, `Data[8]`, `Data[9]` without checking the length; a shorter record causes a run-time panic, which ends the process | one service-data record with UUID "181a" and the six bytes a4 c1 38 0a 00 ff | reject the record silently, like the other malformed shapes | high; not executed | `PayloadDecoder.ShortRecordPanics` | `PayloadDecoder.DecodeChecked` |
