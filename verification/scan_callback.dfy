/** What happens to one advertisement while `ble.Scan` runs (main.go, lines
    107-146): the installed filter decides whether the callback sees it,
    the callback decodes it, and a measurement goes to `submitMeasurement`.
    The dispatch in its own goroutine is modelled as a direct call, and the
    decoder used is the one with the length check added. */
module ScanCallback {
  import opened Wrappers
  import opened AddressFilter
  import opened PayloadDecoder
  import opened MetricState

  /** An advertisement as the callback sees it: the advertiser's address as
      `a.Addr().String()` renders it, and its service-data records. */
  datatype Advertisement = Advertisement(addr: string, serviceData: seq<ServiceData>)

  /** The series after one advertisement has been handled: unchanged
      unless the filter admits it and it decodes to a measurement; no series
      is ever removed, and the registry's invariant is kept. */
  function Handled(series: map<string, Entry>, filter: Option<seq<string>>,
                   a: Advertisement, now: int): (s: map<string, Entry>)
    ensures s == series || (Admits(filter, a.addr) && DecodeChecked(a.serviceData, now).Measurement?)
    ensures series.Keys <= s.Keys
    ensures AllReceived(series) ==> AllReceived(s)
  {
    if !Admits(filter, a.addr) then series
    else match DecodeChecked(a.serviceData, now)
      case Measurement(p) => Record(series, p)
      case _ => series
  }

  /** An advertisement changes the series only when the filter admits it
      and it decodes to a measurement; then exactly the measurement's MAC
      gets one more payload, with the gauges read from bytes 7, 8 and 9. */
  lemma HandledEffect(series: map<string, Entry>, filter: Option<seq<string>>,
                      a: Advertisement, now: int, mac: string)
    ensures var s := Handled(series, filter, a, now);
      var d := DecodeChecked(a.serviceData, now);
      if Admits(filter, a.addr) && d.Measurement? && d.p.mac == mac then
        var data := a.serviceData[0].data;
        |data| >= MinDataLength && mac == Mac(data) &&
        ParseMac(mac) == Some(data[..MacLength]) &&
        Received(s, mac) == Received(series, mac) + 1 &&
        s[mac].temp == data[TempIndex] && s[mac].humidity == data[HumidityIndex] &&
        s[mac].battery == data[BatteryIndex] && s[mac].lastPayloadReceivedTs == now
      else
        (mac in s <==> mac in series) && (mac in series ==> s[mac] == series[mac])
  {
  }

  /** The series a measurement is filed under comes from the payload bytes,
      not from the advertiser's address that the filter checked: two
      admitted advertisements with the same records have the same effect
      whatever their addresses. */
  lemma LabelComesFromPayload(series: map<string, Entry>, filter: Option<seq<string>>,
                              a: Advertisement, b: Advertisement, now: int)
    requires Admits(filter, a.addr) && Admits(filter, b.addr)
    requires a.serviceData == b.serviceData
    ensures Handled(series, filter, a, now) == Handled(series, filter, b, now)
  {
  }

  /** One pass of the scan callback for one advertisement. */
  method OnAdvertisement(store: MetricStore, filter: Option<seq<string>>,
                         a: Advertisement, now: int)
    requires store.Valid()
    modifies store
    ensures store.Valid()
    ensures store.series == Handled(old(store.series), filter, a, now)
  {
    var admitted := Admit(filter, a.addr);
    if !admitted {
      return;
    }
    var decoded := DecodeAdvertisement(a.serviceData, now);
    if decoded.Measurement? {
      store.SubmitMeasurement(Some(decoded.p));
    }
  }
}
