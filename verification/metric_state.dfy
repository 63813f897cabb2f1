/** The per-MAC metric series and `submitMeasurement` (main.go, lines
    29-52 and 168-178). Each MAC label has a temp, humidity and battery
    gauge, a `payloads_received` counter and a `last_payload_received_ts`
    gauge; a series that does not exist yet starts at zero when first
    touched. The five series of one MAC are kept together in one entry. */
module MetricState {
  import opened Wrappers
  import opened PayloadDecoder

  /** The five series of one MAC label. */
  datatype Entry = Entry(temp: int, humidity: int, battery: int,
                         payloadsReceived: nat, lastPayloadReceivedTs: int)

  /** What `WithLabelValues` finds for a label never used before. */
  const Fresh: Entry := Entry(0, 0, 0, 0, 0)

  /** The `payloads_received` value for `mac`; zero if it has no series. */
  function Received(series: map<string, Entry>, mac: string): (n: nat)
  {
    if mac in series then series[mac].payloadsReceived else 0
  }

  /** Every series that exists was created by a recorded payload: the
      registry creates a MAC's series only when `submitMeasurement` touches
      it, and that same call increments its counter. */
  predicate AllReceived(series: map<string, Entry>)
  {
    forall m :: m in series ==> series[m].payloadsReceived >= 1
  }

  /** Under that invariant, a MAC has series exactly when its counter is
      positive, so the counter alone tells which devices have reported. */
  lemma SeriesIffReceived(series: map<string, Entry>, mac: string)
    requires AllReceived(series)
    ensures mac in series <==> Received(series, mac) > 0
  {
  }

  /** The series after one payload is recorded: its MAC's three gauges and
      timestamp hold the payload's values, its counter is one higher, and
      every other MAC is untouched. */
  function Record(series: map<string, Entry>, p: Payload): (s: map<string, Entry>)
    ensures s.Keys == series.Keys + {p.mac}
    ensures s[p.mac].temp == p.temp && s[p.mac].humidity == p.humidity &&
            s[p.mac].battery == p.battery && s[p.mac].lastPayloadReceivedTs == p.time
    ensures Received(s, p.mac) == Received(series, p.mac) + 1
    ensures forall m :: m in series && m != p.mac ==> s[m] == series[m]
    ensures AllReceived(series) ==> AllReceived(s)
  {
    var prior := if p.mac in series then series[p.mac] else Fresh;
    series[p.mac := Entry(p.temp, p.humidity, p.battery, prior.payloadsReceived + 1, p.time)]
  }

  /** The series after recording several payloads in the given order: no
      series is ever removed, and every series stays backed by at least one
      recorded payload. */
  function RecordAll(series: map<string, Entry>, ps: seq<Payload>): (s: map<string, Entry>)
    ensures series.Keys <= s.Keys
    ensures AllReceived(series) ==> AllReceived(s)
    decreases |ps|
  {
    if ps == [] then series else RecordAll(Record(series, ps[0]), ps[1..])
  }

  /** How many of `ps` are for `mac`. */
  function CountFor(ps: seq<Payload>, mac: string): (n: nat)
    ensures n <= |ps|
  {
    if ps == [] then 0 else (if ps[0].mac == mac then 1 else 0) + CountFor(ps[1..], mac)
  }

  lemma {:induction false} CountForAppend(ps: seq<Payload>, qs: seq<Payload>, mac: string)
    ensures CountFor(ps + qs, mac) == CountFor(ps, mac) + CountFor(qs, mac)
  {
    if ps == [] {
      assert ps + qs == qs;
    } else {
      assert (ps + qs)[1..] == ps[1..] + qs;
      CountForAppend(ps[1..], qs, mac);
    }
  }

  /** The counter of a MAC goes up by exactly the number of payloads
      recorded for it, and a MAC gets series exactly when it had them or
      some payload is for it. */
  lemma {:induction false} RecordAllCounts(series: map<string, Entry>, ps: seq<Payload>, mac: string)
    ensures Received(RecordAll(series, ps), mac) == Received(series, mac) + CountFor(ps, mac)
    ensures mac in RecordAll(series, ps) <==> mac in series || CountFor(ps, mac) > 0
    decreases |ps|
  {
    if ps != [] {
      RecordAllCounts(Record(series, ps[0]), ps[1..], mac);
    }
  }

  /** Payloads for other MACs leave a MAC's series as they were. */
  lemma {:induction false} RecordAllOthers(series: map<string, Entry>, ps: seq<Payload>, mac: string)
    requires CountFor(ps, mac) == 0
    ensures mac in RecordAll(series, ps) <==> mac in series
    ensures mac in series ==> RecordAll(series, ps)[mac] == series[mac]
    decreases |ps|
  {
    if ps != [] {
      RecordAllOthers(Record(series, ps[0]), ps[1..], mac);
    }
  }

  /** Last write wins: the gauges and timestamp of a MAC hold the values of
      the last payload recorded for it. */
  lemma {:induction false} LastWriteWins(series: map<string, Entry>, ps: seq<Payload>, i: nat)
    requires i < |ps|
    requires forall j :: i < j < |ps| ==> ps[j].mac != ps[i].mac
    ensures var s, p := RecordAll(series, ps), ps[i];
      p.mac in s && s[p.mac].temp == p.temp && s[p.mac].humidity == p.humidity &&
      s[p.mac].battery == p.battery && s[p.mac].lastPayloadReceivedTs == p.time
    decreases |ps|
  {
    if i == 0 {
      var rest := ps[1..];
      forall j | 0 <= j < |rest| ensures rest[j].mac != ps[0].mac {
        assert rest[j] == ps[j + 1];
      }
      CountForNone(rest, ps[0].mac);
      RecordAllOthers(Record(series, ps[0]), rest, ps[0].mac);
    } else {
      LastWriteWins(Record(series, ps[0]), ps[1..], i - 1);
    }
  }

  lemma {:induction false} CountForNone(ps: seq<Payload>, mac: string)
    requires forall j :: 0 <= j < |ps| ==> ps[j].mac != mac
    ensures CountFor(ps, mac) == 0
  {
    if ps != [] {
      CountForNone(ps[1..], mac);
    }
  }

  /** Taking one payload out of a list lowers its MAC's count by one. */
  lemma CountForRemove(qs: seq<Payload>, k: nat, mac: string)
    requires k < |qs|
    ensures CountFor(qs, mac) ==
      CountFor(qs[..k] + qs[k + 1..], mac) + (if qs[k].mac == mac then 1 else 0)
  {
    assert qs == (qs[..k] + [qs[k]]) + qs[k + 1..];
    CountForAppend(qs[..k] + [qs[k]], qs[k + 1..], mac);
    CountForAppend(qs[..k], [qs[k]], mac);
    CountForAppend(qs[..k], qs[k + 1..], mac);
  }

  /** Taking the same payload out of two lists with equal multisets leaves
      lists with equal multisets. */
  lemma MultisetRemove(ps: seq<Payload>, qs: seq<Payload>, k: nat)
    requires multiset(ps) == multiset(qs)
    requires ps != [] && k < |qs| && qs[k] == ps[0]
    ensures multiset(ps[1..]) == multiset(qs[..k] + qs[k + 1..])
  {
    assert qs == qs[..k] + [qs[k]] + qs[k + 1..];
    assert ps == [ps[0]] + ps[1..];
    assert multiset(qs) == multiset(qs[..k] + qs[k + 1..]) + multiset{qs[k]};
    assert multiset(ps) == multiset(ps[1..]) + multiset{ps[0]};
    assert multiset(ps[1..]) == multiset(ps) - multiset{ps[0]};
    assert multiset(qs[..k] + qs[k + 1..]) == multiset(qs) - multiset{qs[k]};
  }

  /** The counters do not depend on the order in which the payloads are
      recorded: the concurrent dispatch may apply them in any order. */
  lemma {:induction false} CountForReordered(ps: seq<Payload>, qs: seq<Payload>, mac: string)
    requires multiset(ps) == multiset(qs)
    ensures CountFor(ps, mac) == CountFor(qs, mac)
    decreases |ps|
  {
    if ps == [] {
      assert |qs| == |multiset(qs)| == 0;
    } else {
      assert ps[0] in multiset(qs);
      var k :| 0 <= k < |qs| && qs[k] == ps[0];
      MultisetRemove(ps, qs, k);
      CountForReordered(ps[1..], qs[..k] + qs[k + 1..], mac);
      CountForRemove(qs, k, mac);
    }
  }

  /** The metric registry: the five metric vectors, keyed by MAC label. */
  class MetricStore {
    var series: map<string, Entry>

    /** The invariant every method keeps: see `AllReceived`. */
    ghost predicate Valid()
      reads this
    {
      AllReceived(series)
    }

    /** The registry as the process starts: no series at all. */
    constructor ()
      ensures Valid() && series == map[]
    {
      series := map[];
    }

    /** `submitMeasurement`: nothing for a nil payload; otherwise set the
        three gauges, increment the counter and set the timestamp of the
        payload's MAC, one series at a time. */
    method SubmitMeasurement(p: Option<Payload>)
      requires Valid()
      modifies this
      ensures Valid()
      ensures p.None? ==> series == old(series)
      ensures p.Some? ==> series == Record(old(series), p.value)
      ensures p.Some? ==> forall m :: m != p.value.mac ==>
        (m in series <==> m in old(series)) && (m in series ==> series[m] == old(series)[m])
    {
      if p.None? {
        return;
      }
      var q := p.value;
      var e := if q.mac in series then series[q.mac] else Fresh;
      e := e.(temp := q.temp);
      e := e.(humidity := q.humidity);
      e := e.(battery := q.battery);
      e := e.(payloadsReceived := e.payloadsReceived + 1);
      e := e.(lastPayloadReceivedTs := q.time);
      series := series[q.mac := e];
    }
  }
}
