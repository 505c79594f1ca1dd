/**
 * The usage counters shown on the analytics panel: how many codes were
 * rendered in total, per type and per calendar day (the UTC date of the
 * render's ISO timestamp). They live in memory only and start from zero.
 */
module UsageStats {
  import opened JsText
  import opened Payload

  /** A count for every type: the object always carries all five keys. */
  datatype TypeCounts = TypeCounts(url: nat, phone: nat, maps: nat, vcard: nat, wifi: nat)
  {
    /** The count under key `t`. */
    function Get(t: QRType): nat
    {
      match t
      case Url => url
      case Phone => phone
      case Maps => maps
      case VCard => vcard
      case Wifi => wifi
    }

    /** The object with key `t` set to `n` and every other key kept. */
    function Set(t: QRType, n: nat): (c: TypeCounts)
      ensures c.Get(t) == n
      ensures forall u :: u != t ==> c.Get(u) == Get(u)
    {
      match t
      case Url => this.(url := n)
      case Phone => this.(phone := n)
      case Maps => this.(maps := n)
      case VCard => this.(vcard := n)
      case Wifi => this.(wifi := n)
    }
  }

  datatype Analytics = Analytics(totalGenerated: nat, byType: TypeCounts, byDate: map<JsString, nat>)

  /** The counters a fresh page starts with. */
  function Initial(): (a: Analytics)
    ensures a.totalGenerated == 0 && a.byDate == map[]
    ensures forall t :: a.byType.Get(t) == 0
  {
    Analytics(0, TypeCounts(0, 0, 0, 0, 0), map[])
  }

  /** The day a render is filed under: the ISO timestamp up to its first `T`. */
  function DayKey(iso: JsString): JsString
  {
    Split(iso, Unit('T'))[0]
  }

  /** The update applied after a successful render of type `t` on day
      `today`: one more in total, for `t` and for `today` (which starts from
      0 when absent). */
  function Record(prev: Analytics, t: QRType, today: JsString): Analytics
  {
    Analytics(
      prev.totalGenerated + 1,
      prev.byType.Set(t, prev.byType.Get(t) + 1),
      prev.byDate[today := (if today in prev.byDate then prev.byDate[today] else 0) + 1])
  }

  /** The counters after the renders of `log`, oldest first, each given by
      its type and its day. */
  function Replay(log: seq<(QRType, JsString)>): Analytics
  {
    if |log| == 0 then Initial()
    else
      var last := log[|log| - 1];
      Record(Replay(log[..|log| - 1]), last.0, last.1)
  }

  /** Replaying one more render applies one more update. */
  lemma ReplaySnoc(log: seq<(QRType, JsString)>, t: QRType, today: JsString)
    ensures Replay(log + [(t, today)]) == Record(Replay(log), t, today)
  {
    var l := log + [(t, today)];
    assert l[..|l| - 1] == log;
  }

  /** How many renders in `log` were of type `t`. */
  function CountType(log: seq<(QRType, JsString)>, t: QRType): nat
  {
    if |log| == 0 then 0
    else CountType(log[..|log| - 1], t) + (if log[|log| - 1].0 == t then 1 else 0)
  }

  /** How many renders in `log` fell on day `d`. */
  function CountDay(log: seq<(QRType, JsString)>, d: JsString): nat
  {
    if |log| == 0 then 0
    else CountDay(log[..|log| - 1], d) + (if log[|log| - 1].1 == d then 1 else 0)
  }

  /** The sum of the per-type counts. */
  function TypeTotal(c: TypeCounts): nat
  {
    c.url + c.phone + c.maps + c.vcard + c.wifi
  }

  /** The sum of the values of a map. */
  ghost function SumValues(m: map<JsString, nat>): nat
    decreases |m|
  {
    if m == map[] then 0
    else
      HasKey(m);
      var k :| k in m;
      m[k] + SumValues(m - {k})
  }

  /** Both breakdowns add up to the total. */
  ghost predicate Consistent(a: Analytics)
  {
    TypeTotal(a.byType) == a.totalGenerated && SumValues(a.byDate) == a.totalGenerated
  }

  lemma HasKey(m: map<JsString, nat>)
    requires m != map[]
    ensures exists k :: k in m
  {
    if forall k :: k !in m {
      assert false;
    }
  }

  /** Any key can be taken out of the sum first. */
  lemma {:induction false} SumValuesRemove(m: map<JsString, nat>, k: JsString)
    requires k in m
    ensures SumValues(m) == m[k] + SumValues(m - {k})
    decreases |m|
  {
    var j :| j in m && SumValues(m) == m[j] + SumValues(m - {j});
    if j != k {
      SumValuesRemove(m - {j}, k);
      SumValuesRemove(m - {k}, j);
      assert m - {j} - {k} == m - {k} - {j};
    }
  }

  /** Setting a key to one more than it held adds one to the sum. */
  lemma SumValuesIncrement(m: map<JsString, nat>, k: JsString)
    ensures SumValues(m[k := (if k in m then m[k] else 0) + 1]) == SumValues(m) + 1
  {
    var m' := m[k := (if k in m then m[k] else 0) + 1];
    SumValuesRemove(m', k);
    if k in m {
      SumValuesRemove(m, k);
      assert m' - {k} == m - {k};
    } else {
      assert m' - {k} == m;
    }
  }

  /** The counters start consistent. */
  lemma InitialConsistent()
    ensures Consistent(Initial())
  {
  }

  /** An update keeps both breakdowns in step with the total, adds one to
      the total, to `t` and to `today`, and changes no other count. */
  lemma RecordPreservesConsistency(a: Analytics, t: QRType, today: JsString)
    requires Consistent(a)
    ensures Consistent(Record(a, t, today))
    ensures Record(a, t, today).totalGenerated == a.totalGenerated + 1
    ensures Record(a, t, today).byType.Get(t) == a.byType.Get(t) + 1
    ensures forall u :: u != t ==> Record(a, t, today).byType.Get(u) == a.byType.Get(u)
    ensures Record(a, t, today).byDate.Keys == a.byDate.Keys + {today}
    ensures Record(a, t, today).byDate[today] == (if today in a.byDate then a.byDate[today] else 0) + 1
    ensures forall d :: d in a.byDate && d != today ==> Record(a, t, today).byDate[d] == a.byDate[d]
  {
    SumValuesIncrement(a.byDate, today);
  }

  /** Replaying a log counts it: the total is its length, each type's count
      and each day's count is the number of its renders of that type or on
      that day, and a day has an entry exactly when a render fell on it. */
  lemma {:induction false} ReplayCounts(log: seq<(QRType, JsString)>)
    ensures Replay(log).totalGenerated == |log|
    ensures forall t :: Replay(log).byType.Get(t) == CountType(log, t)
    ensures forall d :: d in Replay(log).byDate <==> CountDay(log, d) > 0
    ensures forall d :: d in Replay(log).byDate ==> Replay(log).byDate[d] == CountDay(log, d)
  {
    if |log| > 0 {
      ReplayCounts(log[..|log| - 1]);
    }
  }

  /** The counters of any history are consistent. */
  lemma {:induction false} ReplayConsistent(log: seq<(QRType, JsString)>)
    ensures Consistent(Replay(log))
  {
    if |log| == 0 {
      InitialConsistent();
    } else {
      var last := log[|log| - 1];
      ReplayConsistent(log[..|log| - 1]);
      RecordPreservesConsistency(Replay(log[..|log| - 1]), last.0, last.1);
    }
  }

  /** A timestamp `date` + `T` + `time` is filed under `date` when `date`
      has no `T`, as in `2024-05-01T09:30:00.000Z`. */
  lemma DayKeyOfTimestamp(date: JsString, time: JsString)
    requires Unit('T') !in date
    ensures DayKey(date + [Unit('T')] + time) == date
  {
    var iso := date + [Unit('T')] + time;
    IndexOfAfterFree(date, Unit('T'), time);
    assert iso[..|date|] == date;
  }

  /** The day key is a prefix of the timestamp without a `T`, the whole
      timestamp when it has none. */
  lemma DayKeyPrefix(iso: JsString)
    ensures DayKey(iso) <= iso && Unit('T') !in DayKey(iso)
    ensures Unit('T') !in iso ==> DayKey(iso) == iso
  {
  }
}
