/**
 * `format_schedule_for_group`: bucket each timestamp of the decoded fact document into a calendar
 * date and fill `days[date][time_range]` with normalised codes.
 */
module Schedule {
  import opened Wrappers
  import opened Status

  /** One group's hours at one timestamp, in document order: (hour index, raw code). */
  type Hours = seq<(int, string)>
  /** Group identifier to its hours, at one timestamp. */
  type Slice = map<string, Hours>
  /** The `data` field: (unix timestamp, slice), in document order. */
  type Data = seq<(int, Slice)>
  /** Time-range label to status label. */
  type DaySchedule = map<string, string>
  /** Calendar date to that date's schedule. */
  type Days = map<string, DaySchedule>

  /** The decoded `fact` object: its optional `update` and `data` fields. */
  datatype FactDoc = FactDoc(update: Option<string>, data: Option<Data>)

  function DigitChar(d: int): char
    requires 0 <= d < 10
  {
    ('0' as int + d) as char
  }

  /** Decimal digits of a natural number, most significant first. */
  function Digits(n: nat): (s: string)
    decreases n
  {
    if n < 10 then [DigitChar(n)] else Digits(n / 10) + [DigitChar(n % 10)]
  }

  /** Python's `f"{n:02d}"`: the sign, then the digits zero-padded to a total width of two. */
  function Pad2(n: int): (s: string)
  {
    if n < 0 then "-" + Digits(-n)
    else if n < 10 then "0" + Digits(n)
    else Digits(n)
  }

  /** `f"{hour-1:02d}:00-{hour:02d}:00"`. */
  function TimeRange(hour: int): (s: string)
  {
    Pad2(hour - 1) + ":00-" + Pad2(hour) + ":00"
  }

  predicate IsDigit(c: char) {
    '0' <= c <= '9'
  }

  /** Reads back a two-digit field. */
  function TwoDigits(s: string): Option<int> {
    if |s| == 2 && IsDigit(s[0]) && IsDigit(s[1])
    then Some(10 * (s[0] as int - '0' as int) + (s[1] as int - '0' as int))
    else None
  }

  /** Reads back a label of the form "aa:00-bb:00" with bb = aa + 1, giving the hour index bb. */
  function ParseTimeRange(s: string): Option<int> {
    if |s| == 11 && s[2..6] == ":00-" && s[8..] == ":00" then
      match (TwoDigits(s[..2]), TwoDigits(s[6..8]))
      case (Some(a), Some(b)) => if a + 1 == b then Some(b) else None
      case _ => None
    else None
  }

  lemma Pad2TwoDigits(n: int)
    requires 0 <= n < 100
    ensures Pad2(n) == [DigitChar(n / 10), DigitChar(n % 10)]
    ensures TwoDigits(Pad2(n)) == Some(n)
  {
    if n >= 10 {
      assert Digits(n / 10) == [DigitChar(n / 10)];
    }
  }

  /** For an hour index in 1..24 the label is eleven characters and reads back to the hour,
      so distinct hours get distinct labels. */
  lemma TimeRangeRoundTrip(hour: int)
    requires 1 <= hour <= 24
    ensures |TimeRange(hour)| == 11
    ensures ParseTimeRange(TimeRange(hour)) == Some(hour)
  {
    var s := TimeRange(hour);
    Pad2TwoDigits(hour - 1);
    Pad2TwoDigits(hour);
    assert s[..2] == Pad2(hour - 1);
    assert s[2..6] == ":00-";
    assert s[6..8] == Pad2(hour);
    assert s[8..] == ":00";
  }

  lemma TimeRangeInjective(h1: int, h2: int)
    requires 1 <= h1 <= 24 && 1 <= h2 <= 24 && TimeRange(h1) == TimeRange(h2)
    ensures h1 == h2
  {
    TimeRangeRoundTrip(h1);
    TimeRangeRoundTrip(h2);
  }

  lemma TimeRangeEnds()
    ensures TimeRange(1) == "00:00-01:00"
    ensures TimeRange(24) == "23:00-24:00"
  {
    Pad2TwoDigits(0);
    Pad2TwoDigits(1);
    Pad2TwoDigits(23);
    Pad2TwoDigits(24);
  }

  /** A dict filled by `d[key(e)] = value(e)` for each entry in order: later writes win. */
  function Written<E>(entries: seq<E>, key: E -> string, value: E -> string): (d: map<string, string>)
    decreases |entries|
  {
    if entries == [] then map[]
    else
      var last := entries[|entries| - 1];
      Written(entries[..|entries| - 1], key, value)[key(last) := value(last)]
  }

  /** One date's schedule: `days[date][time_range] = readable_status` for each hour entry. */
  function Fill(hours: Hours): (day: DaySchedule)
  {
    Written(hours, (e: (int, string)) => TimeRange(e.0), (e: (int, string)) => Normalize(e.1))
  }

  lemma FillSnoc(hours: Hours, n: nat)
    requires n < |hours|
    ensures Fill(hours[..n + 1]) == Fill(hours[..n])[TimeRange(hours[n].0) := Normalize(hours[n].1)]
  {
    assert hours[..n + 1][..n] == hours[..n];
  }

  /** The `days` map after the timestamps of `data`: a timestamp whose slice holds the group
      resets its date to that slice's hours. */
  function Bucket(data: Data, group: string, dateOf: int -> string): (days: Days)
    decreases |data|
  {
    if data == [] then map[]
    else
      var (timestamp, slice) := data[|data| - 1];
      var prev := Bucket(data[..|data| - 1], group, dateOf);
      if group in slice then prev[dateOf(timestamp) := Fill(slice[group])] else prev
  }

  /** One pass of the inner loop of `FormatScheduleForGroup`: writing hour entry `j` into the
      date's schedule extends the filled prefix by that entry. */
  lemma FillStep(before: Days, date: string, hours: Hours, j: nat, days: Days)
    requires j < |hours| && days == before[date := Fill(hours[..j])]
    ensures days[date := days[date][TimeRange(hours[j].0) := Normalize(hours[j].1)]]
      == before[date := Fill(hours[..j + 1])]
  {
    FillSnoc(hours, j);
  }

  /** One pass of the outer loop when the timestamp has the group: its date is reset to the
      filled hours. */
  lemma BucketTaken(data: Data, group: string, dateOf: int -> string, i: nat)
    requires i < |data| && group in data[i].1
    ensures Bucket(data[..i + 1], group, dateOf)
      == Bucket(data[..i], group, dateOf)[dateOf(data[i].0) := Fill(data[i].1[group])]
  {
    assert data[..i + 1][..i] == data[..i];
  }

  /** One pass of the outer loop when the timestamp lacks the group: nothing changes. */
  lemma BucketSkipped(data: Data, group: string, dateOf: int -> string, i: nat)
    requires i < |data| && group !in data[i].1
    ensures Bucket(data[..i + 1], group, dateOf) == Bucket(data[..i], group, dateOf)
  {
    assert data[..i + 1][..i] == data[..i];
  }

  /** The `days` of one group; no `data` field gives no days. */
  function DaysOf(fact: FactDoc, group: string, dateOf: int -> string): (days: Days)
  {
    match fact.data
    case None => map[]
    case Some(data) => Bucket(data, group, dateOf)
  }

  /** `format_schedule_for_group`, returning `result["days"]`. */
  method FormatScheduleForGroup(fact: FactDoc, group: string, dateOf: int -> string) returns (days: Days)
    ensures days == DaysOf(fact, group, dateOf)
  {
    days := map[];
    if fact.data.None? {
      return;
    }
    var data := fact.data.value;
    var i := 0;
    while i < |data|
      invariant 0 <= i <= |data|
      invariant days == Bucket(data[..i], group, dateOf)
    {
      ghost var before := days;
      var (timestamp, groupsData) := data[i];
      var date := dateOf(timestamp);
      if group in groupsData {
        var hoursData := groupsData[group];
        days := days[date := map[]];
        var j := 0;
        while j < |hoursData|
          invariant 0 <= j <= |hoursData|
          invariant days == before[date := Fill(hoursData[..j])]
        {
          FillStep(before, date, hoursData, j, days);
          var (hour, status) := hoursData[j];
          var timeRange := TimeRange(hour);
          var readableStatus := Normalize(status);
          days := days[date := days[date][timeRange := readableStatus]];
          j := j + 1;
        }
        assert hoursData[..j] == hoursData;
        BucketTaken(data, group, dateOf, i);
      } else {
        BucketSkipped(data, group, dateOf, i);
      }
      i := i + 1;
    }
    assert data[..i] == data;
  }

  /** A key is present exactly when some entry writes it. */
  lemma {:induction false} WrittenKeys<E>(entries: seq<E>, key: E -> string, value: E -> string, k: string)
    ensures k in Written(entries, key, value) <==> exists i :: 0 <= i < |entries| && key(entries[i]) == k
    decreases |entries|
  {
    if entries != [] {
      var n := |entries| - 1;
      var init := entries[..n];
      WrittenKeys(init, key, value, k);
      if k == key(entries[n]) {
        assert 0 <= n < |entries| && key(entries[n]) == k;
      } else if k in Written(init, key, value) {
        var i :| 0 <= i < |init| && key(init[i]) == k;
        assert init[i] == entries[i];
      } else {
        forall i | 0 <= i < |entries| ensures key(entries[i]) != k {
          if i < n { assert init[i] == entries[i]; }
        }
      }
    }
  }

  /** The value under a key is the one written by the last entry with that key. */
  lemma {:induction false} WrittenLastWins<E>(entries: seq<E>, key: E -> string, value: E -> string, k: string)
    requires k in Written(entries, key, value)
    ensures exists i :: (0 <= i < |entries| && key(entries[i]) == k
      && Written(entries, key, value)[k] == value(entries[i])
      && forall j :: i < j < |entries| ==> key(entries[j]) != k)
    decreases |entries|
  {
    var n := |entries| - 1;
    var init := entries[..n];
    if key(entries[n]) == k {
      assert 0 <= n < |entries| && key(entries[n]) == k
        && Written(entries, key, value)[k] == value(entries[n]);
    } else {
      WrittenLastWins(init, key, value, k);
      var i :| 0 <= i < |init| && key(init[i]) == k
        && Written(init, key, value)[k] == value(init[i])
        && forall j :: i < j < |init| ==> key(init[j]) != k;
      assert init[i] == entries[i];
      forall j | i < j < |entries| ensures key(entries[j]) != k {
        if j < n { assert init[j] == entries[j]; }
      }
    }
  }

  /** A time-range key is present exactly when some hour entry produces it. */
  lemma FillKeys(hours: Hours, range: string)
    ensures range in Fill(hours) <==> exists i :: 0 <= i < |hours| && TimeRange(hours[i].0) == range
  {
    WrittenKeys(hours, (e: (int, string)) => TimeRange(e.0), (e: (int, string)) => Normalize(e.1), range);
  }

  /** The value under a key comes from the last hour entry producing that key. */
  lemma FillLastWins(hours: Hours, range: string)
    requires range in Fill(hours)
    ensures exists i :: (0 <= i < |hours| && TimeRange(hours[i].0) == range
      && Fill(hours)[range] == Normalize(hours[i].1)
      && forall j :: i < j < |hours| ==> TimeRange(hours[j].0) != range)
  {
    WrittenLastWins(hours, (e: (int, string)) => TimeRange(e.0), (e: (int, string)) => Normalize(e.1), range);
  }

  /** A date key is present exactly when some timestamp on that date has the group. */
  lemma {:induction false} BucketKeys(data: Data, group: string, dateOf: int -> string, date: string)
    ensures date in Bucket(data, group, dateOf) <==>
      exists i :: 0 <= i < |data| && group in data[i].1 && dateOf(data[i].0) == date
    decreases |data|
  {
    if data != [] {
      var init := data[..|data| - 1];
      BucketKeys(init, group, dateOf, date);
      assert forall i :: 0 <= i < |init| ==> init[i] == data[i];
    }
  }

  /** A later timestamp on the same date replaces the earlier entries instead of merging:
      a date's schedule is exactly the hours of the last timestamp on that date having the group. */
  lemma {:induction false} BucketLastWins(data: Data, group: string, dateOf: int -> string, date: string)
    requires date in Bucket(data, group, dateOf)
    ensures exists i :: (0 <= i < |data| && group in data[i].1 && dateOf(data[i].0) == date
      && Bucket(data, group, dateOf)[date] == Fill(data[i].1[group])
      && forall j :: i < j < |data| && group in data[j].1 ==> dateOf(data[j].0) != date)
    decreases |data|
  {
    var n := |data| - 1;
    var init := data[..n];
    if group in data[n].1 && dateOf(data[n].0) == date {
      assert Bucket(data, group, dateOf)[date] == Fill(data[n].1[group]);
    } else {
      BucketLastWins(init, group, dateOf, date);
      var i :| 0 <= i < |init| && group in init[i].1 && dateOf(init[i].0) == date
        && Bucket(init, group, dateOf)[date] == Fill(init[i].1[group])
        && forall j :: i < j < |init| && group in init[j].1 ==> dateOf(init[j].0) != date;
      assert init[i] == data[i];
      assert forall j :: i < j < |data| && group in data[j].1 ==> dateOf(data[j].0) != date by {
        forall j | i < j < |data| && group in data[j].1 ensures dateOf(data[j].0) != date {
          if j < n { assert init[j] == data[j]; }
        }
      }
    }
  }

  /** The group gets no days exactly when no timestamp has it (or there is no `data`). */
  lemma DaysEmpty(fact: FactDoc, group: string, dateOf: int -> string)
    ensures DaysOf(fact, group, dateOf) == map[] <==>
      fact.data.None? || forall i :: 0 <= i < |fact.data.value| ==> group !in fact.data.value[i].1
  {
    if fact.data.Some? {
      var data := fact.data.value;
      if exists i :: 0 <= i < |data| && group in data[i].1 {
        var i :| 0 <= i < |data| && group in data[i].1;
        BucketKeys(data, group, dateOf, dateOf(data[i].0));
      } else if Bucket(data, group, dateOf) != map[] {
        var date :| date in Bucket(data, group, dateOf);
        BucketKeys(data, group, dateOf, date);
      }
    }
  }

  /** Every stored value is the normalisation of some input code of that group on that date. */
  lemma StoredValuesNormalized(data: Data, group: string, dateOf: int -> string, date: string, range: string)
    requires date in Bucket(data, group, dateOf) && range in Bucket(data, group, dateOf)[date]
    ensures exists i, k :: (0 <= i < |data| && group in data[i].1 && dateOf(data[i].0) == date
      && 0 <= k < |data[i].1[group]|
      && TimeRange(data[i].1[group][k].0) == range
      && Bucket(data, group, dateOf)[date][range] == Normalize(data[i].1[group][k].1))
  {
    BucketLastWins(data, group, dateOf, date);
    var i :| 0 <= i < |data| && group in data[i].1 && dateOf(data[i].0) == date
      && Bucket(data, group, dateOf)[date] == Fill(data[i].1[group]);
    FillLastWins(data[i].1[group], range);
  }

  /** Hour indices in 1..24 give only eleven-character keys. */
  lemma KeysWellFormed(data: Data, group: string, dateOf: int -> string, date: string, range: string)
    requires forall i, k :: (0 <= i < |data| && group in data[i].1 && 0 <= k < |data[i].1[group]|
      ==> 1 <= data[i].1[group][k].0 <= 24)
    requires date in Bucket(data, group, dateOf) && range in Bucket(data, group, dateOf)[date]
    ensures |range| == 11 && ParseTimeRange(range).Some?
  {
    StoredValuesNormalized(data, group, dateOf, date, range);
    var i, k :| 0 <= i < |data| && group in data[i].1 && dateOf(data[i].0) == date
      && 0 <= k < |data[i].1[group]| && TimeRange(data[i].1[group][k].0) == range;
    TimeRangeRoundTrip(data[i].1[group][k].0);
  }

  /** A date can map to an empty schedule: a timestamp whose group has an empty hour map
      still creates its date. */
  lemma EmptyHoursKeepDate(timestamp: int, group: string, dateOf: int -> string)
    ensures Bucket([(timestamp, map[group := []])], group, dateOf) == map[dateOf(timestamp) := map[]]
  {
    var data: Data := [(timestamp, map[group := []])];
    assert data[..0] == [];
  }

  /** A sample `data` with one timestamp whose `GPV1.1` has hours 1 and 2. */
  lemma FixtureSchedule(dateOf: int -> string)
    ensures var data := [(1700000000, map["GPV1.1" := [(1, "yes"), (2, "no")]])];
      && Bucket(data, "GPV1.1", dateOf) == map[dateOf(1700000000) := map["00:00-01:00" := "light_on", "01:00-02:00" := "light_off"]]
      && Bucket(data, "GPV1.2", dateOf) == map[]
  {
    var hours: Hours := [(1, "yes"), (2, "no")];
    var data: Data := [(1700000000, map["GPV1.1" := hours])];
    var key := (e: (int, string)) => TimeRange(e.0);
    var value := (e: (int, string)) => Normalize(e.1);
    assert data[..0] == [];
    assert hours[..1] == [(1, "yes")] && hours[..1][..0] == [];
    TimeRangeEnds();
    Pad2TwoDigits(1);
    Pad2TwoDigits(2);
    assert Written(hours[..1], key, value) == map["00:00-01:00" := "light_on"];
    assert TimeRange(2) == "01:00-02:00";
    assert hours[|hours| - 1] == (2, "no") && hours[..|hours| - 1] == hours[..1];
    assert Fill(hours) == Written(hours[..1], key, value)[TimeRange(2) := Normalize("no")];
  }
}
