/** The client-side statistics of the dashboard: reading the weather CSV,
    monthly temperature averages, the weather distribution per day type and
    the working/non-working split. */
module Aggregator {
  import opened Wrappers
  import opened Text
  import opened Civil

  // ---- parseCSV ----

  /** One CSV line after `line.split(',')` and positional destructuring into
      `[date, tempMax, tempMin, weather, dayType]`; a field the line does not
      have is `None` (`undefined`), fields past the fifth are ignored. */
  datatype CsvRow = CsvRow(date: string, tempMax: Option<string>, tempMin: Option<string>,
                           weather: Option<string>, dayType: Option<string>)

  function Field(fields: seq<string>, i: nat): Option<string>
  {
    if i < |fields| then Some(fields[i]) else None
  }

  function ParseCsvLine(line: string): (row: CsvRow)
    ensures ',' !in row.date
    ensures row.dayType.Some? <==> |Split(line, ',')| >= 5
    ensures row.weather.Some? <==> |Split(line, ',')| >= 4
  {
    var f := Split(line, ',');
    CsvRow(f[0], Field(f, 1), Field(f, 2), Field(f, 3), Field(f, 4))
  }

  /** `parseCSV(data)`: one row per line after the first (the header). */
  function ParseCsv(data: string): (rows: seq<CsvRow>)
    ensures |rows| == |Split(data, '\n')| - 1
  {
    var lines := Split(data, '\n');
    seq(|lines| - 1, i requires 0 <= i < |lines| - 1 => ParseCsvLine(lines[i + 1]))
  }

  /** Fields without commas, joined with commas, are read back positionally. */
  lemma CsvLineFields(fields: seq<string>)
    requires |fields| >= 5
    requires forall i | 0 <= i < |fields| :: ',' !in fields[i]
    ensures ParseCsvLine(Join(fields, ',')) ==
      CsvRow(fields[0], Some(fields[1]), Some(fields[2]), Some(fields[3]), Some(fields[4]))
  {
    SplitJoin(fields, ',');
  }

  /** A line with fewer than five fields leaves the missing ones undefined. */
  lemma CsvLineShort(fields: seq<string>)
    requires 1 <= |fields| < 5
    requires forall i | 0 <= i < |fields| :: ',' !in fields[i]
    ensures ParseCsvLine(Join(fields, ',')).dayType == None
    ensures ParseCsvLine(Join(fields, ',')).date == fields[0]
  {
    SplitJoin(fields, ',');
  }

  /** Text made of a header line and data lines parses to one row per data
      line, in order: the header is dropped and nothing else is. */
  lemma CsvRowsAreLines(header: string, lines: seq<string>)
    requires '\n' !in header
    requires forall i | 0 <= i < |lines| :: '\n' !in lines[i]
    ensures ParseCsv(Join([header] + lines, '\n')) ==
      seq(|lines|, i requires 0 <= i < |lines| => ParseCsvLine(lines[i]))
  {
    var all := [header] + lines;
    assert forall i | 0 <= i < |all| :: '\n' !in all[i] by {
      forall i | 0 <= i < |all| ensures '\n' !in all[i] {
        if i > 0 { assert all[i] == lines[i - 1]; }
      }
    }
    SplitJoin(all, '\n');
  }

  // ---- Records as the statistics see them ----

  /** A parsed weather record: the CSV row with its date read as a calendar
      date and its temperatures as numbers. */
  datatype Record = Record(date: CivilDate, tempMax: real, tempMin: real, weather: string, dayType: string)

  /** `new Date(date).getMonth()`: the month index 0..11, whatever the year. */
  function MonthOf(r: Record): int
  {
    r.date.month - 1
  }

  /** `dayType.trim().toLowerCase()`. */
  function Normalize(s: string): (r: string)
    ensures |r| <= |s|
  {
    ToLower(Trim(s))
  }

  /** A normalised day type is no longer than the original, holds no ASCII
      capital letter, and neither starts nor ends with white space. */
  lemma NormalizeShape(s: string)
    ensures var r := Normalize(s);
      && |r| <= |s|
      && (forall k | 0 <= k < |r| :: !('A' <= r[k] <= 'Z'))
      && (r != [] ==> !IsSpace(r[0]) && !IsSpace(r[|r| - 1]))
  {
    var t := Trim(s);
    ToLowerChars(t);
    if t != [] {
      LowerKeepsSpace(t[0]);
      LowerKeepsSpace(t[|t| - 1]);
    }
  }

  const WorkingDay: string := "working day"
  const NonWorkingDay: string := "non-working day"

  /** The number of records satisfying `P`. */
  function CountWhere(data: seq<Record>, P: Record -> bool): (n: nat)
    ensures n <= |data|
  {
    if data == [] then 0
    else CountWhere(data[..|data| - 1], P) + (if P(data[|data| - 1]) then 1 else 0)
  }

  /** The negation of a test. */
  function Not(P: Record -> bool): Record -> bool
  {
    r => !P(r)
  }

  /** Every record satisfies exactly one of `P` and its negation. */
  lemma {:induction false} CountComplement(data: seq<Record>, P: Record -> bool)
    ensures CountWhere(data, P) + CountWhere(data, Not(P)) == |data|
  {
    if data != [] {
      CountComplement(data[..|data| - 1], P);
    }
  }

  lemma {:induction false} CountNone(data: seq<Record>, P: Record -> bool)
    ensures CountWhere(data, P) == 0 <==> forall i | 0 <= i < |data| :: !P(data[i])
  {
    if data != [] {
      var init := data[..|data| - 1];
      CountNone(init, P);
      assert forall i | 0 <= i < |init| :: init[i] == data[i];
    }
  }

  // ---- calculateMonthlyAverages ----

  /** One of the twelve accumulators: sums of the minimum and maximum
      temperatures and the number of records. */
  datatype Bucket = Bucket(minSum: real, maxSum: real, count: nat)

  /** The bucket for month index `m` after all of `data` was added. */
  function BucketOf(data: seq<Record>, m: int): (b: Bucket)
    ensures b.count <= |data|
    ensures b.count == 0 ==> b.minSum == 0.0 && b.maxSum == 0.0
  {
    if data == [] then Bucket(0.0, 0.0, 0)
    else
      var b := BucketOf(data[..|data| - 1], m);
      var r := data[|data| - 1];
      if MonthOf(r) == m then Bucket(b.minSum + r.tempMin, b.maxSum + r.tempMax, b.count + 1) else b
  }

  datatype MonthlyAverage = MonthlyAverage(avgMinTemp: Option<real>, avgMaxTemp: Option<real>)

  /** `sum / count`, with `None` for the `NaN` of an empty bucket. */
  function Mean(sum: real, count: nat): (r: Option<real>)
    ensures r.None? <==> count == 0
    ensures r.Some? ==> r.value * count as real == sum
  {
    if count == 0 then None else Some(sum / count as real)
  }

  function AverageOf(b: Bucket): (a: MonthlyAverage)
    ensures a.avgMinTemp.None? <==> b.count == 0
    ensures a.avgMaxTemp.None? <==> b.count == 0
  {
    MonthlyAverage(Mean(b.minSum, b.count), Mean(b.maxSum, b.count))
  }

  method CalculateMonthlyAverages(data: seq<Record>) returns (averages: seq<MonthlyAverage>)
    ensures |averages| == 12
    ensures forall m | 0 <= m < 12 :: averages[m] == AverageOf(BucketOf(data, m))
  {
    var months := new Bucket[12](_ => Bucket(0.0, 0.0, 0));
    for i := 0 to |data|
      invariant forall m | 0 <= m < 12 :: months[m] == BucketOf(data[..i], m)
    {
      var r := data[i];
      var m := MonthOf(r);
      months[m] := Bucket(months[m].minSum + r.tempMin, months[m].maxSum + r.tempMax, months[m].count + 1);
      assert data[..i + 1][..i] == data[..i];
    }
    assert data[..|data|] == data;
    averages := [];
    for m := 0 to 12
      invariant |averages| == m
      invariant forall k | 0 <= k < m :: averages[k] == AverageOf(months[k])
    {
      averages := averages + [AverageOf(months[m])];
    }
  }

  /** Bucket `m` counts exactly the records whose month index is `m`. */
  lemma {:induction false} BucketCount(data: seq<Record>, m: int)
    ensures BucketOf(data, m).count == CountWhere(data, (r: Record) => MonthOf(r) == m)
  {
    if data != [] {
      BucketCount(data[..|data| - 1], m);
    }
  }

  function SumCounts(data: seq<Record>, n: nat): nat
  {
    if n == 0 then 0 else SumCounts(data, n - 1) + BucketOf(data, n - 1).count
  }

  lemma {:induction false} SumCountsSnoc(data: seq<Record>, n: nat)
    requires data != []
    ensures SumCounts(data, n) ==
      SumCounts(data[..|data| - 1], n) + (if MonthOf(data[|data| - 1]) < n then 1 else 0)
  {
    if n > 0 {
      SumCountsSnoc(data, n - 1);
    }
  }

  /** Each record adds to exactly one bucket: the twelve counts add up to the
      number of records. */
  lemma {:induction false} BucketCountsSum(data: seq<Record>)
    ensures SumCounts(data, 12) == |data|
  {
    if data != [] {
      BucketCountsSum(data[..|data| - 1]);
      SumCountsSnoc(data, 12);
    } else {
      SumCountsEmpty(data, 12);
    }
  }

  lemma {:induction false} SumCountsEmpty(data: seq<Record>, n: nat)
    requires data == []
    ensures SumCounts(data, n) == 0
  {
    if n > 0 {
      SumCountsEmpty(data, n - 1);
    }
  }

  /** A month's averages are missing exactly when no record falls in it. */
  lemma MonthWithoutData(data: seq<Record>, m: int)
    ensures var a := AverageOf(BucketOf(data, m));
      (a.avgMinTemp == None && a.avgMaxTemp == None) <==> forall i | 0 <= i < |data| :: MonthOf(data[i]) != m
    ensures var a := AverageOf(BucketOf(data, m));
      a.avgMinTemp.Some? <==> a.avgMaxTemp.Some?
  {
    BucketCount(data, m);
    CountNone(data, (r: Record) => MonthOf(r) == m);
  }

  /** The year plays no part: records that differ only in their year give
      the same buckets. */
  lemma {:induction false} YearIgnored(data: seq<Record>, other: seq<Record>, m: int)
    requires |data| == |other|
    requires forall i | 0 <= i < |data| ::
      && other[i].date.month == data[i].date.month
      && other[i].tempMin == data[i].tempMin && other[i].tempMax == data[i].tempMax
    ensures BucketOf(data, m) == BucketOf(other, m)
  {
    if data != [] {
      YearIgnored(data[..|data| - 1], other[..|other| - 1], m);
    }
  }

  lemma {:induction false} SumsOrdered(data: seq<Record>, m: int)
    requires forall i | 0 <= i < |data| :: data[i].tempMin <= data[i].tempMax
    ensures BucketOf(data, m).minSum <= BucketOf(data, m).maxSum
  {
    if data != [] {
      SumsOrdered(data[..|data| - 1], m);
    }
  }

  /** When every record's minimum is at most its maximum, so is every month's
      average minimum compared with its average maximum. */
  lemma AveragesOrdered(data: seq<Record>, m: int)
    requires forall i | 0 <= i < |data| :: data[i].tempMin <= data[i].tempMax
    ensures var a := AverageOf(BucketOf(data, m));
      a.avgMinTemp.Some? ==> a.avgMinTemp.value <= a.avgMaxTemp.value
  {
    SumsOrdered(data, m);
    var b := BucketOf(data, m);
    if b.count > 0 {
      DivMonotone(b.minSum, b.maxSum, b.count as real);
    }
  }

  lemma DivMonotone(x: real, y: real, c: real)
    requires x <= y && c > 0.0
    ensures x / c <= y / c
  {
    assert x / c * c == x && y / c * c == y;
  }

  // ---- calculateWeatherDistribution ----

  /** The four weather tallies of a group and the group's total. */
  datatype Tally = Tally(drizzle: nat, rain: nat, snow: nat, sun: nat, total: nat)

  /** `total++; counts[weather]++`: the weather key is matched exactly; an
      unknown key raises no tally but still counts toward the total. */
  function Tallied(t: Tally, weather: string): (r: Tally)
    ensures r.total == t.total + 1
    ensures r.drizzle == t.drizzle + (if weather == "drizzle" then 1 else 0)
    ensures r.rain == t.rain + (if weather == "rain" then 1 else 0)
    ensures r.snow == t.snow + (if weather == "snow" then 1 else 0)
    ensures r.sun == t.sun + (if weather == "sun" then 1 else 0)
    ensures Tallies(r) == Tallies(t) + (if IsKnownWeather(weather) then 1 else 0)
  {
    var counted := t.(total := t.total + 1);
    if weather == "drizzle" then counted.(drizzle := t.drizzle + 1)
    else if weather == "rain" then counted.(rain := t.rain + 1)
    else if weather == "snow" then counted.(snow := t.snow + 1)
    else if weather == "sun" then counted.(sun := t.sun + 1)
    else counted
  }

  /** The tally of the records of a group (`inGroup` tells which). */
  function GroupTally(data: seq<Record>, inGroup: Record -> bool): (t: Tally)
    ensures t.total <= |data|
    ensures Tallies(t) <= t.total
  {
    if data == [] then Tally(0, 0, 0, 0, 0)
    else
      var t := GroupTally(data[..|data| - 1], inGroup);
      var r := data[|data| - 1];
      if inGroup(r) then Tallied(t, r.weather) else t
  }

  /** A working day: the normalised day type is `working day`; such a day
      type has at least that many characters, and the day is never also a
      non-working day. */
  predicate IsWorkingDay(r: Record)
    ensures IsWorkingDay(r) ==> |r.dayType| >= |WorkingDay| && !IsNonWorkingDay(r)
  {
    Normalize(r.dayType) == WorkingDay
  }

  predicate IsNonWorkingDay(r: Record)
    ensures IsNonWorkingDay(r) ==> |r.dayType| >= |NonWorkingDay|
  {
    Normalize(r.dayType) == NonWorkingDay
  }

  /** `count / total * 100`, with `None` for the `NaN` of an empty group. */
  function Percent(count: nat, total: nat): (r: Option<real>)
    ensures r.None? <==> total == 0
    ensures r.Some? && count == 0 ==> r.value == 0.0
  {
    if total == 0 then None else Some(count as real / total as real * 100.0)
  }

  datatype GroupDistribution = GroupDistribution(drizzle: Option<real>, rain: Option<real>,
                                                 snow: Option<real>, sun: Option<real>)

  function DistributionOf(t: Tally): (g: GroupDistribution)
    ensures t.total == 0 <==> g.drizzle.None?
    ensures t.total == 0 <==> g.drizzle.None? && g.rain.None? && g.snow.None? && g.sun.None?
  {
    GroupDistribution(Percent(t.drizzle, t.total), Percent(t.rain, t.total),
                      Percent(t.snow, t.total), Percent(t.sun, t.total))
  }

  datatype WeatherDistribution = WeatherDistribution(workingDayDistribution: GroupDistribution,
                                                     nonWorkingDayDistribution: GroupDistribution)

  method CalculateWeatherDistribution(data: seq<Record>) returns (dist: WeatherDistribution)
    ensures dist == WeatherDistribution(DistributionOf(GroupTally(data, IsWorkingDay)),
                                        DistributionOf(GroupTally(data, IsNonWorkingDay)))
    ensures dist == WeatherDistribution(GroupShares(data, IsWorkingDay), GroupShares(data, IsNonWorkingDay))
  {
    var workingDays := Tally(0, 0, 0, 0, 0);
    var nonWorkingDays := Tally(0, 0, 0, 0, 0);
    for i := 0 to |data|
      invariant workingDays == GroupTally(data[..i], IsWorkingDay)
      invariant nonWorkingDays == GroupTally(data[..i], IsNonWorkingDay)
    {
      var item := data[i];
      var dayType := Normalize(item.dayType);
      if dayType == WorkingDay {
        workingDays := Tallied(workingDays, item.weather);
      } else if dayType == NonWorkingDay {
        nonWorkingDays := Tallied(nonWorkingDays, item.weather);
      }
      assert data[..i + 1][..i] == data[..i];
    }
    assert data[..|data|] == data;
    dist := WeatherDistribution(DistributionOf(workingDays), DistributionOf(nonWorkingDays));
    GroupDistributionShares(data, IsWorkingDay);
    GroupDistributionShares(data, IsNonWorkingDay);
  }

  predicate IsKnownWeather(w: string)
  {
    w == "drizzle" || w == "rain" || w == "snow" || w == "sun"
  }

  function Tallies(t: Tally): nat
  {
    t.drizzle + t.rain + t.snow + t.sun
  }

  /** The group total counts every record of the group. */
  lemma {:induction false} TotalIsGroupSize(data: seq<Record>, inGroup: Record -> bool)
    ensures GroupTally(data, inGroup).total == CountWhere(data, inGroup)
  {
    if data != [] {
      TotalIsGroupSize(data[..|data| - 1], inGroup);
    }
  }

  /** The records of a group whose weather key is exactly `w`. */
  function WithWeather(inGroup: Record -> bool, w: string): Record -> bool
  {
    r => inGroup(r) && r.weather == w
  }

  /** Each of the four tallies counts the records of the group with exactly
      that weather. */
  lemma {:induction false} CategoryTally(data: seq<Record>, inGroup: Record -> bool)
    ensures var t := GroupTally(data, inGroup);
      && t.drizzle == CountWhere(data, WithWeather(inGroup, "drizzle"))
      && t.rain == CountWhere(data, WithWeather(inGroup, "rain"))
      && t.snow == CountWhere(data, WithWeather(inGroup, "snow"))
      && t.sun == CountWhere(data, WithWeather(inGroup, "sun"))
  {
    if data != [] {
      CategoryTally(data[..|data| - 1], inGroup);
    }
  }

  /** Reference definition of a group's distribution: each weather's share,
      in percent, of the records of the group. */
  function GroupShares(data: seq<Record>, inGroup: Record -> bool): GroupDistribution
  {
    var size := CountWhere(data, inGroup);
    GroupDistribution(Percent(CountWhere(data, WithWeather(inGroup, "drizzle")), size),
                      Percent(CountWhere(data, WithWeather(inGroup, "rain")), size),
                      Percent(CountWhere(data, WithWeather(inGroup, "snow")), size),
                      Percent(CountWhere(data, WithWeather(inGroup, "sun")), size))
  }

  /** The percentages computed from the tallies are the shares of each
      weather among the group's records. */
  lemma GroupDistributionShares(data: seq<Record>, inGroup: Record -> bool)
    ensures DistributionOf(GroupTally(data, inGroup)) == GroupShares(data, inGroup)
  {
    CategoryTally(data, inGroup);
    TotalIsGroupSize(data, inGroup);
  }

  /** The four tallies count only the records of the group with a known
      weather, so they reach the total exactly when every record of the group
      has one. */
  lemma {:induction false} TalliesAgainstTotal(data: seq<Record>, inGroup: Record -> bool)
    ensures var t := GroupTally(data, inGroup);
      && Tallies(t) <= t.total
      && (Tallies(t) == t.total <==>
            forall i | 0 <= i < |data| :: inGroup(data[i]) ==> IsKnownWeather(data[i].weather))
  {
    if data != [] {
      var init := data[..|data| - 1];
      var r := data[|data| - 1];
      TalliesAgainstTotal(init, inGroup);
      var t0 := GroupTally(init, inGroup);
      assert forall i | 0 <= i < |init| :: init[i] == data[i];
      if inGroup(r) {
        assert GroupTally(data, inGroup) == Tallied(t0, r.weather);
        if IsKnownWeather(r.weather) {
          assert Tallies(Tallied(t0, r.weather)) == Tallies(t0) + 1;
        } else {
          assert Tallies(Tallied(t0, r.weather)) == Tallies(t0);
        }
      }
    }
  }

  predicate HasKnownDayType(r: Record)
  {
    IsWorkingDay(r) || IsNonWorkingDay(r)
  }

  /** Two tests no record passes together count at most all the records,
      and exactly all of them when every record passes one. */
  lemma {:induction false} CountDisjoint(data: seq<Record>, P: Record -> bool, Q: Record -> bool)
    requires forall i | 0 <= i < |data| :: !(P(data[i]) && Q(data[i]))
    ensures CountWhere(data, P) + CountWhere(data, Q) <= |data|
    ensures CountWhere(data, P) + CountWhere(data, Q) == |data| <==>
      forall i | 0 <= i < |data| :: P(data[i]) || Q(data[i])
  {
    if data != [] {
      var init := data[..|data| - 1];
      assert forall i | 0 <= i < |init| :: init[i] == data[i];
      CountDisjoint(init, P, Q);
    }
  }

  /** Every record lands in at most one group; the two totals cover all
      records exactly when every day type normalises to one of the two. */
  lemma GroupsDisjoint(data: seq<Record>)
    ensures var w, n := GroupTally(data, IsWorkingDay).total, GroupTally(data, IsNonWorkingDay).total;
      && w + n <= |data|
      && (w + n == |data| <==> forall i | 0 <= i < |data| :: HasKnownDayType(data[i]))
  {
    TotalIsGroupSize(data, IsWorkingDay);
    TotalIsGroupSize(data, IsNonWorkingDay);
    assert WorkingDay != NonWorkingDay;
    CountDisjoint(data, IsWorkingDay, IsNonWorkingDay);
  }

  lemma PercentRange(count: nat, total: nat)
    requires count <= total
    ensures Percent(count, total).None? <==> total == 0
    ensures Percent(count, total).Some? ==> 0.0 <= Percent(count, total).value <= 100.0
  {
    if total > 0 {
      DivMonotone(count as real, total as real, total as real);
      assert (total as real) / (total as real) == 1.0;
    }
  }

  lemma PercentSum(a: nat, b: nat, c: nat, d: nat, total: nat)
    requires total > 0
    ensures Percent(a, total).value + Percent(b, total).value + Percent(c, total).value + Percent(d, total).value
      == (a + b + c + d) as real / total as real * 100.0
  {
    var t := total as real;
    assert a as real / t + b as real / t == (a + b) as real / t;
    assert (a + b) as real / t + c as real / t == (a + b + c) as real / t;
    assert (a + b + c) as real / t + d as real / t == (a + b + c + d) as real / t;
  }

  lemma PercentHundred(n: nat, total: nat)
    requires total > 0
    ensures n as real / total as real * 100.0 == 100.0 <==> n == total
  {
    var t := total as real;
    if n as real / t * 100.0 == 100.0 {
      assert n as real / t == 1.0;
      assert n as real == t;
    }
  }

  /** Four percentages of one total whose counts add up to at most that
      total sum to at most 100, and to exactly 100 when the counts add up to
      the total. */
  lemma PercentOfParts(a: nat, b: nat, c: nat, d: nat, total: nat)
    requires total > 0 && a + b + c + d <= total
    ensures var sum := Percent(a, total).value + Percent(b, total).value + Percent(c, total).value + Percent(d, total).value;
      && sum <= 100.0
      && (sum == 100.0 <==> a + b + c + d == total)
  {
    PercentSum(a, b, c, d, total);
    PercentRange(a + b + c + d, total);
    PercentHundred(a + b + c + d, total);
  }

  /** The percentages of a count and of the rest of the total add up to 100. */
  lemma PercentComplement(count: nat, total: nat)
    requires 0 < total && count <= total
    ensures Percent(count, total).value + Percent(total - count, total).value == 100.0
  {
    var t := total as real;
    assert count as real / t + (total - count) as real / t == t / t;
    assert t / t == 1.0;
  }

  /** A group's four percentages are all missing when the group is empty,
      and otherwise each lies in [0, 100]. */
  lemma GroupDistributionRange(data: seq<Record>, inGroup: Record -> bool)
    ensures var t := GroupTally(data, inGroup);
      var g := DistributionOf(t);
      && (t.total == 0 <==> g.drizzle.None? && g.rain.None? && g.snow.None? && g.sun.None?)
      && (t.total > 0 ==>
            && 0.0 <= g.drizzle.value <= 100.0 && 0.0 <= g.rain.value <= 100.0
            && 0.0 <= g.snow.value <= 100.0 && 0.0 <= g.sun.value <= 100.0)
  {
    var t := GroupTally(data, inGroup);
    TalliesAgainstTotal(data, inGroup);
    PercentRange(t.drizzle, t.total);
    PercentRange(t.rain, t.total);
    PercentRange(t.snow, t.total);
    PercentRange(t.sun, t.total);
  }

  /** For a non-empty group the four percentages sum to at most 100, and to
      exactly 100 when every record of the group has a known weather. */
  lemma GroupDistributionSum(data: seq<Record>, inGroup: Record -> bool)
    requires GroupTally(data, inGroup).total > 0
    ensures var g := DistributionOf(GroupTally(data, inGroup));
      var sum := g.drizzle.value + g.rain.value + g.snow.value + g.sun.value;
      && sum <= 100.0
      && (sum == 100.0 <==>
            forall i | 0 <= i < |data| :: inGroup(data[i]) ==> IsKnownWeather(data[i].weather))
  {
    var t := GroupTally(data, inGroup);
    TalliesAgainstTotal(data, inGroup);
    PercentOfParts(t.drizzle, t.rain, t.snow, t.sun, t.total);
  }

  // ---- calculateDayTypePercentages ----

  datatype DayTypeSplit = DayTypeSplit(workingPercentage: Option<real>, nonWorkingPercentage: Option<real>)

  /** `data.filter(item => normalised dayType == 'working day').length`. */
  function WorkingCount(data: seq<Record>): (n: nat)
    ensures n <= |data|
  {
    CountWhere(data, IsWorkingDay)
  }

  function CalculateDayTypePercentages(data: seq<Record>): (split: DayTypeSplit)
    ensures split.workingPercentage == Percent(CountWhere(data, IsWorkingDay), |data|)
    ensures split.nonWorkingPercentage == Percent(CountWhere(data, Not(IsWorkingDay)), |data|)
  {
    NonWorkingIsTheRest(data);
    var totalDays := |data|;
    var workingDays := WorkingCount(data);
    var nonWorkingDays := totalDays - workingDays;
    assert nonWorkingDays == CountWhere(data, Not(IsWorkingDay));
    DayTypeSplit(Percent(workingDays, totalDays), Percent(nonWorkingDays, totalDays))
  }

  /** For non-empty data both percentages exist and add up to 100; for empty
      data both are missing. */
  lemma DayTypeSplitSum(data: seq<Record>)
    ensures var s := CalculateDayTypePercentages(data);
      && (data == [] <==> s.workingPercentage.None? && s.nonWorkingPercentage.None?)
      && (data != [] ==> s.workingPercentage.value + s.nonWorkingPercentage.value == 100.0)
  {
    if data != [] {
      PercentComplement(WorkingCount(data), |data|);
    }
  }

  /** Every record whose day type is not `working day` counts as
      non-working, whatever its day type is. */
  lemma NonWorkingIsTheRest(data: seq<Record>)
    ensures |data| - WorkingCount(data) == CountWhere(data, Not(IsWorkingDay))
  {
    CountComplement(data, IsWorkingDay);
  }

  /** The working-day count of the split is the working-day group total of
      the weather distribution. */
  lemma WorkingCountsAgree(data: seq<Record>)
    ensures WorkingCount(data) == GroupTally(data, IsWorkingDay).total
  {
    TotalIsGroupSize(data, IsWorkingDay);
  }
}
