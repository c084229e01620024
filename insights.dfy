/** The insights service: total minutes per title over a time window
    (`timePerTitle`), and the same totals split into daily, weekly or monthly
    buckets (`timePerTitleStacked`). The activity table is an in-memory
    sequence; `groupBy` and `findMany` become explicit filters, sums and sorts,
    and the stacked aggregation keeps the service's own loops. */
module Insights {
  import opened Wrappers
  import opened Collections
  import opened Civil
  import opened Timestamps
  import opened ActivityRecords
  import opened TimeKeys

  const TimePerTitleMetric := "timePerTitle"
  const StackedMetric := "timePerTitleStacked"
  const InvalidMetricMessage := "Invalid metric type"

  /** How far back the window reaches when the query gives no start: 30 days. */
  const DefaultSpan: int := 30 * 24 * 60 * 60 * 1000

  /** The query after validation; `start` and `end` already read as
      milliseconds, `metric` still a free string. */
  datatype Query = Query(
    metric: string,
    start: Option<int>,
    end: Option<int>,
    interval: Option<Interval>,
    search: Option<string>)

  datatype DateRange = DateRange(from: string, to: string)

  datatype TitleTotal = TitleTotal(name: string, durationMinutes: int)

  /** A value in a stacked row: the bucket label or a number of minutes. */
  datatype Field = Label(key: string) | Minutes(value: int)

  /** One stacked row, a JavaScript object from property name to value. */
  type Row = map<string, Field>

  /** A `Record<string, number>` built by assignment: its property names in
      the order they were first assigned, and their values. */
  datatype Group = Group(titles: seq<string>, minutes: map<string, int>)

  datatype Insights =
    | PerTitle(dateRange: DateRange, data: seq<TitleTotal>)
    | PerTitleStacked(dateRange: DateRange, interval: Interval, rows: seq<Row>)

  /** The `where` clause of both metrics: the caller's rows with
      `start <= timestamp <= end` that meet the keyword search. */
  predicate Selected(a: Activity, userId: string, start: int, end: int, search: Option<string>) {
    a.userId == userId && start <= a.timestamp <= end && MatchesSearch(a, search)
  }

  function Matching(table: seq<Activity>, userId: string, start: int, end: int, search: Option<string>): (r: seq<Activity>)
    ensures forall i :: 0 <= i < |r| ==> r[i] in table && Selected(r[i], userId, start, end, search)
    ensures forall i :: 0 <= i < |table| && Selected(table[i], userId, start, end, search) ==> table[i] in r
  {
    Filter(table, (a: Activity) => Selected(a, userId, start, end, search))
  }

  /** `orderBy: { timestamp: 'asc' }`. */
  function OldestFirst(s: seq<Activity>): (r: seq<Activity>)
    ensures multiset(r) == multiset(s)
    ensures forall i, j :: 0 <= i < j < |r| ==> r[i].timestamp <= r[j].timestamp
  {
    SortDesc(s, (a: Activity) => -a.timestamp)
  }

  // ----- timePerTitle -----

  /** `_sum.duration` of the group of rows titled `t`. */
  function TitleMinutes(rows: seq<Activity>, t: string): int {
    Total(Select(rows, TitleOf, t), DurationOf)
  }

  /** Each title paired with its summed minutes. */
  function WithMinutes(rows: seq<Activity>, names: seq<string>): (r: seq<TitleTotal>)
    ensures |r| == |names|
    ensures forall i :: 0 <= i < |r| ==> r[i] == TitleTotal(names[i], TitleMinutes(rows, names[i]))
  {
    if names == [] then []
    else WithMinutes(rows, names[..|names| - 1]) + [TitleTotal(names[|names| - 1], TitleMinutes(rows, names[|names| - 1]))]
  }

  /** `groupBy: ['title']` with `_sum.duration`, ordered by the sum, largest
      first (equal sums in the order the titles are first met). */
  function RankedByMinutes(rows: seq<Activity>): (r: seq<string>)
    ensures multiset(r) == multiset(FirstOccurrences(Image(rows, TitleOf)))
    ensures forall i, j :: 0 <= i < j < |r| ==> TitleMinutes(rows, r[i]) >= TitleMinutes(rows, r[j])
  {
    SortDesc(FirstOccurrences(Image(rows, TitleOf)), (t: string) => TitleMinutes(rows, t))
  }

  /** getTimePerTitle's data: one entry per title, most minutes first. */
  function TimePerTitle(rows: seq<Activity>): (r: seq<TitleTotal>)
    ensures forall i :: 0 <= i < |r| ==> r[i].durationMinutes == TitleMinutes(rows, r[i].name)
    ensures forall i, j :: 0 <= i < j < |r| ==> r[i].durationMinutes >= r[j].durationMinutes
  {
    WithMinutes(rows, RankedByMinutes(rows))
  }

  function MinutesOf(e: TitleTotal): int {
    e.durationMinutes
  }

  /** The ranking lists every title of `rows` once, and nothing else. */
  lemma RankedByMinutesTitles(rows: seq<Activity>)
    ensures Distinct(RankedByMinutes(rows))
    ensures forall i :: 0 <= i < |RankedByMinutes(rows)| ==> HasTitle(rows, RankedByMinutes(rows)[i])
    ensures forall j :: 0 <= j < |rows| ==> rows[j].title in RankedByMinutes(rows)
  {
    var firsts := FirstOccurrences(Image(rows, TitleOf));
    var names := RankedByMinutes(rows);
    PermutationKeepsDistinct(firsts, names);
    PermutationMembers(firsts, names);
    forall i | 0 <= i < |names| ensures HasTitle(rows, names[i]) {
      assert names[i] in Image(rows, TitleOf);
      var j := ImageMember(rows, TitleOf, names[i]);
    }
    forall j | 0 <= j < |rows| ensures rows[j].title in names {
      assert Image(rows, TitleOf)[j] == rows[j].title;
      assert rows[j].title in firsts;
    }
  }

  lemma WithMinutesNames(rows: seq<Activity>, names: seq<string>)
    requires Distinct(names)
    requires forall i :: 0 <= i < |names| ==> HasTitle(rows, names[i])
    requires forall j :: 0 <= j < |rows| ==> rows[j].title in names
    ensures var r := WithMinutes(rows, names);
      && (forall i, j :: 0 <= i < j < |r| ==> r[i].name != r[j].name)
      && (forall i :: 0 <= i < |r| ==> HasTitle(rows, r[i].name))
      && (forall j :: 0 <= j < |rows| ==> exists i :: 0 <= i < |r| && r[i].name == rows[j].title)
  {
    var r := WithMinutes(rows, names);
    forall j | 0 <= j < |rows| ensures exists i :: 0 <= i < |r| && r[i].name == rows[j].title {
      var i :| 0 <= i < |names| && names[i] == rows[j].title;
      assert r[i].name == rows[j].title;
    }
  }

  /** Every title of `rows` gets exactly one entry, and only those titles do. */
  lemma TimePerTitleNames(rows: seq<Activity>)
    ensures var r := TimePerTitle(rows);
      && (forall i, j :: 0 <= i < j < |r| ==> r[i].name != r[j].name)
      && (forall i :: 0 <= i < |r| ==> HasTitle(rows, r[i].name))
      && (forall j :: 0 <= j < |rows| ==> exists i :: 0 <= i < |r| && r[i].name == rows[j].title)
  {
    RankedByMinutesTitles(rows);
    WithMinutesNames(rows, RankedByMinutes(rows));
  }

  lemma {:induction false} WithMinutesTotal(rows: seq<Activity>, names: seq<string>)
    ensures Total(WithMinutes(rows, names), MinutesOf) == TotalOver(rows, TitleOf, DurationOf, names)
  {
    if names != [] {
      var p := names[..|names| - 1];
      WithMinutesTotal(rows, p);
      var w := WithMinutes(rows, names);
      assert w[..|w| - 1] == WithMinutes(rows, p);
    }
  }

  /** No minute is lost or counted twice: the entries add up to the total
      duration of the rows. */
  lemma TimePerTitleConserves(rows: seq<Activity>)
    ensures Total(TimePerTitle(rows), MinutesOf) == Total(rows, DurationOf)
  {
    var firsts := FirstOccurrences(Image(rows, TitleOf));
    var names := RankedByMinutes(rows);
    PermutationKeepsDistinct(firsts, names);
    PermutationMembers(firsts, names);
    forall i | 0 <= i < |rows| ensures TitleOf(rows[i]) in names {
      assert Image(rows, TitleOf)[i] == TitleOf(rows[i]);
    }
    WithMinutesTotal(rows, names);
    TotalPartition(rows, TitleOf, DurationOf, names);
  }

  // ----- timePerTitleStacked -----

  /** getTimeKey, as a function of the row. */
  function BucketKey(interval: Interval, tz: int): Activity -> string {
    (a: Activity) => TimeKey(a.timestamp, interval, tz)
  }

  /** The keys of `groupedData`, in the order the Map received them. */
  function BucketKeys(acts: seq<Activity>, key: Activity -> string): seq<string> {
    FirstOccurrences(Image(acts, key))
  }

  /** `timeGroup[title] = (timeGroup[title] || 0) + duration`: a title not
      yet present starts from 0 and is appended to the property order. */
  function AddMinutes(g: Group, title: string, duration: int): (r: Group)
    ensures title in r.minutes
    ensures r.minutes[title] == (if title in g.minutes then g.minutes[title] else 0) + duration
    ensures forall t :: t != title ==> (t in r.minutes <==> t in g.minutes)
    ensures forall t :: t != title && t in g.minutes ==> r.minutes[t] == g.minutes[t]
  {
    var before := if title in g.minutes then g.minutes[title] else 0;
    Group(if title in g.minutes then g.titles else g.titles + [title], g.minutes[title := before + duration])
  }

  /** The group the scan leaves under key `k` after the rows `acts`, each row
      filed under `key` of it. */
  function GroupOf(acts: seq<Activity>, key: Activity -> string, k: string): (g: Group)
    ensures forall t :: t in g.titles ==> t in g.minutes
  {
    if acts == [] then Group([], map[])
    else
      var g := GroupOf(acts[..|acts| - 1], key, k);
      var a := acts[|acts| - 1];
      if key(a) == k then AddMinutes(g, a.title, a.duration) else g
  }

  /** The minutes of `t` once row `a` is added to bucket rows `b`. */
  lemma TitleMinutesSnoc(b: seq<Activity>, a: Activity, t: string)
    ensures TitleMinutes(b + [a], t) == TitleMinutes(b, t) + if a.title == t then a.duration else 0
  {
    SelectSnoc(b, a, TitleOf, t);
    if a.title == t {
      TotalSnoc(Select(b, TitleOf, t), a, DurationOf);
    } else {
      assert Select(b, TitleOf, t) + [] == Select(b, TitleOf, t);
    }
  }

  /** A title absent from the rows has no minutes. */
  lemma TitleMinutesAbsent(b: seq<Activity>, t: string)
    requires t !in Image(b, TitleOf)
    ensures TitleMinutes(b, t) == 0
  {
    forall i | 0 <= i < |b| ensures TitleOf(b[i]) != t {
      assert Image(b, TitleOf)[i] == TitleOf(b[i]);
    }
    SelectNone(b, TitleOf, t);
  }

  /** What a group holds: for the rows `b` of its bucket, their titles in the
      order first met, and for each exactly the sum of its minutes. */
  ghost predicate Summarises(g: Group, b: seq<Activity>) {
    && g.titles == FirstOccurrences(Image(b, TitleOf))
    && (forall t :: t in g.minutes <==> t in g.titles)
    && (forall t :: t in g.minutes ==> g.minutes[t] == TitleMinutes(b, t))
  }

  /** AddMinutes appends a title exactly when the bucket meets it first. */
  lemma AddMinutesTitles(g: Group, b: seq<Activity>, a: Activity)
    requires g.titles == FirstOccurrences(Image(b, TitleOf))
    requires a.title in g.minutes <==> a.title in g.titles
    ensures AddMinutes(g, a.title, a.duration).titles == FirstOccurrences(Image(b + [a], TitleOf))
  {
    ImageSnoc(b, a, TitleOf);
    FirstOccurrencesSnoc(Image(b, TitleOf), a.title);
    FirstOccurrencesIn(Image(b, TitleOf), a.title);
  }

  /** AddMinutes keeps the recorded titles and the listed titles the same. */
  lemma AddMinutesKeys(g: Group, a: Activity)
    requires forall t :: t in g.minutes <==> t in g.titles
    ensures var r := AddMinutes(g, a.title, a.duration);
      forall t :: t in r.minutes <==> t in r.titles
  {
  }

  /** AddMinutes adds the row's minutes to its own title's sum. */
  lemma AddMinutesSums(g: Group, b: seq<Activity>, a: Activity)
    requires forall t :: t in g.minutes ==> g.minutes[t] == TitleMinutes(b, t)
    requires a.title !in g.minutes ==> a.title !in Image(b, TitleOf)
    ensures var r := AddMinutes(g, a.title, a.duration);
      forall t :: t in r.minutes ==> r.minutes[t] == TitleMinutes(b + [a], t)
  {
    if a.title !in g.minutes {
      TitleMinutesAbsent(b, a.title);
    }
    forall t | t in AddMinutes(g, a.title, a.duration).minutes
      ensures AddMinutes(g, a.title, a.duration).minutes[t] == TitleMinutes(b + [a], t)
    {
      TitleMinutesSnoc(b, a, t);
    }
  }

  /** AddMinutes keeps a group summarising its bucket when the row joins it. */
  lemma AddMinutesSummarises(g: Group, b: seq<Activity>, a: Activity)
    requires Summarises(g, b)
    ensures Summarises(AddMinutes(g, a.title, a.duration), b + [a])
  {
    FirstOccurrencesIn(Image(b, TitleOf), a.title);
    AddMinutesTitles(g, b, a);
    AddMinutesKeys(g, a);
    AddMinutesSums(g, b, a);
  }

  /** The scan's group under `k` summarises the rows whose key is `k`. */
  lemma {:induction false} GroupOfSummarises(acts: seq<Activity>, key: Activity -> string, k: string)
    ensures Summarises(GroupOf(acts, key, k), Select(acts, key, k))
  {
    if acts != [] {
      var p, a := acts[..|acts| - 1], acts[|acts| - 1];
      assert acts == p + [a];
      GroupOfSummarises(p, key, k);
      SelectSnoc(p, a, key, k);
      if key(a) == k {
        AddMinutesSummarises(GroupOf(p, key, k), Select(p, key, k), a);
      } else {
        assert Select(p, key, k) + [] == Select(p, key, k);
      }
    }
  }

  /** One more row changes only the group of its own key. */
  lemma GroupOfSnoc(acts: seq<Activity>, a: Activity, key: Activity -> string, k: string)
    ensures GroupOf(acts + [a], key, k)
         == if key(a) == k then AddMinutes(GroupOf(acts, key, k), a.title, a.duration) else GroupOf(acts, key, k)
  {
    assert (acts + [a])[..|acts|] == acts;
  }

  /** A key the scan has not met has an empty group. */
  lemma {:induction false} GroupOfAbsent(acts: seq<Activity>, key: Activity -> string, k: string)
    requires k !in Image(acts, key)
    ensures GroupOf(acts, key, k) == Group([], map[])
  {
    if acts != [] {
      var p := acts[..|acts| - 1];
      ImageSnoc(p, acts[|acts| - 1], key);
      assert acts == p + [acts[|acts| - 1]];
      GroupOfAbsent(p, key, k);
    }
  }

  /** The forEach over the activities: builds `groupedData`, returned as its
      keys in insertion order and the group stored under each. */
  method GroupByBucket(acts: seq<Activity>, key: Activity -> string) returns (keys: seq<string>, groups: map<string, Group>)
    ensures keys == BucketKeys(acts, key)
    ensures forall k :: k in groups <==> k in keys
    ensures forall k :: k in groups ==> groups[k] == GroupOf(acts, key, k)
  {
    keys := [];
    groups := map[];
    for i := 0 to |acts|
      invariant keys == FirstOccurrences(Image(acts[..i], key))
      invariant forall k :: k in groups <==> k in keys
      invariant forall k :: k in groups ==> groups[k] == GroupOf(acts[..i], key, k)
    {
      var a := acts[i];
      var timeKey := key(a);
      ghost var seen := Image(acts[..i], key);
      PrefixSnoc(acts, i);
      assert acts[..i + 1] == acts[..i] + [a];
      ImageSnoc(acts[..i], a, key);
      FirstOccurrencesSnoc(seen, timeKey);
      FirstOccurrencesIn(seen, timeKey);
      var group := Group([], map[]);
      if timeKey in groups {
        group := groups[timeKey];
      } else {
        GroupOfAbsent(acts[..i], key, timeKey);
        keys := keys + [timeKey];
      }
      groups := groups[timeKey := AddMinutes(group, a.title, a.duration)];
      forall k | k in groups ensures groups[k] == GroupOf(acts[..i + 1], key, k) {
        GroupOfSnoc(acts[..i], a, key, k);
      }
    }
    assert acts[..|acts|] == acts;
  }

  /** The property that carries the bucket key. */
  function LabelName(interval: Interval): string {
    match interval
    case Daily => "date"
    case Weekly => "week"
    case Monthly => "month"
  }

  /** `entry` with each listed title set to its minutes, in list order. */
  function Fill(entry: Row, titles: seq<string>, minutes: map<string, int>): Row
    requires forall t :: t in titles ==> t in minutes
  {
    if titles == [] then entry
    else
      var t := titles[|titles| - 1];
      Fill(entry, titles[..|titles| - 1], minutes)[t := Minutes(minutes[t])]
  }

  /** The row for key `k`: the label first, then every title's minutes. */
  function Entry(k: string, g: Group, interval: Interval): Row
    requires forall t :: t in g.titles ==> t in g.minutes
  {
    Fill(map[LabelName(interval) := Label(k)], g.titles, g.minutes)
  }

  /** After the titles are written, a listed title holds its minutes and every
      other property keeps its earlier value. */
  lemma {:induction false} FillCells(entry: Row, titles: seq<string>, minutes: map<string, int>, t: string)
    requires forall u :: u in titles ==> u in minutes
    ensures t in Fill(entry, titles, minutes) <==> t in entry || t in titles
    ensures t in titles ==> Fill(entry, titles, minutes)[t] == Minutes(minutes[t])
    ensures t !in titles && t in entry ==> Fill(entry, titles, minutes)[t] == entry[t]
  {
    if titles != [] {
      var p := titles[..|titles| - 1];
      assert titles == p + [titles[|titles| - 1]];
      FillCells(entry, p, minutes, t);
    }
  }

  /** One row of `data`, built field by field. */
  method BuildEntry(k: string, g: Group, interval: Interval) returns (entry: Row)
    requires forall t :: t in g.titles ==> t in g.minutes
    ensures entry == Entry(k, g, interval)
  {
    entry := map[];
    match interval {
      case Daily => entry := entry["date" := Label(k)];
      case Weekly => entry := entry["week" := Label(k)];
      case Monthly => entry := entry["month" := Label(k)];
    }
    for j := 0 to |g.titles|
      invariant entry == Fill(map[LabelName(interval) := Label(k)], g.titles[..j], g.minutes)
    {
      var title := g.titles[j];
      assert g.titles[..j + 1][..j] == g.titles[..j];
      entry := entry[title := Minutes(g.minutes[title])];
    }
    assert g.titles[..|g.titles|] == g.titles;
  }

  /** `Array.from(groupedData.entries()).map(...)`: one row per key, in key order. */
  method ToRows(keys: seq<string>, groups: map<string, Group>, interval: Interval) returns (rows: seq<Row>)
    requires forall k :: k in keys ==> k in groups
    requires forall k :: k in groups ==> forall t :: t in groups[k].titles ==> t in groups[k].minutes
    ensures |rows| == |keys|
    ensures forall i :: 0 <= i < |keys| ==> rows[i] == Entry(keys[i], groups[keys[i]], interval)
  {
    rows := [];
    for i := 0 to |keys|
      invariant |rows| == i
      invariant forall j :: 0 <= j < i ==> rows[j] == Entry(keys[j], groups[keys[j]], interval)
    {
      var entry := BuildEntry(keys[i], groups[keys[i]], interval);
      rows := rows + [entry];
    }
  }

  /** The rows of the stacked metric for activities already in scan order,
      each filed under `key` of it and labelled after `interval`. */
  /** `rows` are the stacked rows of `acts`: one per key, in the order the
      keys are first met, each the entry of that key's group. */
  predicate StackedRowsOf(rows: seq<Row>, acts: seq<Activity>, key: Activity -> string, interval: Interval) {
    var keys := BucketKeys(acts, key);
    && |rows| == |keys|
    && forall i :: 0 <= i < |keys| ==> rows[i] == Entry(keys[i], GroupOf(acts, key, keys[i]), interval)
  }

  method StackedRows(acts: seq<Activity>, key: Activity -> string, interval: Interval) returns (rows: seq<Row>)
    ensures |rows| == |BucketKeys(acts, key)|
    ensures forall i :: 0 <= i < |rows| ==>
      var k := BucketKeys(acts, key)[i];
      rows[i] == Entry(k, GroupOf(acts, key, k), interval)
  {
    var keys, groups := GroupByBucket(acts, key);
    rows := ToRows(keys, groups, interval);
  }

  // ----- properties of the stacked rows -----

  /** Some row of `b` carries title `t` exactly when `t` is among their titles. */
  lemma HasTitleImage(b: seq<Activity>, t: string)
    ensures HasTitle(b, t) <==> t in Image(b, TitleOf)
  {
    if t in Image(b, TitleOf) {
      var j := ImageMember(b, TitleOf, t);
    }
    if HasTitle(b, t) {
      var j :| 0 <= j < |b| && b[j].title == t;
      assert Image(b, TitleOf)[j] == t;
    }
  }

  /** The cells of the row for key `k`: one per title met in the bucket,
      holding that title's summed minutes, and the label, which keeps the key
      unless a title with the label's own name overwrote it. */
  lemma StackedRowCells(acts: seq<Activity>, key: Activity -> string, interval: Interval, k: string, t: string)
    ensures var e := Entry(k, GroupOf(acts, key, k), interval);
      var b := Select(acts, key, k);
      && (t in e <==> t == LabelName(interval) || HasTitle(b, t))
      && (HasTitle(b, t) ==> e[t] == Minutes(TitleMinutes(b, t)))
      && (t == LabelName(interval) && !HasTitle(b, t) ==> e[t] == Label(k))
  {
    var g := GroupOf(acts, key, k);
    var b := Select(acts, key, k);
    GroupOfSummarises(acts, key, k);
    HasTitleImage(b, t);
    FirstOccurrencesIn(Image(b, TitleOf), t);
    FillCells(map[LabelName(interval) := Label(k)], g.titles, g.minutes, t);
  }

  /** One row per key met, no key twice, in the order the keys are first met;
      every activity lands in the row of its own key. */
  lemma StackedKeys(acts: seq<Activity>, key: Activity -> string)
    ensures Distinct(BucketKeys(acts, key))
    ensures InFirstMetOrder(Image(acts, key), BucketKeys(acts, key))
    ensures forall j :: 0 <= j < |acts| ==> key(acts[j]) in BucketKeys(acts, key)
  {
    FirstOccurrencesOrder(Image(acts, key));
    forall j | 0 <= j < |acts| ensures key(acts[j]) in BucketKeys(acts, key) {
      assert Image(acts, key)[j] == key(acts[j]);
    }
  }

  /** Two activities share a row exactly when they fall in the same day, the
      same week or the same month. */
  lemma SameRowSameBucket(a1: Activity, a2: Activity, interval: Interval, tz: int)
    ensures BucketKey(interval, tz)(a1) == BucketKey(interval, tz)(a2)
        <==> SameBucket(a1.timestamp, a2.timestamp, interval, tz)
  {
    TimeKeySameBucket(a1.timestamp, a2.timestamp, interval, tz);
  }

  /** The minutes a group holds, added up over its titles. */
  function GroupMinutes(titles: seq<string>, minutes: map<string, int>): int
    requires forall t :: t in titles ==> t in minutes
  {
    if titles == [] then 0
    else GroupMinutes(titles[..|titles| - 1], minutes) + minutes[titles[|titles| - 1]]
  }

  lemma {:induction false} GroupMinutesOver(titles: seq<string>, minutes: map<string, int>, b: seq<Activity>)
    requires forall t :: t in titles ==> t in minutes && minutes[t] == TitleMinutes(b, t)
    ensures GroupMinutes(titles, minutes) == TotalOver(b, TitleOf, DurationOf, titles)
  {
    if titles != [] {
      GroupMinutesOver(titles[..|titles| - 1], minutes, b);
    }
  }

  /** A group's minutes add up to the duration of its bucket's rows. */
  lemma GroupConserves(acts: seq<Activity>, key: Activity -> string, k: string)
    ensures var g := GroupOf(acts, key, k);
      GroupMinutes(g.titles, g.minutes) == Total(Select(acts, key, k), DurationOf)
  {
    var g := GroupOf(acts, key, k);
    var b := Select(acts, key, k);
    GroupOfSummarises(acts, key, k);
    GroupMinutesOver(g.titles, g.minutes, b);
    forall i | 0 <= i < |b| ensures TitleOf(b[i]) in g.titles {
      assert Image(b, TitleOf)[i] == TitleOf(b[i]);
    }
    TotalPartition(b, TitleOf, DurationOf, g.titles);
  }

  /** The minutes of the groups under the keys `ks`, added up. */
  function BucketMinutes(acts: seq<Activity>, key: Activity -> string, ks: seq<string>): int {
    if ks == [] then 0
    else
      var g := GroupOf(acts, key, ks[|ks| - 1]);
      BucketMinutes(acts, key, ks[..|ks| - 1]) + GroupMinutes(g.titles, g.minutes)
  }

  lemma {:induction false} BucketMinutesOver(acts: seq<Activity>, key: Activity -> string, ks: seq<string>)
    ensures BucketMinutes(acts, key, ks) == TotalOver(acts, key, DurationOf, ks)
  {
    if ks != [] {
      BucketMinutesOver(acts, key, ks[..|ks| - 1]);
      GroupConserves(acts, key, ks[|ks| - 1]);
    }
  }

  /** No minute is lost or counted twice: the groups of all buckets add up to
      the total duration of the activities. */
  lemma StackedConserves(acts: seq<Activity>, key: Activity -> string)
    ensures BucketMinutes(acts, key, BucketKeys(acts, key)) == Total(acts, DurationOf)
  {
    StackedKeys(acts, key);
    BucketMinutesOver(acts, key, BucketKeys(acts, key));
    TotalPartition(acts, key, DurationOf, BucketKeys(acts, key));
  }

  // ----- the service entry points -----

  /** getTimePerTitleStacked: the matching activities oldest first, grouped
      by bucket, one row per bucket. */
  method GetTimePerTitleStacked(table: seq<Activity>, userId: string, start: int, end: int,
                                interval: Interval, search: Option<string>, tz: int)
    returns (r: Insights)
    ensures r.PerTitleStacked?
    ensures r.dateRange == DateRange(IsoDatePart(start), IsoDatePart(end)) && r.interval == interval
    ensures StackedRowsOf(r.rows, OldestFirst(Matching(table, userId, start, end, search)), BucketKey(interval, tz), interval)
  {
    var acts := OldestFirst(Matching(table, userId, start, end, search));
    var rows := StackedRows(acts, BucketKey(interval, tz), interval);
    r := PerTitleStacked(DateRange(IsoDatePart(start), IsoDatePart(end)), interval, rows);
  }

  /** getInsights: a missing end is now, a missing start 30 days before now,
      a missing interval daily; any other metric is an error. */
  method GetInsights(table: seq<Activity>, userId: string, q: Query, now: int, tz: int)
    returns (r: Result<Insights, string>)
    ensures var start := if q.start.Some? then q.start.value else now - DefaultSpan;
      var end := if q.end.Some? then q.end.value else now;
      var rows := Matching(table, userId, start, end, q.search);
      var interval := if q.interval.Some? then q.interval.value else Daily;
      && (q.metric == TimePerTitleMetric ==>
            r == Success(PerTitle(DateRange(IsoDatePart(start), IsoDatePart(end)), TimePerTitle(rows))))
      && (q.metric == StackedMetric ==>
            && r.Success? && r.value.PerTitleStacked?
            && r.value.dateRange == DateRange(IsoDatePart(start), IsoDatePart(end))
            && r.value.interval == interval
            && StackedRowsOf(r.value.rows, OldestFirst(rows), BucketKey(interval, tz), interval))
      && (q.metric != TimePerTitleMetric && q.metric != StackedMetric ==> r == Failure(InvalidMetricMessage))
  {
    var end := if q.end.Some? then q.end.value else now;
    var start := if q.start.Some? then q.start.value else now - DefaultSpan;
    if q.metric == TimePerTitleMetric {
      var rows := Matching(table, userId, start, end, q.search);
      r := Success(PerTitle(DateRange(IsoDatePart(start), IsoDatePart(end)), TimePerTitle(rows)));
    } else if q.metric == StackedMetric {
      var interval := if q.interval.Some? then q.interval.value else Daily;
      var stacked := GetTimePerTitleStacked(table, userId, start, end, interval, q.search, tz);
      r := Success(stacked);
    } else {
      r := Failure(InvalidMetricMessage);
    }
  }
}
