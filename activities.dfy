/** The activity service: the ownership check, create / update / remove on the
    activity table, and the read queries (paged keyword search, today's
    activities, title suggestions). The table is an in-memory sequence of
    rows; each query's `where` clause is an explicit predicate and each
    `orderBy` a stable sort. */
module Activities {
  import opened Wrappers
  import opened Strings
  import opened Decimal
  import opened Collections
  import opened Civil
  import opened Timestamps
  import opened ActivityRecords

  datatype HttpError = NotFound(message: string) | Forbidden(message: string)

  /** The create request: `title`, optional `description`, `duration`,
      optional `timestamp` (already read as milliseconds). */
  datatype NewActivity = NewActivity(
    title: string,
    description: Option<string>,
    duration: int,
    timestamp: Option<int>)

  /** The update request. `None` stands for a property that is `undefined`;
      a description may also be explicitly `null` (`Some(None)`). */
  datatype ActivityPatch = ActivityPatch(
    title: Option<string>,
    description: Option<Option<string>>,
    duration: Option<int>,
    timestamp: Option<int>)

  datatype Deleted = Deleted(message: string, id: string)

  datatype Page = Page(activities: seq<Activity>, total: nat)

  datatype Suggestion = Suggestion(title: string, count: nat)

  const NotFoundMessage := "Activity not found"
  const ForbiddenMessage := "Access denied"
  const DeletedMessage := "Activity deleted successfully"

  /** Most-used titles returned by getActivitySuggestions (`take: 10`). */
  const SuggestionLimit := 10

  predicate HasId(table: seq<Activity>, id: string) {
    exists i :: 0 <= i < |table| && table[i].id == id
  }

  predicate UniqueIds(table: seq<Activity>) {
    forall i, j :: 0 <= i < j < |table| ==> table[i].id != table[j].id
  }

  /** Position of the row with key `id` (`findUnique({ where: { id } })`). */
  function RowOf(table: seq<Activity>, id: string): (k: nat)
    requires HasId(table, id)
    ensures k < |table| && table[k].id == id
    ensures forall j :: 0 <= j < k ==> table[j].id != id
  {
    if table[0].id == id then 0
    else
      assert HasId(table[1..], id) by {
        var i :| 0 <= i < |table| && table[i].id == id;
        assert table[1..][i - 1].id == id;
      }
      1 + RowOf(table[1..], id)
  }

  /** findOne: NotFound when no row has the id, Forbidden when the row belongs
      to someone else, otherwise the row itself. */
  function FindOne(table: seq<Activity>, id: string, userId: string): (r: Result<Activity, HttpError>)
    ensures !HasId(table, id) <==> r == Failure(NotFound(NotFoundMessage))
    ensures HasId(table, id) && table[RowOf(table, id)].userId != userId
            <==> r == Failure(Forbidden(ForbiddenMessage))
    ensures r.Success? <==> HasId(table, id) && table[RowOf(table, id)].userId == userId
    ensures r.Success? ==> r.value in table && r.value.id == id && r.value.userId == userId
  {
    if !HasId(table, id) then Failure(NotFound(NotFoundMessage))
    else
      var a := table[RowOf(table, id)];
      if a.userId != userId then Failure(Forbidden(ForbiddenMessage)) else Success(a)
  }

  /** The row an update request leaves behind: each property that is present
      replaces its column, the others keep their value. */
  function ApplyPatch(a: Activity, p: ActivityPatch): Activity {
    a.(
      title := if p.title.Some? then p.title.value else a.title,
      description := if p.description.Some? then p.description.value else a.description,
      duration := if p.duration.Some? then p.duration.value else a.duration,
      timestamp := if p.timestamp.Some? then p.timestamp.value else a.timestamp)
  }

  /** The patch that performs `p` and then `q`. */
  function ThenPatch(p: ActivityPatch, q: ActivityPatch): ActivityPatch {
    ActivityPatch(
      if q.title.Some? then q.title else p.title,
      if q.description.Some? then q.description else p.description,
      if q.duration.Some? then q.duration else p.duration,
      if q.timestamp.Some? then q.timestamp else p.timestamp)
  }

  /** A patch keeps the row's identity and owner, applying it twice is the same
      as applying it once, an empty patch changes nothing, and two patches in a
      row are one merged patch. */
  lemma PatchLaws(a: Activity, p: ActivityPatch, q: ActivityPatch)
    ensures ApplyPatch(a, p).id == a.id && ApplyPatch(a, p).userId == a.userId
    ensures ApplyPatch(ApplyPatch(a, p), p) == ApplyPatch(a, p)
    ensures ApplyPatch(a, ActivityPatch(None, None, None, None)) == a
    ensures ApplyPatch(ApplyPatch(a, p), q) == ApplyPatch(a, ThenPatch(p, q))
  {
  }

  /** Stand-in for the database's generated primary key: distinct numbers give
      distinct ids. */
  function IdFor(n: nat): string {
    "act-" + NatToString(n)
  }

  lemma IdForInjective(m: nat, n: nat)
    requires IdFor(m) == IdFor(n)
    ensures m == n
  {
    assert IdFor(m)[4..] == NatToString(m);
    assert IdFor(n)[4..] == NatToString(n);
    NatRoundTrip(m);
    NatRoundTrip(n);
  }

  /** Rewriting one row without touching its id keeps every id in place, so
      the row is found at the same position. */
  lemma ReplaceKeepsIds(table: seq<Activity>, k: nat, row: Activity)
    requires k < |table| && row.id == table[k].id
    ensures forall j :: 0 <= j < |table| ==> table[k := row][j].id == table[j].id
    ensures UniqueIds(table) ==> UniqueIds(table[k := row])
    ensures UniqueIds(table) ==> RowOf(table, row.id) == k && RowOf(table[k := row], row.id) == k
  {
    var t := table[k := row];
    assert forall j :: 0 <= j < |table| ==> t[j].id == table[j].id;
    assert HasId(table, row.id) && HasId(t, row.id);
  }

  /** The activity table, which create, update and remove change in place. */
  class ActivityStore {
    var rows: seq<Activity>
    var nextSeq: nat

    /** Ids are unique, and none uses a number the generator has still to hand out. */
    ghost predicate Valid()
      reads this
    {
      && UniqueIds(rows)
      && forall i, n :: 0 <= i < |rows| && nextSeq <= n ==> rows[i].id != IdFor(n)
    }

    constructor ()
      ensures Valid() && rows == []
    {
      rows := [];
      nextSeq := 0;
    }

    /** create: stores a new row owned by the caller, stamped with the given
        timestamp or, when there is none, with `now`. */
    method Create(userId: string, input: NewActivity, now: int) returns (a: Activity)
      requires Valid()
      requires input.duration >= 1
      modifies this
      ensures Valid()
      ensures rows == old(rows) + [a]
      ensures !HasId(old(rows), a.id)
      ensures a.userId == userId && a.title == input.title
      ensures a.description == input.description && a.duration == input.duration
      ensures a.timestamp == if input.timestamp.Some? then input.timestamp.value else now
    {
      var id := IdFor(nextSeq);
      var timestamp := if input.timestamp.Some? then input.timestamp.value else now;
      a := Activity(id, input.title, input.description, input.duration, timestamp, userId);
      forall n: nat | nextSeq + 1 <= n ensures id != IdFor(n) {
        if id == IdFor(n) { IdForInjective(nextSeq, n); }
      }
      rows := rows + [a];
      nextSeq := nextSeq + 1;
    }

    /** update: runs the ownership check first; on success writes exactly the
        properties the request carries into that one row. */
    method Update(id: string, userId: string, patch: ActivityPatch) returns (r: Result<Activity, HttpError>)
      requires Valid()
      modifies this
      ensures Valid()
      ensures r.Failure? <==> FindOne(old(rows), id, userId).Failure?
      ensures r.Failure? ==> r == FindOne(old(rows), id, userId) && rows == old(rows)
      ensures r.Success? ==>
        var k := RowOf(old(rows), id);
        && rows == old(rows)[k := ApplyPatch(old(rows)[k], patch)]
        && r.value == rows[k]
        && FindOne(rows, id, userId) == r
    {
      var check := FindOne(rows, id, userId);
      if check.Failure? {
        return check;
      }
      var k := RowOf(rows, id);
      var row := rows[k];
      if patch.title.Some? {
        row := row.(title := patch.title.value);
      }
      if patch.description.Some? {
        row := row.(description := patch.description.value);
      }
      if patch.duration.Some? {
        row := row.(duration := patch.duration.value);
      }
      if patch.timestamp.Some? {
        row := row.(timestamp := patch.timestamp.value);
      }
      ReplaceKeepsIds(rows, k, row);
      rows := rows[k := row];
      r := Success(row);
    }

    /** remove: runs the ownership check first; on success deletes that one row
        and reports its id. */
    method Remove(id: string, userId: string) returns (r: Result<Deleted, HttpError>)
      requires Valid()
      modifies this
      ensures Valid()
      ensures r.Failure? <==> FindOne(old(rows), id, userId).Failure?
      ensures r.Failure? ==> r.error == FindOne(old(rows), id, userId).error && rows == old(rows)
      ensures r.Success? ==>
        var k := RowOf(old(rows), id);
        && rows == old(rows)[..k] + old(rows)[k + 1..]
        && r.value == Deleted(DeletedMessage, id)
        && FindOne(rows, id, userId) == Failure(NotFound(NotFoundMessage))
    {
      var check := FindOne(rows, id, userId);
      if check.Failure? {
        return Failure(check.error);
      }
      var k := RowOf(rows, id);
      ghost var before := rows;
      rows := rows[..k] + rows[k + 1..];
      assert forall j :: 0 <= j < |rows| ==> rows[j] == if j < k then before[j] else before[j + 1];
      r := Success(Deleted(DeletedMessage, id));
    }
  }

  /** The rows of `userId` that meet the keyword search. */
  function UserMatches(table: seq<Activity>, userId: string, search: Option<string>): (r: seq<Activity>)
    ensures forall i :: 0 <= i < |r| ==> r[i] in table && r[i].userId == userId && MatchesSearch(r[i], search)
    ensures forall i :: 0 <= i < |table| ==>
      (table[i].userId == userId && MatchesSearch(table[i], search)) ==> table[i] in r
  {
    Filter(table, (a: Activity) => a.userId == userId && MatchesSearch(a, search))
  }

  /** `orderBy: { timestamp: 'desc' }`. */
  function NewestFirst(s: seq<Activity>): (r: seq<Activity>)
    ensures multiset(r) == multiset(s) && |r| == |s|
    ensures forall i :: 0 <= i < |r| ==> r[i] in s
    ensures forall i :: 0 <= i < |s| ==> s[i] in r
    ensures forall i, j :: 0 <= i < j < |r| ==> r[i].timestamp >= r[j].timestamp
  {
    var r := SortDesc(s, (a: Activity) => a.timestamp);
    PermutationMembers(s, r);
    r
  }

  /** findAll: the page of the caller's matching rows, newest first, after
      skipping `offset` and taking at most `limit`; `total` counts every match. */
  function FindAll(table: seq<Activity>, userId: string, search: Option<string>, limit: nat, offset: nat): (r: Page)
    ensures r.total == |UserMatches(table, userId, search)|
    ensures |r.activities| == if offset >= r.total then 0
                              else if offset + limit <= r.total then limit
                              else r.total - offset
    ensures forall i :: 0 <= i < |r.activities| ==>
      r.activities[i] == NewestFirst(UserMatches(table, userId, search))[offset + i]
  {
    var all := NewestFirst(UserMatches(table, userId, search));
    Page(Window(all, offset, limit), |all|)
  }

  /** Every row of a page is one of the caller's rows meeting the search, and
      the page runs newest first. */
  lemma FindAllRows(table: seq<Activity>, userId: string, search: Option<string>, limit: nat, offset: nat)
    ensures var page := FindAll(table, userId, search, limit, offset).activities;
      && (forall i :: 0 <= i < |page| ==>
            page[i] in table && page[i].userId == userId && MatchesSearch(page[i], search))
      && (forall i, j :: 0 <= i < j < |page| ==> page[i].timestamp >= page[j].timestamp)
  {
    var all := NewestFirst(UserMatches(table, userId, search));
    var page := FindAll(table, userId, search, limit, offset).activities;
    assert forall i :: 0 <= i < |page| ==> page[i] == all[offset + i];
  }

  /** The defaults the service applies when the caller gives no paging: the
      first 50 matches, newest first. */
  function FindAllDefault(table: seq<Activity>, userId: string, search: Option<string>, limit: Option<nat>, offset: Option<nat>): (r: Page)
    ensures |r.activities| <= (if limit.Some? then limit.value else 50)
    ensures r.total >= |r.activities|
    ensures limit.None? && offset.None? ==> |r.activities| == if r.total <= 50 then r.total else 50
    ensures offset.None? ==> r.activities <= NewestFirst(UserMatches(table, userId, search))
  {
    var l := if limit.Some? then limit.value else 50;
    var o := if offset.Some? then offset.value else 0;
    var r := FindAll(table, userId, search, l, o);
    assert offset.None? ==> r.activities == NewestFirst(UserMatches(table, userId, search))[..|r.activities|];
    r
  }

  /** The rows of `userId` inside [from, to). */
  function RowsBetween(table: seq<Activity>, userId: string, from: int, to: int): seq<Activity> {
    Filter(table, (a: Activity) => a.userId == userId && from <= a.timestamp < to)
  }

  /** getTodayActivities: the caller's rows from local midnight (inclusive) to
      the next midnight (exclusive), newest first. */
  function TodayActivities(table: seq<Activity>, userId: string, now: int, tz: int): (r: seq<Activity>)
    ensures forall i :: 0 <= i < |r| ==>
      && r[i] in table && r[i].userId == userId
      && LocalMidnight(now, tz) <= r[i].timestamp < LocalMidnight(now, tz) + DayMs
    ensures forall i :: 0 <= i < |table| ==>
      (table[i].userId == userId
       && LocalMidnight(now, tz) <= table[i].timestamp < LocalMidnight(now, tz) + DayMs) ==> table[i] in r
    ensures forall i, j :: 0 <= i < j < |r| ==> r[i].timestamp >= r[j].timestamp
  {
    var today := LocalMidnight(now, tz);
    NewestFirst(RowsBetween(table, userId, today, today + DayMs))
  }

  /** The window [midnight, next midnight) is exactly the local calendar day of `now`. */
  lemma TodayIsLocalDay(t: int, now: int, tz: int)
    ensures LocalMidnight(now, tz) <= t < LocalMidnight(now, tz) + DayMs
            <==> LocalDay(t, tz) == LocalDay(now, tz)
  {
    var m := LocalMidnight(now, tz);
    var z := LocalDay(now, tz);
    assert m + tz == z * DayMs;
    if m <= t < m + DayMs {
      assert z * DayMs <= t + tz < z * DayMs + DayMs;
    }
  }

  /** Number of rows with title `t`. */
  function TitleCount(rows: seq<Activity>, t: string): nat {
    if rows == [] then 0
    else TitleCount(rows[..|rows| - 1], t) + if rows[|rows| - 1].title == t then 1 else 0
  }

  /** A title that occurs is counted at least once. */
  lemma {:induction false} CountPositive(rows: seq<Activity>, t: string)
    requires HasTitle(rows, t)
    ensures TitleCount(rows, t) >= 1
  {
    var q := rows[..|rows| - 1];
    if rows[|rows| - 1].title != t {
      var j :| 0 <= j < |rows| && rows[j].title == t;
      assert q[j].title == t;
      CountPositive(q, t);
    }
  }

  /** The title filter of getActivitySuggestions (`if (query)`: only a
      non-empty query filters). */
  predicate TitleMatchesQuery(title: string, query: Option<string>) {
    query.None? || query.value == [] || ContainsInsensitive(title, query.value)
  }

  /** All rows of `userId`. */
  function Mine(table: seq<Activity>, userId: string): seq<Activity> {
    Filter(table, (a: Activity) => a.userId == userId)
  }

  /** The rows getActivitySuggestions groups: the caller's, with a title
      matching the query. */
  function Candidates(table: seq<Activity>, userId: string, query: Option<string>): seq<Activity> {
    Filter(table, (a: Activity) => a.userId == userId && TitleMatchesQuery(a.title, query))
  }

  lemma TitleCountSnoc(rows: seq<Activity>, x: Activity, t: string)
    ensures TitleCount(rows + [x], t) == TitleCount(rows, t) + if x.title == t then 1 else 0
  {
    assert (rows + [x])[..|rows|] == rows;
  }

  /** The query filters on the title alone, so for a title that matches it the
      group's count is the caller's full count of that title. */
  lemma {:induction false} CountUnderTitleFilter(table: seq<Activity>, userId: string, query: Option<string>, t: string)
    requires TitleMatchesQuery(t, query)
    ensures TitleCount(Candidates(table, userId, query), t) == TitleCount(Mine(table, userId), t)
  {
    if table != [] {
      var q := table[..|table| - 1];
      var x := table[|table| - 1];
      CountUnderTitleFilter(q, userId, query, t);
      if x.userId == userId {
        TitleCountSnoc(Mine(q, userId), x, t);
        if TitleMatchesQuery(x.title, query) {
          TitleCountSnoc(Candidates(q, userId, query), x, t);
        }
      }
    }
  }

  /** A candidate title matches the query and is counted alike among the
      candidates and among all the caller's rows. */
  lemma CandidateTitle(table: seq<Activity>, userId: string, query: Option<string>, t: string)
    requires HasTitle(Candidates(table, userId, query), t)
    ensures TitleMatchesQuery(t, query)
    ensures TitleCount(Candidates(table, userId, query), t) == TitleCount(Mine(table, userId), t) >= 1
  {
    var rows := Candidates(table, userId, query);
    var j :| 0 <= j < |rows| && rows[j].title == t;
    CountUnderTitleFilter(table, userId, query, t);
    CountPositive(rows, t);
  }

  function Titles(rows: seq<Activity>): (r: seq<string>)
    ensures |r| == |rows|
    ensures forall i :: 0 <= i < |rows| ==> r[i] == rows[i].title
  {
    seq(|rows|, i requires 0 <= i < |rows| => rows[i].title)
  }

  /** `groupBy: ['title']` ordered by `_count.title` desc: every title once,
      most frequent first. */
  function RankedTitles(rows: seq<Activity>): (r: seq<string>)
    ensures Distinct(r)
    ensures forall i, j :: 0 <= i < j < |r| ==> TitleCount(rows, r[i]) >= TitleCount(rows, r[j])
    ensures forall i :: 0 <= i < |r| ==> HasTitle(rows, r[i])
    ensures forall j :: 0 <= j < |rows| ==> rows[j].title in r
  {
    var titles := FirstOccurrences(Titles(rows));
    var r := SortDesc(titles, (t: string) => TitleCount(rows, t));
    PermutationKeepsDistinct(titles, r);
    PermutationMembers(titles, r);
    TitlesOccur(rows, r);
    r
  }

  /** The members of a list drawn from the titles of `rows` occur as titles. */
  lemma TitlesOccur(rows: seq<Activity>, r: seq<string>)
    requires forall i :: 0 <= i < |r| ==> r[i] in FirstOccurrences(Titles(rows))
    ensures forall i :: 0 <= i < |r| ==> HasTitle(rows, r[i])
  {
    forall i | 0 <= i < |r| ensures HasTitle(rows, r[i]) {
      assert r[i] in Titles(rows);
      var j :| 0 <= j < |rows| && Titles(rows)[j] == r[i];
    }
  }

  /** `take: 10` of the ranking. */
  function TopTitles(rows: seq<Activity>): (r: seq<string>)
    ensures |r| == if |RankedTitles(rows)| <= SuggestionLimit then |RankedTitles(rows)| else SuggestionLimit
    ensures forall i :: 0 <= i < |r| ==> r[i] == RankedTitles(rows)[i]
  {
    Window(RankedTitles(rows), 0, SuggestionLimit)
  }

  /** The ten keep the ranking's order and its distinctness. */
  lemma TopTitlesRanked(rows: seq<Activity>)
    ensures |TopTitles(rows)| <= SuggestionLimit
    ensures Distinct(TopTitles(rows))
    ensures forall i, j :: 0 <= i < j < |TopTitles(rows)| ==>
      TitleCount(rows, TopTitles(rows)[i]) >= TitleCount(rows, TopTitles(rows)[j])
    ensures forall i :: 0 <= i < |TopTitles(rows)| ==> HasTitle(rows, TopTitles(rows)[i])
  {
  }

  /** A title of `rows` that did not make the ten occurs no more often than
      each of them, and there were ten. */
  lemma TopTitlesOmission(rows: seq<Activity>, j: int)
    requires 0 <= j < |rows| && rows[j].title !in TopTitles(rows)
    ensures |TopTitles(rows)| == SuggestionLimit
    ensures forall k :: 0 <= k < |TopTitles(rows)| ==>
      TitleCount(rows, TopTitles(rows)[k]) >= TitleCount(rows, rows[j].title)
  {
    var ranked := RankedTitles(rows);
    var p :| 0 <= p < |ranked| && ranked[p] == rows[j].title;
  }

  /** Each title paired with its number of rows. */
  function Counted(rows: seq<Activity>, titles: seq<string>): (r: seq<Suggestion>)
    ensures |r| == |titles|
    ensures forall i :: 0 <= i < |r| ==> r[i].title == titles[i] && r[i].count == TitleCount(rows, titles[i])
  {
    seq(|titles|, i requires 0 <= i < |titles| => Suggestion(titles[i], TitleCount(rows, titles[i])))
  }

  /** getActivitySuggestions: the caller's titles (matching the query, if any)
      with their number of rows, most used first, at most ten. */
  function Suggestions(table: seq<Activity>, userId: string, query: Option<string>): (r: seq<Suggestion>)
    ensures |r| == |TopTitles(Candidates(table, userId, query))|
    ensures forall i :: 0 <= i < |r| ==>
      && r[i].title == TopTitles(Candidates(table, userId, query))[i]
      && r[i].count == TitleCount(Mine(table, userId), r[i].title)
      && r[i].count >= 1
      && TitleMatchesQuery(r[i].title, query)
  {
    var rows := Candidates(table, userId, query);
    var top := TopTitles(rows);
    TopTitlesRanked(rows);
    forall i | 0 <= i < |top|
      ensures TitleCount(rows, top[i]) == TitleCount(Mine(table, userId), top[i]) >= 1
      ensures TitleMatchesQuery(top[i], query)
    {
      CandidateTitle(table, userId, query, top[i]);
    }
    Counted(rows, top)
  }

  /** At most ten suggestions, no title twice, most used first. */
  lemma SuggestionsRanked(table: seq<Activity>, userId: string, query: Option<string>)
    ensures |Suggestions(table, userId, query)| <= SuggestionLimit
    ensures var r := Suggestions(table, userId, query);
      forall i, j :: 0 <= i < j < |r| ==> r[i].title != r[j].title && r[i].count >= r[j].count
  {
    var rows := Candidates(table, userId, query);
    var top := TopTitles(rows);
    var r := Suggestions(table, userId, query);
    TopTitlesRanked(rows);
    forall i, j | 0 <= i < j < |r| ensures r[i].title != r[j].title && r[i].count >= r[j].count {
      CountUnderTitleFilter(table, userId, query, top[i]);
      CountUnderTitleFilter(table, userId, query, top[j]);
      CandidateTitle(table, userId, query, top[i]);
      CandidateTitle(table, userId, query, top[j]);
    }
  }

  /** A title of the caller's that matches the query but is not suggested is
      used no more often than each suggested title, and ten were suggested. */
  lemma SuggestionsOmitNoneMoreUsed(table: seq<Activity>, userId: string, query: Option<string>, i: int)
    requires 0 <= i < |table| && table[i].userId == userId && TitleMatchesQuery(table[i].title, query)
    requires forall k :: 0 <= k < |Suggestions(table, userId, query)| ==>
      Suggestions(table, userId, query)[k].title != table[i].title
    ensures |Suggestions(table, userId, query)| == SuggestionLimit
    ensures forall k :: 0 <= k < SuggestionLimit ==>
      Suggestions(table, userId, query)[k].count >= TitleCount(Mine(table, userId), table[i].title)
  {
    var rows := Candidates(table, userId, query);
    var top := TopTitles(rows);
    var r := Suggestions(table, userId, query);
    var a := table[i];
    var j := CandidateIndex(table, userId, query, i);
    assert a.title !in top by {
      forall k | 0 <= k < |top| ensures top[k] != a.title {
        assert r[k].title == top[k];
      }
    }
    TopTitlesOmission(rows, j);
    CountUnderTitleFilter(table, userId, query, a.title);
    forall k | 0 <= k < |top|
      ensures r[k].count >= TitleCount(Mine(table, userId), a.title)
    {
      CountUnderTitleFilter(table, userId, query, top[k]);
    }
  }

  /** A row of the caller's whose title matches the query is one of the candidates. */
  lemma CandidateIndex(table: seq<Activity>, userId: string, query: Option<string>, i: int) returns (j: int)
    requires 0 <= i < |table| && table[i].userId == userId && TitleMatchesQuery(table[i].title, query)
    ensures 0 <= j < |Candidates(table, userId, query)| && Candidates(table, userId, query)[j].title == table[i].title
  {
    var rows := Candidates(table, userId, query);
    assert table[i] in rows;
    j :| 0 <= j < |rows| && rows[j] == table[i];
  }
}
