/** The activity row both backend services read, and the keyword filter they
    build for the database: every keyword of the trimmed search must occur,
    case-insensitively, in the title or in the description. */
module ActivityRecords {
  import opened Wrappers
  import opened Strings

  /** One row of the activity table; `timestamp` in milliseconds since the
      epoch, `duration` in minutes. */
  datatype Activity = Activity(
    id: string,
    title: string,
    description: Option<string>,
    duration: int,
    timestamp: int,
    userId: string)

  function TitleOf(a: Activity): string {
    a.title
  }

  function DurationOf(a: Activity): int {
    a.duration
  }

  /** Some row carries title `t`. */
  predicate HasTitle(rows: seq<Activity>, t: string) {
    exists j :: 0 <= j < |rows| && rows[j].title == t
  }

  /** The condition built for one keyword:
      `{ OR: [ { title: { contains } }, { description: { contains } } ] }`.
      A missing description contains nothing. */
  predicate MatchesKeyword(a: Activity, keyword: string) {
    || ContainsInsensitive(a.title, keyword)
    || (a.description.Some? && ContainsInsensitive(a.description.value, keyword))
  }

  /** `if (search) where.AND = keywords.map(...)`: an absent or empty search
      adds no condition; otherwise every keyword's condition must hold. */
  predicate MatchesSearch(a: Activity, search: Option<string>) {
    match search
    case None => true
    case Some(s) =>
      s == [] || forall k :: 0 <= k < |Keywords(s)| ==> MatchesKeyword(a, Keywords(s)[k])
  }

  /** A search made only of white space still adds a condition, on the one
      empty keyword, and every row meets it. */
  lemma BlankSearchMatchesAll(a: Activity, s: string)
    requires Trim(s) == []
    ensures MatchesSearch(a, Some(s))
  {
    KeywordsShape(s);
    ContainsEmpty(a.title);
  }

  lemma TrimOfTrimmed(s: string)
    requires Trimmed(s)
    ensures Trim(s) == s
  {
    assert TrimStart(s) == s;
  }

  /** The keywords of two white-space-free words joined by a space are
      exactly those two words. */
  lemma KeywordsOfTwoWords(w1: string, w2: string)
    requires w1 != [] && w2 != [] && NoSpace(w1) && NoSpace(w2)
    ensures Keywords(w1 + " " + w2) == [w1, w2]
  {
    var s := w1 + " " + w2;
    TrimOfTrimmed(s);
    var i := NextSpace(s, 0);
    assert forall k :: 0 <= k < |w1| ==> s[k] == w1[k];
    assert IsSpace(s[|w1|]);
    assert i == |w1|;
    var j := SkipSpaces(s, i);
    assert s[|w1| + 1] == w2[0];
    assert j == |w1| + 1;
    assert s[..i] == w1 && s[j..] == w2;
    assert NextSpace(w2, 0) == |w2|;
    assert SplitOnSpaces(w2) == [w2];
    assert SplitOnSpaces(s) == [w1] + SplitOnSpaces(w2);
  }

  /** Searching for "alpha beta" is the conjunction of searching for each word,
      each of which may be found in the title or in the description. */
  lemma TwoWordSearch(a: Activity, w1: string, w2: string)
    requires w1 != [] && w2 != [] && NoSpace(w1) && NoSpace(w2)
    ensures MatchesSearch(a, Some(w1 + " " + w2)) <==> MatchesKeyword(a, w1) && MatchesKeyword(a, w2)
  {
    KeywordsOfTwoWords(w1, w2);
    var ks := Keywords(w1 + " " + w2);
    assert ks[0] == w1 && ks[1] == w2 && |ks| == 2;
  }
}
