/** The string operations the search filters rely on: JavaScript's `trim()`,
    `split(/\s+/)`, and the case-insensitive substring test the database
    performs for `contains` with `mode: 'insensitive'`. */
module Strings {

  /** The characters JavaScript's `\s` class and `trim()` treat as white space. */
  predicate IsSpace(c: char) {
    || c == ' ' || c == '\t' || c == '\n' || c == '\r' || c == '\U{000B}' || c == '\U{000C}'
    || c == '\U{00A0}' || c == '\U{1680}' || ('\U{2000}' <= c <= '\U{200A}')
    || c == '\U{2028}' || c == '\U{2029}' || c == '\U{202F}' || c == '\U{205F}'
    || c == '\U{3000}' || c == '\U{FEFF}'
  }

  predicate NoSpace(s: string) {
    forall i :: 0 <= i < |s| ==> !IsSpace(s[i])
  }

  /** Neither starts nor ends with white space. */
  predicate Trimmed(s: string) {
    s == [] || (!IsSpace(s[0]) && !IsSpace(s[|s| - 1]))
  }

  function TrimStart(s: string): (r: string)
    ensures |r| <= |s| && r == s[|s| - |r|..]
    ensures forall i :: 0 <= i < |s| - |r| ==> IsSpace(s[i])
    ensures r == [] || !IsSpace(r[0])
  {
    if s != [] && IsSpace(s[0]) then TrimStart(s[1..]) else s
  }

  function TrimEnd(s: string): (r: string)
    ensures |r| <= |s| && r == s[..|r|]
    ensures forall i :: |r| <= i < |s| ==> IsSpace(s[i])
    ensures r == [] || !IsSpace(r[|r| - 1])
  {
    if s != [] && IsSpace(s[|s| - 1]) then TrimEnd(s[..|s| - 1]) else s
  }

  /** `s.trim()`: the longest infix with no white space at either end. */
  function Trim(s: string): (r: string)
    ensures Trimmed(r)
    ensures NoSpace(s) ==> r == s
  {
    var t := TrimStart(s);
    var r := TrimEnd(t);
    assert r == [] || (r[0] == t[0] && !IsSpace(r[0]));
    r
  }

  /** Index of the first white-space character at or after `from`, or |s|. */
  function NextSpace(s: string, from: nat): (i: nat)
    requires from <= |s|
    ensures from <= i <= |s|
    ensures forall k :: from <= k < i ==> !IsSpace(s[k])
    ensures i < |s| ==> IsSpace(s[i])
    decreases |s| - from
  {
    if from == |s| || IsSpace(s[from]) then from else NextSpace(s, from + 1)
  }

  /** Index just past the run of white space that starts at `from`. */
  function SkipSpaces(s: string, from: nat): (j: nat)
    requires from <= |s|
    ensures from <= j <= |s|
    ensures forall k :: from <= k < j ==> IsSpace(s[k])
    ensures j < |s| ==> !IsSpace(s[j])
    decreases |s| - from
  {
    if from < |s| && IsSpace(s[from]) then SkipSpaces(s, from + 1) else from
  }

  /** `s.split(/\s+/)`: the pieces between maximal runs of white space. */
  function SplitOnSpaces(s: string): (r: seq<string>)
    ensures |r| >= 1
    ensures forall k :: 0 <= k < |r| ==> NoSpace(r[k])
    decreases |s|
  {
    var i := NextSpace(s, 0);
    if i == |s| then [s]
    else
      var j := SkipSpaces(s, i);
      [s[..i]] + SplitOnSpaces(s[j..])
  }

  /** The keywords of a search string: `search.trim().split(/\s+/)`. */
  function Keywords(search: string): (r: seq<string>)
    ensures |r| >= 1
  {
    SplitOnSpaces(Trim(search))
  }

  /** Splitting a trimmed, non-empty string yields non-empty pieces. */
  lemma {:induction false} SplitTrimmedPiecesNonEmpty(s: string)
    requires Trimmed(s) && s != []
    ensures forall k :: 0 <= k < |SplitOnSpaces(s)| ==> SplitOnSpaces(s)[k] != []
    decreases |s|
  {
    var i := NextSpace(s, 0);
    if i < |s| {
      var j := SkipSpaces(s, i);
      assert !IsSpace(s[|s| - 1]);
      assert j < |s|;
      var rest := s[j..];
      assert rest[0] == s[j] && rest[|rest| - 1] == s[|s| - 1];
      SplitTrimmedPiecesNonEmpty(rest);
      assert i > 0 by { assert !IsSpace(s[0]); }
    }
  }

  /** The keywords of a search: white-space free, and non-empty unless the
      search is blank, in which case the single keyword is the empty string. */
  lemma KeywordsShape(search: string)
    ensures forall k :: 0 <= k < |Keywords(search)| ==> NoSpace(Keywords(search)[k])
    ensures Trim(search) == [] <==> Keywords(search) == [[]]
    ensures Trim(search) != [] ==>
      forall k :: 0 <= k < |Keywords(search)| ==> Keywords(search)[k] != []
  {
    var t := Trim(search);
    if t != [] {
      SplitTrimmedPiecesNonEmpty(t);
      assert Keywords(search)[0] != [];
    } else {
      assert NextSpace(t, 0) == 0;
    }
  }

  function ToLowerChar(c: char): char {
    if 'A' <= c <= 'Z' then (c as int + 32) as char else c
  }

  function ToLower(s: string): (r: string)
    ensures |r| == |s|
    ensures forall i :: 0 <= i < |s| ==> r[i] == ToLowerChar(s[i])
  {
    seq(|s|, i requires 0 <= i < |s| => ToLowerChar(s[i]))
  }

  /** `needle` occurs somewhere in `hay` (scanning start positions left to right). */
  function Contains(hay: string, needle: string): bool
    decreases |hay|
  {
    needle <= hay || (hay != [] && Contains(hay[1..], needle))
  }

  /** The database's `contains` with `mode: 'insensitive'`. */
  predicate ContainsInsensitive(hay: string, needle: string) {
    Contains(ToLower(hay), ToLower(needle))
  }

  predicate OccursAt(hay: string, needle: string, i: int) {
    0 <= i && i + |needle| <= |hay| && hay[i..i + |needle|] == needle
  }

  lemma {:induction false} ContainsOccurs(hay: string, needle: string)
    requires Contains(hay, needle)
    ensures exists i :: OccursAt(hay, needle, i)
    decreases |hay|
  {
    if needle <= hay {
      assert OccursAt(hay, needle, 0);
    } else {
      ContainsOccurs(hay[1..], needle);
      var i :| OccursAt(hay[1..], needle, i);
      assert hay[1..][i..i + |needle|] == hay[i + 1..i + 1 + |needle|];
      assert OccursAt(hay, needle, i + 1);
    }
  }

  lemma {:induction false} OccursContains(hay: string, needle: string, i: int)
    requires OccursAt(hay, needle, i)
    ensures Contains(hay, needle)
    decreases i
  {
    if i == 0 {
      assert needle <= hay;
    } else {
      assert hay[1..][i - 1..i - 1 + |needle|] == hay[i..i + |needle|];
      OccursContains(hay[1..], needle, i - 1);
    }
  }

  /** The scanning definition of Contains agrees with the positional one. */
  lemma ContainsIff(hay: string, needle: string)
    ensures Contains(hay, needle) <==> exists i :: OccursAt(hay, needle, i)
  {
    if Contains(hay, needle) {
      ContainsOccurs(hay, needle);
    }
    if exists i :: OccursAt(hay, needle, i) {
      var i :| OccursAt(hay, needle, i);
      OccursContains(hay, needle, i);
    }
  }

  /** The empty needle occurs in every string. */
  lemma ContainsEmpty(hay: string)
    ensures ContainsInsensitive(hay, [])
  {
    assert ToLower([]) == [];
  }
}
