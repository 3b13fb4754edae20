/** The byte-string value type `string` of string.hpp: slicing with
    wrapped positions, searching, splitting, case conversion, placeholder
    formatting and strict integer parsing. Text is a `seq<char>` holding
    one `char` per byte. */
module StringValue {
  import opened Results
  import Sequence
  import Decimal

  // ---------------------------------------------------------------------------
  // Occurrences of a pattern

  /** `pat` occurs in `s` starting at position `i`. */
  predicate OccursAt(s: string, pat: string, i: int) {
    0 <= i && i + |pat| <= |s| && s[i..i + |pat|] == pat
  }

  /** `pat` occurs somewhere in `s`. */
  ghost predicate ContainsPattern(s: string, pat: string) {
    exists i :: OccursAt(s, pat, i)
  }

  /** `std::string::find(pat, from)`: an occurrence of `pat` at or after
      `from`, or -1 (standing for `npos`); `FindFromFirst` adds that it is the
      first one. */
  function FindFrom(s: string, pat: string, from: nat): (r: int)
    ensures r == -1 || (from <= r && OccursAt(s, pat, r))
    decreases |s| - from
  {
    if from + |pat| > |s| then -1
    else if s[from..from + |pat|] == pat then
      assert OccursAt(s, pat, from);
      from
    else FindFrom(s, pat, from + 1)
  }

  /** `find` misses nothing: there is no occurrence from `from` up to the
      position found, nor anywhere from `from` on when it gives `npos`. */
  lemma {:induction false} FindFromFirst(s: string, pat: string, from: nat)
    ensures var r := FindFrom(s, pat, from);
            forall i :: from <= i && (r == -1 || i < r) ==> !OccursAt(s, pat, i)
    decreases |s| - from
  {
    if from + |pat| <= |s| && s[from..from + |pat|] != pat {
      FindFromFirst(s, pat, from + 1);
    }
  }

  /** `std::string::rfind(pat)` searching downwards from `from`: the last
      occurrence of `pat` at or before `from`, or -1. */
  function FindLastUpTo(s: string, pat: string, from: int): (r: int)
    ensures r == -1 || (r <= from && OccursAt(s, pat, r))
    ensures forall i :: i <= from && r < i ==> !OccursAt(s, pat, i)
    decreases from
  {
    if from < 0 then -1
    else if OccursAt(s, pat, from) then
      assert OccursAt(s, pat, from);
      from
    else FindLastUpTo(s, pat, from - 1)
  }

  /** A search from `from` only looks at the text from `from` on. */
  lemma OccursShift(s: string, pat: string, from: nat, i: nat)
    requires from <= |s|
    ensures OccursAt(s[from..], pat, i) <==> OccursAt(s, pat, from + i)
  {
    if 0 <= i && i + |pat| <= |s| - from {
      assert s[from..][i..i + |pat|] == s[from + i..from + i + |pat|];
    }
  }

  /** An occurrence inside a prefix is an occurrence in the whole text. */
  lemma OccursInPrefix(s: string, pat: string, k: nat, i: int)
    requires k <= |s| && OccursAt(s[..k], pat, i)
    ensures OccursAt(s, pat, i)
  {
    assert s[..k][i..i + |pat|] == s[i..i + |pat|];
  }

  // ---------------------------------------------------------------------------
  // split

  /** The segments between the occurrences of `sep`, all kept. */
  function SplitAtChar(s: string, sep: char): (r: seq<string>)
    ensures |r| == multiset(s)[sep] + 1
    ensures forall i :: 0 <= i < |r| ==> sep !in r[i]
    ensures Sequence.JoinParts(r, [sep]) == s
  {
    if sep !in s then
      assert multiset(s)[sep] == 0;
      [s]
    else
      var i := Sequence.FirstIndex(s, sep);
      var rest := SplitAtChar(s[i + 1..], sep);
      assert s == s[..i] + [sep] + s[i + 1..];
      assert multiset(s) == multiset(s[..i]) + multiset{sep} + multiset(s[i + 1..]);
      Sequence.JoinPartsCons(s[..i], rest, [sep]);
      var r := [s[..i]] + rest;
      assert forall k :: 1 <= k < |r| ==> r[k] == rest[k - 1];
      r
  }

  /** The segments `split` keeps when empty ones are not inserted. */
  predicate NonEmpty(e: string) {
    e != []
  }

  /** `split(char sep, insert_empty_elements)`: the segments between the
      occurrences of `sep`; with `insertEmpty` there is one more segment than
      occurrences and joining them with `sep` gives the text back, otherwise
      the empty segments are dropped and the rest keep their order. */
  function SplitByChar(s: string, sep: char, insertEmpty: bool): (r: seq<string>)
    ensures forall i :: 0 <= i < |r| ==> sep !in r[i]
    ensures insertEmpty ==> |r| == multiset(s)[sep] + 1 && Sequence.JoinParts(r, [sep]) == s
    ensures !insertEmpty ==> (forall i :: 0 <= i < |r| ==> r[i] != [])
    ensures !insertEmpty ==> r == Sequence.Filter(NonEmpty, SplitAtChar(s, sep))
  {
    var all := SplitAtChar(s, sep);
    if insertEmpty then all
    else
      var r := Sequence.Filter(NonEmpty, all);
      assert forall e :: e in r ==> multiset(r)[e] > 0;
      r
  }

  /** Splitting undoes joining, when no part holds the separator. */
  lemma {:induction false} SplitJoinRoundTrip(parts: seq<string>, sep: char)
    requires |parts| >= 1
    requires forall i :: 0 <= i < |parts| ==> sep !in parts[i]
    ensures SplitByChar(Sequence.JoinParts(parts, [sep]), sep, true) == parts
  {
    if |parts| == 1 {
      assert Sequence.JoinParts(parts, [sep]) == parts[0];
    } else {
      var rest := parts[1..];
      assert parts == [parts[0]] + rest;
      Sequence.JoinPartsCons(parts[0], rest, [sep]);
      var s := Sequence.JoinParts(parts, [sep]);
      var t := Sequence.JoinParts(rest, [sep]);
      assert s == parts[0] + [sep] + t;
      SplitJoinRoundTrip(rest, sep);
      assert s[|parts[0]|] == sep;
      assert s[..|parts[0]|] == parts[0];
      var i := Sequence.FirstIndex(s, sep);
      FirstIndexAfter(parts[0], sep, t);
      assert s[i + 1..] == t;
    }
  }

  /** The first `x` after a prefix free of `x` is the one right after it. */
  lemma {:induction false} FirstIndexAfter<T>(a: seq<T>, x: T, b: seq<T>)
    requires x !in a
    ensures Sequence.FirstIndex(a + [x] + b, x) == |a|
  {
    if a != [] {
      assert (a + [x] + b)[1..] == a[1..] + [x] + b;
      FirstIndexAfter(a[1..], x, b);
    }
  }

  /** The segments between the leftmost non-overlapping occurrences of `sep`,
      all kept. */
  function SplitAtPattern(s: string, sep: string): (r: seq<string>)
    requires |sep| > 0
    ensures |r| == Occurrences(s, sep) + 1
    ensures forall i :: 0 <= i < |r| ==> !ContainsPattern(r[i], sep)
    ensures Sequence.JoinParts(r, sep) == s
    decreases |s|
  {
    var p := FindFrom(s, sep, 0);
    FindFromFirst(s, sep, 0);
    if p == -1 then
      assert !ContainsPattern(s, sep);
      [s]
    else
      var rest := SplitAtPattern(s[p + |sep|..], sep);
      assert s == s[..p] + sep + s[p + |sep|..];
      Sequence.JoinPartsCons(s[..p], rest, sep);
      assert !ContainsPattern(s[..p], sep) by {
        forall i | OccursAt(s[..p], sep, i)
          ensures false
        {
          OccursInPrefix(s, sep, p, i);
        }
      }
      var r := [s[..p]] + rest;
      assert forall k :: 1 <= k < |r| ==> r[k] == rest[k - 1];
      r
  }

  /** No occurrence of `sep` starts inside a segment (other than the last)
      and runs on into the separator that follows it. */
  ghost predicate LeftmostSegments(r: seq<string>, sep: string)
    requires |sep| > 0
  {
    forall i :: 0 <= i < |r| - 1 ==> !ContainsPattern(r[i] + sep[..|sep| - 1], sep)
  }

  /** The split is the leftmost one: each separator taken out is the first
      occurrence from the end of the one before. */
  lemma {:induction false} SplitAtPatternLeftmost(s: string, sep: string)
    requires |sep| > 0
    ensures LeftmostSegments(SplitAtPattern(s, sep), sep)
    decreases |s|
  {
    var r := SplitAtPattern(s, sep);
    var p := FindFrom(s, sep, 0);
    if p != -1 {
      var rest := SplitAtPattern(s[p + |sep|..], sep);
      assert r == [s[..p]] + rest;
      SplitAtPatternLeftmost(s[p + |sep|..], sep);
      FindFromFirst(s, sep, 0);
      var k := p + |sep| - 1;
      assert s[..p] + sep[..|sep| - 1] == s[..k];
      forall j | OccursAt(s[..k], sep, j)
        ensures false
      {
        OccursInPrefix(s, sep, k, j);
      }
      forall i | 1 <= i < |r| - 1
        ensures !ContainsPattern(r[i] + sep[..|sep| - 1], sep)
      {
        assert r[i] == rest[i - 1];
      }
    }
  }

  /** The number of leftmost non-overlapping occurrences of `pat`. */
  function Occurrences(s: string, pat: string): nat
    requires |pat| > 0
    decreases |s|
  {
    var p := FindFrom(s, pat, 0);
    if p == -1 then 0 else 1 + Occurrences(s[p + |pat|..], pat)
  }

  /** `split(const std::string &sep, insert_empty_elements)`: as the `char`
      version, with the leftmost non-overlapping occurrences of `sep`
      (`SplitByStringLeftmost`). The source loops forever on an empty `sep`
      and a non-empty text. */
  function SplitByString(s: string, sep: string, insertEmpty: bool): (r: seq<string>)
    requires |sep| > 0
    ensures forall i :: 0 <= i < |r| ==> !ContainsPattern(r[i], sep)
    ensures insertEmpty ==> |r| == Occurrences(s, sep) + 1 && Sequence.JoinParts(r, sep) == s
    ensures !insertEmpty ==> (forall i :: 0 <= i < |r| ==> r[i] != [])
    ensures !insertEmpty ==> r == Sequence.Filter(NonEmpty, SplitAtPattern(s, sep))
  {
    var all := SplitAtPattern(s, sep);
    if insertEmpty then all
    else
      var r := Sequence.Filter(NonEmpty, all);
      assert forall e :: e in r ==> multiset(r)[e] > 0;
      r
  }

  /** With empty segments kept, `split(sep)` takes out the leftmost
      occurrences of `sep`. */
  lemma SplitByStringLeftmost(s: string, sep: string)
    requires |sep| > 0
    ensures LeftmostSegments(SplitByString(s, sep, true), sep)
  {
    SplitAtPatternLeftmost(s, sep);
  }

  /** "aaa" on "aa" gives "" and "a", not "a" and "". */
  lemma SplitOverlapExample()
    ensures SplitByString("aaa", "aa", true) == ["", "a"]
  {
    var t := "aaa";
    assert t[0..2] == "aa";
    assert FindFrom(t, "aa", 0) == 0;
    assert t[2..] == "a";
    assert FindFrom("a", "aa", 0) == -1;
    assert t[..0] == "";
  }

  // ---------------------------------------------------------------------------
  // lower, upper

  /** `::tolower` in the "C" locale: only 'A'..'Z' change. */
  function ToLowerChar(c: char): char {
    if 'A' <= c <= 'Z' then (c as int + 32) as char else c
  }

  /** `::toupper` in the "C" locale: only 'a'..'z' change. */
  function ToUpperChar(c: char): char {
    if 'a' <= c <= 'z' then (c as int - 32) as char else c
  }

  /** `lower()`: the same length, each byte converted on its own. */
  function Lower(s: string): (r: string)
    ensures |r| == |s|
    ensures forall i :: 0 <= i < |s| ==> r[i] == ToLowerChar(s[i])
  {
    if s == [] then [] else [ToLowerChar(s[0])] + Lower(s[1..])
  }

  /** `upper()`: the same length, each byte converted on its own. */
  function Upper(s: string): (r: string)
    ensures |r| == |s|
    ensures forall i :: 0 <= i < |s| ==> r[i] == ToUpperChar(s[i])
  {
    if s == [] then [] else [ToUpperChar(s[0])] + Upper(s[1..])
  }

  /** Case conversion is idempotent and the last conversion wins. */
  lemma CaseConversions(s: string)
    ensures Lower(Lower(s)) == Lower(s)
    ensures Upper(Upper(s)) == Upper(s)
    ensures Lower(Upper(s)) == Lower(s)
    ensures Upper(Lower(s)) == Upper(s)
  {
  }

  // ---------------------------------------------------------------------------
  // startswith, endswith, contains

  /** `startswith(x)`: `x` is a prefix of the text. */
  function StartsWith(s: string, x: string): (r: bool)
    ensures r <==> OccursAt(s, x, 0)
  {
    if |s| < |x| then false else s[..|x|] == x
  }

  /** `endswith(x)`: `x` is a suffix of the text. */
  function EndsWith(s: string, x: string): (r: bool)
    ensures r <==> OccursAt(s, x, |s| - |x|)
  {
    if |s| < |x| then false else s[|s| - |x|..] == x
  }

  /** The prefix and suffix tests agree with concatenation: an empty needle
      always matches and a needle longer than the text never does. */
  lemma PrefixSuffixLaws(a: string, b: string, s: string, x: string)
    ensures StartsWith(a + b, a) && EndsWith(a + b, b)
    ensures StartsWith(s, "") && EndsWith(s, "")
    ensures |x| > |s| ==> !StartsWith(s, x) && !EndsWith(s, x)
  {
    assert (a + b)[..|a|] == a;
    assert (a + b)[|a + b| - |b|..] == b;
  }

  /** `contains(x)`: `x` occurs somewhere in the text. */
  function Contains(s: string, x: string): (r: bool)
    ensures r <==> ContainsPattern(s, x)
  {
    FindFromFirst(s, x, 0);
    FindFrom(s, x, 0) != -1
  }

  // ---------------------------------------------------------------------------
  // replace

  /** The loop of `replace`. Its state is the text `ret` and the position
      `pos` to search from; writing `ret` as `done + rest` with
      `pos == |done|`, a round finds `orig` at `q` in `rest`, rewrites it to
      `with` and moves `pos` past the inserted text, so `done` grows by
      `rest[..q] + with` and `rest` loses `rest[..q + |orig|]`. */
  function ReplaceRest(done: string, rest: string, orig: string, with: string): string
    requires |orig| > 0
    decreases |rest|
  {
    var q := FindFrom(rest, orig, 0);
    if q == -1 then done + rest
    else ReplaceRest(done + rest[..q] + with, rest[q + |orig|..], orig, with)
  }

  /** `replace(orig, with)`: every leftmost non-overlapping occurrence of
      `orig` is replaced, and the search goes on after the inserted text, so
      the result is the text split at `orig` and joined with `with`. The
      source loops forever on an empty `orig`. */
  function Replace(s: string, orig: string, with: string): (r: string)
    requires |orig| > 0
    ensures r == Sequence.JoinParts(SplitByString(s, orig, true), with)
    ensures !ContainsPattern(s, orig) ==> r == s
  {
    ReplaceRestSplits([], s, orig, with);
    ReplaceRest([], s, orig, with)
  }

  /** Scanning `rest` keeps `done` and rewrites `rest` as splitting it at
      `orig` and joining with `with`. */
  lemma {:induction false} ReplaceRestSplits(done: string, rest: string, orig: string, with: string)
    requires |orig| > 0
    ensures ReplaceRest(done, rest, orig, with) == done + Sequence.JoinParts(SplitAtPattern(rest, orig), with)
    decreases |rest|
  {
    var q := FindFrom(rest, orig, 0);
    if q == -1 {
      SplitAtPatternNone(rest, orig);
    } else {
      var head := rest[..q];
      var tail := rest[q + |orig|..];
      var joined := Sequence.JoinParts(SplitAtPattern(tail, orig), with);
      ReplaceRestStep(done, rest, orig, with, q, head, tail);
      ReplaceRestSplits(done + head + with, tail, orig, with);
      SplitAtPatternStep(rest, orig, with, q, head, tail);
      AppendAssoc(done, head + with, joined);
    }
  }

  lemma ReplaceRestStep(done: string, rest: string, orig: string, with: string, q: int, head: string, tail: string)
    requires |orig| > 0 && q == FindFrom(rest, orig, 0) && q != -1
    requires head == rest[..q] && tail == rest[q + |orig|..]
    ensures ReplaceRest(done, rest, orig, with) == ReplaceRest(done + head + with, tail, orig, with)
  {
  }

  lemma SplitAtPatternNone(rest: string, orig: string)
    requires |orig| > 0 && FindFrom(rest, orig, 0) == -1
    ensures SplitAtPattern(rest, orig) == [rest]
  {
  }

  /** Splitting at the first occurrence and joining with `with` puts `with` there. */
  lemma SplitAtPatternStep(rest: string, orig: string, with: string, q: int, head: string, tail: string)
    requires |orig| > 0 && q == FindFrom(rest, orig, 0) && q != -1
    requires head == rest[..q] && tail == rest[q + |orig|..]
    ensures Sequence.JoinParts(SplitAtPattern(rest, orig), with)
            == head + with + Sequence.JoinParts(SplitAtPattern(tail, orig), with)
  {
    var parts := SplitAtPattern(tail, orig);
    assert SplitAtPattern(rest, orig) == [head] + parts;
    Sequence.JoinPartsCons(head, parts, with);
  }

  lemma AppendAssoc(a: string, b: string, c: string)
    ensures a + b + c == a + (b + c)
  {
  }

  // ---------------------------------------------------------------------------
  // strip

  predicate IsStripSpace(c: char) {
    c == ' ' || c == '\n' || c == '\t'
  }

  /** `find_first_not_of(" \n\t")`, or -1 for `npos`. */
  function FirstNonSpace(s: string, from: nat): (r: int)
    ensures r == -1 <==> forall i :: from <= i < |s| ==> IsStripSpace(s[i])
    ensures r != -1 ==> from <= r < |s| && !IsStripSpace(s[r])
    ensures r != -1 ==> forall i :: from <= i < r ==> IsStripSpace(s[i])
    decreases |s| - from
  {
    if from >= |s| then -1
    else if !IsStripSpace(s[from]) then from
    else FirstNonSpace(s, from + 1)
  }

  /** `find_last_not_of(" \n\t")`, or -1 for `npos`. */
  function LastNonSpace(s: string, upTo: int): (r: int)
    requires upTo < |s|
    ensures r == -1 <==> forall i :: 0 <= i <= upTo ==> IsStripSpace(s[i])
    ensures r != -1 ==> 0 <= r <= upTo && !IsStripSpace(s[r])
    ensures r != -1 ==> forall i :: r < i <= upTo ==> IsStripSpace(s[i])
    decreases upTo
  {
    if upTo < 0 then -1
    else if !IsStripSpace(s[upTo]) then upTo
    else LastNonSpace(s, upTo - 1)
  }

  /** `strip()`: the contiguous middle of the text with no leading or trailing
      space, newline or tab, and only such bytes cut away; `npos` converts to
      -1 as a start and wraps to 0 as `end + 1`, so a text of such bytes only
      gives "". */
  function Strip(s: string): (r: string)
    ensures exists i, j ::
      && 0 <= i <= j <= |s| && r == s[i..j]
      && (forall k :: 0 <= k < i ==> IsStripSpace(s[k]))
      && (forall k :: j <= k < |s| ==> IsStripSpace(s[k]))
    ensures r != [] ==> !IsStripSpace(r[0]) && !IsStripSpace(r[|r| - 1])
    ensures (forall k :: 0 <= k < |s| ==> IsStripSpace(s[k])) <==> r == []
  {
    var begin := FirstNonSpace(s, 0);
    var last := LastNonSpace(s, |s| - 1);
    var end := if last == -1 then 0 else last + 1;
    if begin == -1 then
      var r := Slice(s, -1, end);
      assert r == s[0..0];
      StripResult(s, 0, 0);
      r
    else
      assert begin <= last;
      var r := Slice(s, begin, end);
      assert r == s[begin..end];
      StripResult(s, begin, end);
      r
  }

  /** The middle `s[i..j]`, bounded by non-space bytes or empty, is what `strip` promises. */
  lemma StripResult(s: string, i: nat, j: nat)
    requires i <= j <= |s|
    requires forall k :: 0 <= k < i ==> IsStripSpace(s[k])
    requires forall k :: j <= k < |s| ==> IsStripSpace(s[k])
    requires i < j ==> !IsStripSpace(s[i]) && !IsStripSpace(s[j - 1])
    requires i == j ==> forall k :: 0 <= k < |s| ==> IsStripSpace(s[k])
    ensures var r := s[i..j];
            (exists i', j' ::
              && 0 <= i' <= j' <= |s| && r == s[i'..j']
              && (forall k :: 0 <= k < i' ==> IsStripSpace(s[k]))
              && (forall k :: j' <= k < |s| ==> IsStripSpace(s[k])))
            && (r != [] ==> !IsStripSpace(r[0]) && !IsStripSpace(r[|r| - 1]))
            && ((forall k :: 0 <= k < |s| ==> IsStripSpace(s[k])) <==> r == [])
  {
    if i < j {
      assert s[i..j][0] == s[i] && s[i..j][j - i - 1] == s[j - 1];
    }
    assert 0 <= i <= j <= |s| && s[i..j] == s[i..j]
      && (forall k :: 0 <= k < i ==> IsStripSpace(s[k]))
      && (forall k :: j <= k < |s| ==> IsStripSpace(s[k]));
  }

  // ---------------------------------------------------------------------------
  // index, rindex

  /** `index(c)`: the first position holding `c`, or -1. */
  function IndexOfChar(s: string, c: char): (r: int)
    ensures r == -1 <==> c !in s
    ensures r != -1 ==> 0 <= r < |s| && s[r] == c && c !in s[..r]
  {
    if c in s then Sequence.FirstIndex(s, c) else -1
  }

  /** `index(pat)`: the first position where `pat` starts, or -1. */
  function IndexOf(s: string, pat: string): (r: int)
    ensures r == -1 <==> !ContainsPattern(s, pat)
    ensures r != -1 ==> OccursAt(s, pat, r) && forall i :: 0 <= i < r ==> !OccursAt(s, pat, i)
  {
    FindFromFirst(s, pat, 0);
    FindFrom(s, pat, 0)
  }

  /** `index(c, start, end)`: the first position in the wrapped range holding
      `c`; when there is none, the slice-relative -1 plus the wrapped start. */
  function IndexOfCharIn(s: string, c: char, start: int, end: int): (r: int)
    ensures var a := Sequence.WrapPosition(start, |s|);
            var b := Sequence.WrapPosition(end, |s|);
            if a <= b && c in s[a..b]
            then a <= r < b && s[r] == c && c !in s[a..r]
            else r == a - 1
  {
    var a := Sequence.WrapPosition(start, |s|);
    var b := Sequence.WrapPosition(end, |s|);
    var r := IndexOfChar(Slice(s, a, b), c) + a;
    if a <= b && r >= a then
      assert s[a..b][..r - a] == s[a..r];
      r
    else r
  }

  /** `index(pat, start, end)`: the first occurrence of `pat` inside the
      wrapped range, as an absolute position; when there is none, the wrapped
      start minus one. */
  function IndexOfIn(s: string, pat: string, start: int, end: int): (r: int)
    ensures var a := Sequence.WrapPosition(start, |s|);
            var t := Slice(s, start, end);
            if ContainsPattern(t, pat)
            then OccursAt(t, pat, r - a) && (forall i :: 0 <= i < r - a ==> !OccursAt(t, pat, i))
            else r == a - 1
    ensures var a := Sequence.WrapPosition(start, |s|);
            var b := Sequence.WrapPosition(end, |s|);
            a <= b && ContainsPattern(s[a..b], pat) ==> OccursAt(s, pat, r)
  {
    var a := Sequence.WrapPosition(start, |s|);
    var b := Sequence.WrapPosition(end, |s|);
    var i := IndexOf(Slice(s, a, b), pat);
    assert Slice(s, a, b) == Slice(s, start, end);
    if a <= b then
      assert Slice(s, a, b) == s[a..b];
      OccursInRange(s, pat, a, b, i);
      i + a
    else i + a
  }

  /** An occurrence inside `s[a..b]` is an occurrence in `s`. */
  lemma OccursInRange(s: string, pat: string, a: nat, b: nat, i: int)
    requires a <= b <= |s|
    ensures OccursAt(s[a..b], pat, i) ==> OccursAt(s, pat, a + i)
  {
    if OccursAt(s[a..b], pat, i) {
      assert s[..b][a..] == s[a..b];
      OccursShift(s[..b], pat, a, i);
      OccursInPrefix(s, pat, b, a + i);
    }
  }

  /** `rindex(c)`: the last position holding `c`, or -1. */
  function LastIndexOfChar(s: string, c: char): (r: int)
    ensures r == -1 <==> c !in s
    ensures r != -1 ==> 0 <= r < |s| && s[r] == c && c !in s[r + 1..]
  {
    var r := FindLastUpTo(s, [c], |s| - 1);
    if r == -1 then
      forall i | 0 <= i < |s|
        ensures s[i] != c
      {
        assert s[i..i + 1] == [s[i]] && !OccursAt(s, [c], i);
      }
      r
    else
      assert s[r..r + 1] == [s[r]];
      assert forall i :: r < i < |s| ==> s[i..i + 1] == [s[i]] && !OccursAt(s, [c], i);
      r
  }

  /** `rindex(pat)`: the last position where `pat` starts, or -1 (an empty
      `pat` is found at the end of the text). */
  function LastIndexOf(s: string, pat: string): (r: int)
    ensures r == -1 <==> !ContainsPattern(s, pat)
    ensures r != -1 ==> OccursAt(s, pat, r) && forall i :: r < i ==> !OccursAt(s, pat, i)
  {
    FindLastUpTo(s, pat, |s| - |pat|)
  }

  /** The byte at position `i` for `i <= size`: reading position `size` of a
      constant `std::string` gives the terminating '\0'. */
  function ByteAt(s: string, i: nat): char
    requires i <= |s|
  {
    if i < |s| then s[i] else '\0'
  }

  /** `rindex(c, start, end)`: scans down from the wrapped `end` itself (so
      position `size` is read as '\0') to the wrapped start, and returns the
      first match met, or -1. */
  function LastIndexOfCharIn(s: string, c: char, start: int, end: int): (r: int)
    ensures var a := Sequence.WrapPosition(start, |s|);
            var b := Sequence.WrapPosition(end, |s|);
            && (r == -1 <==> forall i :: a <= i <= b ==> ByteAt(s, i) != c)
            && (r != -1 ==> a <= r <= b && ByteAt(s, r) == c)
            && (r != -1 ==> forall i :: r < i <= b ==> ByteAt(s, i) != c)
  {
    var a := Sequence.WrapPosition(start, |s|);
    var b := Sequence.WrapPosition(end, |s|);
    ScanDown(s, c, a, b)
  }

  function ScanDown(s: string, c: char, a: nat, i: int): (r: int)
    requires i <= |s|
    ensures r == -1 <==> forall k :: a <= k <= i ==> ByteAt(s, k) != c
    ensures r != -1 ==> a <= r <= i && ByteAt(s, r) == c
    ensures r != -1 ==> forall k :: r < k <= i ==> ByteAt(s, k) != c
    decreases i
  {
    if i < a then -1
    else if ByteAt(s, i) == c then i
    else ScanDown(s, c, a, i - 1)
  }

  /** `rindex(pat, start, end)`: the last occurrence of `pat` inside the
      wrapped range, as a position relative to the range start, or -1. */
  function LastIndexOfIn(s: string, pat: string, start: int, end: int): (r: int)
    ensures var t := Slice(s, start, end);
            (r == -1 <==> !ContainsPattern(t, pat))
            && (r != -1 ==> OccursAt(t, pat, r) && forall i :: r < i ==> !OccursAt(t, pat, i))
  {
    LastIndexOf(Slice(s, start, end), pat)
  }

  // ---------------------------------------------------------------------------
  // slice

  /** `slice(start, end)`: both bounds wrapped into `[0, size]`; the bytes in
      between, or "" when the wrapped end is before the wrapped start. */
  function Slice(s: string, start: int, end: int): (r: string)
    ensures var a := Sequence.WrapPosition(start, |s|);
            var b := Sequence.WrapPosition(end, |s|);
            if b < a then r == [] else |r| == b - a && forall i :: 0 <= i < |r| ==> r[i] == s[a + i]
  {
    var a := Sequence.WrapPosition(start, |s|);
    var b := Sequence.WrapPosition(end, |s|);
    if b < a then []
    else if a == 0 && b == |s| then s
    else s[a..b]
  }

  /** `slice(start)`, with `end` at its default. */
  function SliceFrom(s: string, start: int): (r: string)
    requires |s| <= Sequence.SsizeMax
    ensures r == s[Sequence.WrapPosition(start, |s|)..]
  {
    Slice(s, start, Sequence.SsizeMax)
  }

  // ---------------------------------------------------------------------------
  // format

  datatype FormatError =
    | RequireMoreArguments  // `invalid_format_require_more_arguments`
    | TooManyArguments      // `invalid_format_too_many_arguments`

  /** The placeholder `format` replaces. */
  const Placeholder: string := "{}"

  /** The parts of the format interleaved with the arguments:
      `parts[0] + args[0] + parts[1] + ... + args[k-1] + parts[k]`. */
  function Interleave(parts: seq<string>, args: seq<string>): string
    requires |parts| == |args| + 1
  {
    if args == [] then parts[0] else parts[0] + args[0] + Interleave(parts[1..], args[1..])
  }

  /** The loop of `format` from part `n` on, with the text `acc` built so far. */
  function FormatLoop(parts: seq<string>, args: seq<string>, n: nat, acc: string): Result<string, FormatError>
    requires n <= |parts|
    decreases |parts| - n
  {
    if n == |parts| then
      if n <= |args| then Failure(TooManyArguments) else Success(acc)
    else
      var acc := acc + parts[n];
      if n < |args| then FormatLoop(parts, args, n + 1, acc + args[n])
      else if n > |args| then Failure(RequireMoreArguments)
      else FormatLoop(parts, args, n + 1, acc)
  }

  /** `format(args)`: succeeds exactly when there are as many `{}` as
      arguments, and then puts the arguments in their places left to right;
      too few arguments and too many raise different exceptions. */
  function Format(fmt: string, args: seq<string>): (r: Result<string, FormatError>)
    ensures r.Success? <==> Occurrences(fmt, Placeholder) == |args|
    ensures r == Failure(RequireMoreArguments) <==> Occurrences(fmt, Placeholder) > |args|
    ensures r == Failure(TooManyArguments) <==> Occurrences(fmt, Placeholder) < |args|
    ensures r.Success? ==> r.value == Interleave(SplitByString(fmt, Placeholder, true), args)
  {
    var parts := SplitByString(fmt, Placeholder, true);
    FormatLoopSpec(parts, args, 0, []);
    assert parts[0..] == parts && args[0..] == args;
    FormatLoop(parts, args, 0, [])
  }

  lemma {:induction false} FormatLoopSpec(parts: seq<string>, args: seq<string>, n: nat, acc: string)
    requires n <= |parts| && n <= |args| + 1
    ensures |parts| - 1 < |args| ==> FormatLoop(parts, args, n, acc) == Failure(TooManyArguments)
    ensures |parts| - 1 > |args| ==> FormatLoop(parts, args, n, acc) == Failure(RequireMoreArguments)
    ensures |parts| - 1 == |args| && n < |parts| ==>
      FormatLoop(parts, args, n, acc) == Success(acc + Interleave(parts[n..], args[n..]))
    decreases |parts| - n
  {
    if n < |parts| {
      var acc1 := acc + parts[n];
      if n < |args| {
        FormatLoopSpec(parts, args, n + 1, acc1 + args[n]);
        if |parts| - 1 == |args| {
          assert parts[n..][1..] == parts[n + 1..];
          assert args[n..][1..] == args[n + 1..];
          var rest := Interleave(parts[n + 1..], args[n + 1..]);
          assert Interleave(parts[n..], args[n..]) == parts[n] + args[n] + rest;
          assert acc1 + args[n] + rest == acc + (parts[n] + args[n] + rest);
        }
      } else if n == |args| {
        FormatLoopSpec(parts, args, n + 1, acc1);
      }
    }
  }

  // ---------------------------------------------------------------------------
  // to_long

  datatype ParseError =
    | InvalidArgument  // `std::invalid_argument`: no number, or bytes left over
    | OutOfRange       // `std::out_of_range`: the number does not fit a `long`

  const LongMin: int := -0x8000_0000_0000_0000
  const LongMax: int := 0x7fff_ffff_ffff_ffff

  /** The bytes `isspace` accepts in the "C" locale, which `stol` skips first. */
  predicate IsSpace(c: char) {
    c == ' ' || c == '\t' || c == '\n' || c == '\U{0B}' || c == '\U{0C}' || c == '\r'
  }

  /** The length of the run of bytes satisfying `p` starting at `from`. */
  function RunLength(s: string, from: nat, p: char -> bool): (n: nat)
    requires from <= |s|
    ensures from + n <= |s|
    ensures forall i :: from <= i < from + n ==> p(s[i])
    ensures from + n < |s| ==> !p(s[from + n])
    decreases |s| - from
  {
    if from == |s| || !p(s[from]) then 0 else 1 + RunLength(s, from + 1, p)
  }

  /** `s[..c]` is the text `stol` reads: white space in `[0, a)`, an
      optional sign in `[a, b)` and a maximal run of digits in `[b, c)`. */
  predicate NumberAt(s: string, a: nat, b: nat, c: nat) {
    && a <= b < c <= |s|
    && (forall i :: 0 <= i < a ==> IsSpace(s[i]))
    && (b == a || (b == a + 1 && s[a] in "+-"))
    && (forall i :: b <= i < c ==> Decimal.IsDigit(s[i]))
    && (c == |s| || !Decimal.IsDigit(s[c]))
  }

  /** The signed value of the number `NumberAt(s, a, b, c)` describes. */
  function NumberValue(s: string, a: nat, b: nat, c: nat): int
    requires NumberAt(s, a, b, c)
  {
    assert Decimal.AllDigits(s[b..c]);
    var m := Decimal.DigitsValue(s[b..c]);
    if b == a + 1 && s[a] == '-' then -(m as int) else m
  }

  predicate FitsLong(v: int) {
    LongMin <= v <= LongMax
  }

  /** Where `stol`'s digits start: after the leading white space and a sign
      if one follows it. */
  function DigitsStart(s: string): (n: nat)
    ensures n <= |s|
  {
    var ws := RunLength(s, 0, IsSpace);
    ws + if ws < |s| && s[ws] in "+-" then 1 else 0
  }

  /** Where `stol` stops reading: after the run of digits at `DigitsStart`. */
  function DigitsEnd(s: string): (n: nat)
    ensures DigitsStart(s) <= n <= |s|
  {
    DigitsStart(s) + RunLength(s, DigitsStart(s), Decimal.IsDigit)
  }

  /** `to_long()`: `stol` skips white space, reads an optional sign and a run
      of decimal digits, and fails if there are no digits or the value does
      not fit a `long`; `to_long` then also fails unless the whole text was
      read. */
  function ToLong(s: string): (r: Result<int, ParseError>)
    ensures r.Success? ==> LongMin <= r.value <= LongMax
    ensures r.Success? ==> exists i :: 0 <= i < |s| && Decimal.IsDigit(s[i])
    ensures r.Success? ==> forall i :: 0 <= i < |s| ==> IsSpace(s[i]) || Decimal.IsDigit(s[i]) || s[i] in "+-"
    ensures (forall a: nat, b: nat, c: nat :: !NumberAt(s, a, b, c)) ==> r == Failure(InvalidArgument)
    ensures forall a: nat, b: nat, c: nat :: NumberAt(s, a, b, c) ==>
      r == if !FitsLong(NumberValue(s, a, b, c)) then Failure(OutOfRange)
           else if c < |s| then Failure(InvalidArgument)
           else Success(NumberValue(s, a, b, c))
  {
    var ws := RunLength(s, 0, IsSpace);
    var from := DigitsStart(s);
    var to := DigitsEnd(s);
    NumbersAreScanned(s);
    if from == to then Failure(InvalidArgument)
    else
      var value := NumberValue(s, ws, from, to);
      if !FitsLong(value) then Failure(OutOfRange)
      else if to != |s| then Failure(InvalidArgument)
      else
        assert Decimal.IsDigit(s[from]);
        Success(value)
  }

  /** The only number `stol` can read is the one its scan finds: white space
      up to the first other byte, a sign if one follows, then the digits. */
  lemma NumbersAreScanned(s: string)
    ensures DigitsStart(s) < DigitsEnd(s) ==> NumberAt(s, RunLength(s, 0, IsSpace), DigitsStart(s), DigitsEnd(s))
    ensures forall a: nat, b: nat, c: nat :: NumberAt(s, a, b, c) ==>
      a == RunLength(s, 0, IsSpace) && b == DigitsStart(s) && c == DigitsEnd(s)
  {
    forall a: nat, b: nat, c: nat | NumberAt(s, a, b, c)
      ensures a == RunLength(s, 0, IsSpace) && b == DigitsStart(s) && c == DigitsEnd(s)
    {
      assert Decimal.IsDigit(s[b]);
      RunLengthExact(s, 0, a, IsSpace);
      RunLengthExact(s, b, c - b, Decimal.IsDigit);
    }
  }

  /** White space, an optional sign and digits, followed by bytes that do not
      continue the digits: out of range if the value does not fit a `long`,
      otherwise the value when nothing follows and `invalid_argument` when
      something does. */
  lemma ToLongOfParts(w: string, sign: string, digits: string, rest: string)
    requires forall i :: 0 <= i < |w| ==> IsSpace(w[i])
    requires sign == "" || sign == "+" || sign == "-"
    requires digits != [] && Decimal.AllDigits(digits)
    requires rest == [] || !Decimal.IsDigit(rest[0])
    ensures ToLong(w + sign + digits + rest) ==
              if !FitsLong(SignedValue(sign, digits)) then Failure(OutOfRange)
              else if rest != [] then Failure(InvalidArgument)
              else Success(SignedValue(sign, digits))
  {
    var s := w + sign + digits + rest;
    var a, b, c := |w|, |w| + |sign|, |w| + |sign| + |digits|;
    PartsNumberAt(w, sign, digits, rest);
    assert NumberValue(s, a, b, c) == SignedValue(sign, digits);
  }

  /** The value of `digits` with `sign` applied. */
  function SignedValue(sign: string, digits: string): int
    requires Decimal.AllDigits(digits)
  {
    var m := Decimal.DigitsValue(digits);
    if sign == "-" then -(m as int) else m
  }

  lemma PartsNumberAt(w: string, sign: string, digits: string, rest: string)
    requires forall i :: 0 <= i < |w| ==> IsSpace(w[i])
    requires sign == "" || sign == "+" || sign == "-"
    requires digits != [] && Decimal.AllDigits(digits)
    requires rest == [] || !Decimal.IsDigit(rest[0])
    ensures var s := w + sign + digits + rest;
            var b := |w| + |sign|;
            && NumberAt(s, |w|, b, b + |digits|)
            && s[b..b + |digits|] == digits
            && (b == |w| + 1 ==> s[|w|] == sign[0])
            && (b + |digits| < |s| <==> rest != [])
  {
    var s := w + sign + digits + rest;
    var a, b, c := |w|, |w| + |sign|, |w| + |sign| + |digits|;
    assert s == ((w + sign) + digits) + rest;
    assert forall i :: 0 <= i < a ==> s[i] == w[i];
    assert s[b..c] == digits;
    assert forall i :: b <= i < c ==> s[i] == digits[i - b];
    assert c < |s| ==> s[c] == rest[0];
    assert b == a + 1 ==> s[a] == sign[0];
  }

  /** More bytes `to_long` rejects or accepts: leading white space and a '+'
      are read; trailing white space, a sign inside the digits and a doubled
      sign are not. */
  lemma ToLongSignsAndSpaces()
    ensures ToLong(" +12") == Success(12)
    ensures ToLong("12 ") == Failure(InvalidArgument)
    ensures ToLong("1-2") == Failure(InvalidArgument)
    ensures ToLong("--1") == Failure(InvalidArgument)
  {
    TwelveValue();
    ToLongOfParts(" ", "+", "12", "");
    assert " " + "+" + "12" + "" == " +12";
    ToLongOfParts("", "", "12", " ");
    assert "" + "" + "12" + " " == "12 ";
    ToLongOfParts("", "", "1", "-2");
    assert "" + "" + "1" + "-2" == "1-2";
    OneValue();
    DoubledSign();
  }

  lemma TwelveValue()
    ensures Decimal.AllDigits("12") && Decimal.DigitsValue("12") == 12
  {
    assert "12"[..1] == "1";
    assert "1"[..0] == "";
  }

  lemma OneValue()
    ensures Decimal.AllDigits("1") && Decimal.DigitsValue("1") == 1
  {
    assert "1"[..0] == "";
  }

  /** "--1" holds no number `stol` can read: the first byte is neither white
      space nor a digit, and a second sign cannot follow the first. */
  lemma DoubledSign()
    ensures ToLong("--1") == Failure(InvalidArgument)
  {
    var s := "--1";
    assert !IsSpace(s[0]) && !Decimal.IsDigit(s[0]) && !Decimal.IsDigit(s[1]);
    forall a: nat, b: nat, c: nat | NumberAt(s, a, b, c)
      ensures false
    {
    }
  }

  /** A run of `n` bytes satisfying `p` that cannot be extended has length `n`. */
  lemma {:induction false} RunLengthExact(s: string, from: nat, n: nat, p: char -> bool)
    requires from + n <= |s|
    requires forall i :: from <= i < from + n ==> p(s[i])
    requires from + n == |s| || !p(s[from + n])
    ensures RunLength(s, from, p) == n
    decreases n
  {
    if n > 0 {
      RunLengthExact(s, from + 1, n - 1, p);
    }
  }

  /** Parsing the rendering of a `long` gives the number back. */
  lemma ToLongShowRoundTrip(n: int)
    requires LongMin <= n <= LongMax
    ensures ToLong(Decimal.ShowInt(n)) == Success(n)
  {
    var s := Decimal.ShowInt(n);
    var from := if n < 0 then 1 else 0;
    var m := if n < 0 then -n else n;
    assert s[from..] == Decimal.ShowNat(m);
    Decimal.ShowNatRoundTrip(m);
    ToLongReadsAll(s, from);
  }

  /** A text made of an optional '-' and a non-empty run of digits is read
      whole, with the sign applied. */
  lemma ToLongReadsAll(s: string, from: nat)
    requires from < |s| && Decimal.AllDigits(s[from..])
    requires from == 0 || (from == 1 && s[0] == '-')
    ensures var m := Decimal.DigitsValue(s[from..]);
            var v := if from == 1 then -(m as int) else m;
            ToLong(s) == if v < LongMin || LongMax < v then Failure(OutOfRange) else Success(v)
  {
    assert s[from] == s[from..][0];
    assert !IsSpace(s[0]);
    assert RunLength(s, 0, IsSpace) == 0;
    assert from == 0 ==> s[0] !in "+-";
    AllDigitsRun(s, from);
    assert s[from..from + (|s| - from)] == s[from..];
  }

  lemma {:induction false} AllDigitsRun(s: string, from: nat)
    requires from <= |s| && Decimal.AllDigits(s[from..])
    ensures RunLength(s, from, Decimal.IsDigit) == |s| - from
    decreases |s| - from
  {
    if from < |s| {
      assert s[from] == s[from..][0];
      assert s[from + 1..] == s[from..][1..];
      AllDigitsRun(s, from + 1);
    }
  }

  // ---------------------------------------------------------------------------
  // operator+

  /** `operator+`: the bytes of `a` followed by those of `b`. */
  function Concat(a: string, b: string): (r: string)
    ensures |r| == |a| + |b|
    ensures StartsWith(r, a) && EndsWith(r, b)
  {
    PrefixSuffixLaws(a, b, [], []);
    a + b
  }

  // ---------------------------------------------------------------------------
  // Examples

  /** "123" reads as 123; trailing bytes and an empty text are rejected. */
  lemma ToLongExamples()
    ensures ToLong("123") == Success(123)
    ensures ToLong("123 er") == Failure(InvalidArgument)
    ensures ToLong("") == Failure(InvalidArgument)
  {
    ShowOneTwoThree();
    ToLongShowRoundTrip(123);
    Decimal.ShowNatRoundTrip(123);
    ToLongTrailing();
  }

  lemma ShowOneTwoThree()
    ensures Decimal.ShowInt(123) == "123" && Decimal.ShowNat(123) == "123"
  {
  }

  /** The digits of "123 er" are read, and the bytes after them make it fail. */
  lemma ToLongTrailing()
    ensures ToLong("123 er") == Failure(InvalidArgument)
  {
    var s := "123 er";
    assert RunLength(s, 0, IsSpace) == 0;
    assert RunLength(s, 3, Decimal.IsDigit) == 0;
    assert RunLength(s, 0, Decimal.IsDigit) == 3;
    assert s[0..3] == "123";
    ShowOneTwoThree();
    Decimal.ShowNatRoundTrip(123);
  }

  /** "Hello  world" split on ' ': with empty segments kept there is one
      between the two spaces, and dropping empty segments removes it. */
  lemma SplitExamples()
    ensures SplitByChar("Hello  world", ' ', true) == ["Hello", "", "world"]
    ensures SplitByChar("Hello  world", ' ', false) == ["Hello", "world"]
  {
    var parts := ["Hello", "", "world"];
    assert Sequence.JoinParts(parts, " ") == "Hello  world" by {
      Sequence.JoinPartsCons("Hello", ["", "world"], " ");
      Sequence.JoinPartsCons("", ["world"], " ");
    }
    assert forall i :: 0 <= i < |parts| ==> ' ' !in parts[i];
    SplitJoinRoundTrip(parts, ' ');
    FilterHelloWorld();
  }

  lemma FilterHelloWorld()
    ensures Sequence.Filter(NonEmpty, ["Hello", "", "world"]) == ["Hello", "world"]
  {
    var parts := ["Hello", "", "world"];
    assert parts[1..] == ["", "world"] && parts[1..][1..] == ["world"];
    assert ["world"][1..] == [];
    assert Sequence.Filter(NonEmpty, ["world"]) == ["world"];
    assert Sequence.Filter(NonEmpty, ["", "world"]) == ["world"];
  }

  /** One placeholder and one argument; a placeholder with no argument; an
      argument with no placeholder. */
  lemma FormatExamples()
    ensures Format("{}!", ["Hi"]) == Success("Hi!")
    ensures Format("{}", []) == Failure(RequireMoreArguments)
    ensures Format("x", ["a"]) == Failure(TooManyArguments)
  {
    assert FindFrom("{}!", Placeholder, 0) == 0;
    assert "{}!"[2..] == "!";
    assert FindFrom("!", Placeholder, 0) == -1;
    assert SplitAtPattern("{}!", Placeholder) == ["", "!"];
    assert Occurrences("!", Placeholder) == 0;
    assert Occurrences("{}!", Placeholder) == 1;
    assert SplitByString("{}!", Placeholder, true) == ["", "!"];
    assert ["", "!"][1..] == ["!"] && ["Hi"][1..] == [];
    assert Interleave(["", "!"], ["Hi"]) == "" + "Hi" + "!" == "Hi!";
    var r := Format("{}!", ["Hi"]);
    assert r.Success? && r.value == Interleave(["", "!"], ["Hi"]);
    assert FindFrom("{}", Placeholder, 0) == 0;
    assert "{}"[2..] == [];
    assert FindFrom([], Placeholder, 0) == -1;
    assert FindFrom("x", Placeholder, 0) == -1;
  }
}
