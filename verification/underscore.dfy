/** The older eager wrapper `underscore<T>`. `join`, `filter`, `map`, `sort`
    and `reverse` are the same code as in `sequence<T>` and are defined by it;
    `slice` clamps negative positions its own way, and `__` splits text the
    way `std::getline` reads it. */
module Underscore {
  import opened Results
  import Sequence

  /** `join(sep)`: "" for an empty list, otherwise the rendered elements with
      `sep` between consecutive ones. */
  function Join<T>(show: T -> string, s: seq<T>, sep: string): (r: string)
    ensures s == [] ==> r == ""
    ensures |s| == 1 ==> r == show(s[0])
  {
    Sequence.Join(show, s, sep)
  }

  /** `sep` appears between consecutive elements and not at either end:
      joining a list made of two non-empty halves is joining each half and
      putting one `sep` between them. */
  lemma JoinSeparates<T>(show: T -> string, a: seq<T>, b: seq<T>, sep: string)
    requires a != [] && b != []
    ensures Join(show, a + b, sep) == Join(show, a, sep) + sep + Join(show, b, sep)
  {
    Sequence.JoinAppend(show, a, b, sep);
  }

  /** `filter(f)`: the satisfying elements, in order, with their multiplicities. */
  function Filter<T(!new)>(p: T -> bool, s: seq<T>): (r: seq<T>)
    ensures forall i :: 0 <= i < |r| ==> p(r[i])
    ensures forall x :: multiset(r)[x] == if p(x) then multiset(s)[x] else 0
    ensures Sequence.IsSubsequence(r, s)
  {
    Sequence.Filter(p, s)
  }

  /** `map(f)`: one result per element, at the same position. */
  function Map<T, U>(f: T -> U, s: seq<T>): (r: seq<U>)
    ensures |r| == |s|
    ensures forall i :: 0 <= i < |s| ==> r[i] == f(s[i])
  {
    Sequence.Map(f, s)
  }

  /** `sort()`: a non-decreasing permutation of the input. */
  function Sort<T(!new)>(le: (T, T) -> bool, s: seq<T>): (r: seq<T>)
    requires Sequence.TotalPreorder(le)
    ensures Sequence.SortedBy(le, r)
    ensures multiset(r) == multiset(s)
  {
    Sequence.Sort(le, s)
  }

  /** `reverse()`: the elements in opposite order. */
  function Reverse<T>(s: seq<T>): (r: seq<T>)
    ensures |r| == |s|
    ensures forall i :: 0 <= i < |s| ==> r[i] == s[|s| - 1 - i]
  {
    Sequence.Reverse(s)
  }

  /** Reversing twice gives the list back. */
  lemma ReverseTwice<T>(s: seq<T>)
    ensures Reverse(Reverse(s)) == s
  {
  }

  // ---------------------------------------------------------------------------
  // slice, head, tail

  /** The end position after the adjustments of `slice`: a negative `end`
      counts from the end; this may still be negative. */
  function AdjustedEnd(size: nat, end: int): int {
    var e := if end < 0 then size + end else end;
    if e > size then size else e
  }

  /** The start position after the adjustments of `slice`: a negative `start`
      counts from the end and is clamped at 0; this may exceed `size`. */
  function AdjustedStart(size: nat, start: int): nat {
    var b := if start < 0 then size + start else start;
    if b < 0 then 0 else b
  }

  /** `slice` returns the empty list before it copies anything. */
  predicate SliceEmpty(size: nat, start: int, end: int) {
    AdjustedEnd(size, end) < 0 || AdjustedStart(size, start) > size
  }

  /** `slice` returns normally: either it returns the empty list early, or
      the adjusted bounds are in order. */
  predicate SliceDefined(size: nat, start: int, end: int) {
    SliceEmpty(size, start, end) || AdjustedStart(size, start) <= AdjustedEnd(size, end)
  }

  /** `slice(start, end)`: empty when the adjusted end is negative or the
      adjusted start is past the end, otherwise the elements with index in
      `[adjusted start, adjusted end)`. With the adjusted bounds reversed the
      source asks `reserve` for a negative count, which converts to a
      `size_t` beyond `max_size()`: `std::length_error`. */
  function Slice<T>(s: seq<T>, start: int, end: int): (r: Result<seq<T>, Sequence.SliceError>)
    ensures r.Success? <==> SliceDefined(|s|, start, end)
    ensures SliceEmpty(|s|, start, end) ==> r == Success([])
    ensures r.Success? && !SliceEmpty(|s|, start, end) ==>
      var a := AdjustedStart(|s|, start);
      |r.value| == AdjustedEnd(|s|, end) - a && forall i :: 0 <= i < |r.value| ==> r.value[i] == s[a + i]
  {
    var size := |s|;
    var e := if end < 0 then size + end else end;
    if e < 0 then Success([])
    else
      var e := if e > size then size else e;
      var b := if start < 0 then size + start else start;
      var b := if b < 0 then 0 else b;
      if b > size then Success([])
      else
        assert b == AdjustedStart(size, start) && e == AdjustedEnd(size, end);
        if b == 0 && e == size then Success(s)
        else if e < b then Failure(Sequence.LengthError)
        else Success(s[b..e])
  }

  /** `slice(start)`: from `start` to the end; the end is the size, so it
      never throws. */
  function SliceFrom<T>(s: seq<T>, start: int): (r: seq<T>)
    ensures AdjustedStart(|s|, start) > |s| ==> r == []
    ensures AdjustedStart(|s|, start) <= |s| ==> r == s[AdjustedStart(|s|, start)..]
  {
    Slice(s, start, |s|).value
  }

  /** `head(n)`: `slice(0, n)`, the first `n` elements, or all but the last
      `-n` ones for a negative `n`. */
  function Head<T>(s: seq<T>, n: int): (r: seq<T>)
    ensures 0 <= n <= |s| ==> r == s[..n]
    ensures n > |s| ==> r == s
    ensures n < 0 ==> r == if |s| + n < 0 then [] else s[..|s| + n]
  {
    Slice(s, 0, n).value
  }

  /** `tail(n)`: `slice(n, size)`, everything from position `n`, or the last
      `-n` elements for a negative `n`. */
  function Tail<T>(s: seq<T>, n: int): (r: seq<T>)
    ensures 0 <= n <= |s| ==> r == s[n..]
    ensures n > |s| ==> r == []
    ensures n < 0 ==> r == if |s| + n < 0 then s else s[|s| + n..]
  {
    Slice(s, n, |s|).value
  }

  /** `head(n)` and `tail(n)` split the list at the same place, whatever `n`. */
  lemma HeadTailSplit<T>(s: seq<T>, n: int)
    ensures Head(s, n) + Tail(s, n) == s
  {
    if 0 <= n <= |s| {
      assert s[..n] + s[n..] == s;
    } else if n < 0 && |s| + n >= 0 {
      assert s[..|s| + n] + s[|s| + n..] == s;
    }
  }

  // ---------------------------------------------------------------------------
  // __(text, sep)

  /** One `std::getline(stream, line, sep)` on the unread text `rest`: the line
      up to the first `sep` (which is consumed) or to the end of the text. */
  function GetLine(rest: string, sep: char): (r: (string, string))
    requires rest != []
    ensures sep !in r.0
    ensures |r.1| < |rest|
    ensures rest == r.0 + (if |r.0| < |rest| then [sep] else []) + r.1
  {
    if rest[0] == sep then ([], rest[1..])
    else if |rest| == 1 then (rest, [])
    else
      var next := GetLine(rest[1..], sep);
      ([rest[0]] + next.0, next.1)
  }

  /** The lines `std::getline` reads until it extracts nothing. */
  function ReadLines(rest: string, sep: char): seq<string>
    decreases |rest|
  {
    if rest == [] then []
    else
      var line := GetLine(rest, sep);
      [line.0] + ReadLines(line.1, sep)
  }

  /** `__(text, sep)`: no line contains `sep`; joining the lines with `sep`,
      plus one `sep` when the text ends in one, gives back the text. So
      empty interior lines are kept, a single trailing `sep` adds no empty
      line and an empty text gives no lines. */
  function SplitLines(s: string, sep: char): (r: seq<string>)
    ensures forall i :: 0 <= i < |r| ==> sep !in r[i]
    ensures r == [] <==> s == []
    ensures Sequence.JoinParts(r, [sep]) + TrailingSep(s, sep) == s
  {
    ReadLinesRoundTrip(s, sep);
    ReadLines(s, sep)
  }

  /** The bytes `__` re-inserts after joining: one `sep` when the text ends in one. */
  function TrailingSep(s: string, sep: char): string {
    if s != [] && s[|s| - 1] == sep then [sep] else []
  }

  lemma {:induction false} ReadLinesRoundTrip(rest: string, sep: char)
    ensures forall i :: 0 <= i < |ReadLines(rest, sep)| ==> sep !in ReadLines(rest, sep)[i]
    ensures ReadLines(rest, sep) == [] <==> rest == []
    ensures Sequence.JoinParts(ReadLines(rest, sep), [sep]) + TrailingSep(rest, sep) == rest
    decreases |rest|
  {
    if rest != [] {
      var line := GetLine(rest, sep);
      var tail := ReadLines(line.1, sep);
      ReadLinesRoundTrip(line.1, sep);
      var lines := ReadLines(rest, sep);
      assert lines == [line.0] + tail;
      forall i | 0 <= i < |lines|
        ensures sep !in lines[i]
      {
        if i > 0 {
          assert lines[i] == tail[i - 1];
        }
      }
      if line.1 == [] {
        LastLineRoundTrip(rest, sep, line.0);
      } else {
        JoinLinesStep(rest, sep, line.0, line.1, tail);
      }
    }
  }

  /** The last line: the rest of the text, possibly followed by one `sep`. */
  lemma LastLineRoundTrip(rest: string, sep: char, line: string)
    requires sep !in line
    requires rest == line + (if |line| < |rest| then [sep] else [])
    ensures Sequence.JoinParts([line], [sep]) + TrailingSep(rest, sep) == rest
  {
    assert Sequence.JoinParts([line], [sep]) == line;
    if |line| == |rest| {
      assert rest == line;
      if rest != [] {
        assert rest[|rest| - 1] in line;
      }
    }
  }

  /** A line followed by `sep` and more lines. */
  lemma JoinLinesStep(rest: string, sep: char, line: string, after: string, tail: seq<string>)
    requires after != [] && tail != []
    requires rest == line + [sep] + after
    requires Sequence.JoinParts(tail, [sep]) + TrailingSep(after, sep) == after
    ensures Sequence.JoinParts([line] + tail, [sep]) + TrailingSep(rest, sep) == rest
  {
    Sequence.JoinPartsCons(line, tail, [sep]);
    assert rest[|rest| - 1] == after[|after| - 1];
    assert TrailingSep(rest, sep) == TrailingSep(after, sep);
    calc {
      Sequence.JoinParts([line] + tail, [sep]) + TrailingSep(rest, sep);
      line + [sep] + Sequence.JoinParts(tail, [sep]) + TrailingSep(after, sep);
      line + [sep] + (Sequence.JoinParts(tail, [sep]) + TrailingSep(after, sep));
      rest;
    }
  }

  // ---------------------------------------------------------------------------
  // Examples

  /** On [1, 2, 3, 4, 5]: `head(2)`, `head(-2)`, `tail(2)`, `tail(-2)` and
      `slice(1, 2)`, and `slice(3, 1)`, whose reversed bounds throw. */
  lemma SliceExamples()
    ensures Head([1, 2, 3, 4, 5], 2) == [1, 2]
    ensures Head([1, 2, 3, 4, 5], -2) == [1, 2, 3]
    ensures Tail([1, 2, 3, 4, 5], 2) == [3, 4, 5]
    ensures Tail([1, 2, 3, 4, 5], -2) == [4, 5]
    ensures Slice([1, 2, 3, 4, 5], 1, 2) == Success([2])
    ensures Slice([1, 2, 3, 4, 5], 3, 1) == Failure(Sequence.LengthError)
  {
  }

  /** `std::getline` stops at the first `sep`. */
  lemma {:induction false} GetLineAtFirst(rest: string, sep: char, i: nat)
    requires i < |rest| && rest[i] == sep && sep !in rest[..i]
    ensures GetLine(rest, sep) == (rest[..i], rest[i + 1..])
  {
    if i > 0 {
      assert rest[0] == rest[..i][0];
      assert rest[1..][..i - 1] == rest[1..i];
      assert rest[1..][i - 1] == rest[i];
      GetLineAtFirst(rest[1..], sep, i - 1);
      assert [rest[0]] + rest[1..i] == rest[..i];
    }
  }

  /** Without `sep`, `std::getline` reads the whole text. */
  lemma {:induction false} GetLineWhole(rest: string, sep: char)
    requires rest != [] && sep !in rest
    ensures GetLine(rest, sep) == (rest, [])
  {
    assert rest[0] in rest;
    if |rest| > 1 {
      assert forall k :: 0 <= k < |rest| - 1 ==> rest[1..][k] == rest[k + 1];
      GetLineWhole(rest[1..], sep);
      assert [rest[0]] + rest[1..] == rest;
    }
  }

  /** The first line is the text up to the first `sep`. */
  lemma ReadLinesStep(rest: string, sep: char, i: nat)
    requires i < |rest| && rest[i] == sep && sep !in rest[..i]
    ensures ReadLines(rest, sep) == [rest[..i]] + ReadLines(rest[i + 1..], sep)
  {
    GetLineAtFirst(rest, sep, i);
  }

  /** A text without `sep` is one line. */
  lemma ReadLinesWhole(rest: string, sep: char)
    requires rest != [] && sep !in rest
    ensures ReadLines(rest, sep) == [rest]
  {
    GetLineWhole(rest, sep);
    assert ReadLines([], sep) == [];
  }

  /** `__("Hello, world")` splits at the comma into "Hello" and " world". */
  lemma SplitLinesExample()
    ensures SplitLines("Hello, world", ',') == ["Hello", " world"]
  {
    var s := "Hello, world";
    HelloWorldParts();
    ReadLinesStep(s, ',', 5);
    ReadLinesWhole(" world", ',');
  }

  lemma HelloWorldParts()
    ensures "Hello, world"[5] == ','
    ensures "Hello, world"[..5] == "Hello" && ',' !in "Hello"
    ensures "Hello, world"[6..] == " world" && ',' !in " world"
  {
  }
}
