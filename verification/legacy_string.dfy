/** The older byte-string wrapper. Its `split`, `lower`, `upper`, `startswith`
    and `endswith` are the same code as in the newer string type and are
    defined by it; its `slice` adjusts a negative end differently and lets a
    reversed range run on to the end of the text. */
module LegacyString {
  import Sequence
  import StringValue
  import Underscore
  import Results

  /** `split(char sep, insert_empty_elements)`. */
  function SplitByChar(s: string, sep: char, insertEmpty: bool): (r: seq<string>)
    ensures forall i :: 0 <= i < |r| ==> sep !in r[i]
    ensures insertEmpty ==> |r| == multiset(s)[sep] + 1 && Sequence.JoinParts(r, [sep]) == s
    ensures !insertEmpty ==> forall i :: 0 <= i < |r| ==> r[i] != []
    ensures !insertEmpty ==> r == Sequence.Filter(StringValue.NonEmpty, StringValue.SplitAtChar(s, sep))
  {
    StringValue.SplitByChar(s, sep, insertEmpty)
  }

  /** `split(const std::string &sep, insert_empty_elements)`, for a non-empty
      `sep` (the source loops forever on an empty one). */
  function SplitByString(s: string, sep: string, insertEmpty: bool): (r: seq<string>)
    requires |sep| > 0
    ensures forall i :: 0 <= i < |r| ==> !StringValue.ContainsPattern(r[i], sep)
    ensures insertEmpty ==> Sequence.JoinParts(r, sep) == s
    ensures insertEmpty ==> |r| == StringValue.Occurrences(s, sep) + 1 && StringValue.LeftmostSegments(r, sep)
    ensures !insertEmpty ==> forall i :: 0 <= i < |r| ==> r[i] != []
    ensures !insertEmpty ==> r == Sequence.Filter(StringValue.NonEmpty, StringValue.SplitAtPattern(s, sep))
  {
    StringValue.SplitAtPatternLeftmost(s, sep);
    StringValue.SplitByString(s, sep, insertEmpty)
  }

  /** `lower()`: each byte converted on its own. */
  function Lower(s: string): (r: string)
    ensures |r| == |s|
    ensures forall i :: 0 <= i < |s| ==> r[i] == StringValue.ToLowerChar(s[i])
  {
    StringValue.Lower(s)
  }

  /** `upper()`: each byte converted on its own. */
  function Upper(s: string): (r: string)
    ensures |r| == |s|
    ensures forall i :: 0 <= i < |s| ==> r[i] == StringValue.ToUpperChar(s[i])
  {
    StringValue.Upper(s)
  }

  /** `startswith(x)`: `x` is a prefix; always true for an empty `x`. */
  function StartsWith(s: string, x: string): (r: bool)
    ensures r <==> |x| <= |s| && s[..|x|] == x
  {
    StringValue.StartsWith(s, x)
  }

  /** `endswith(x)`: `x` is a suffix; always true for an empty `x`. */
  function EndsWith(s: string, x: string): (r: bool)
    ensures r <==> |x| <= |s| && s[|s| - |x|..] == x
  {
    StringValue.EndsWith(s, x)
  }

  // ---------------------------------------------------------------------------
  // slice

  /** The end position after the adjustments of `slice`: a negative `end`
      counts from one past the end, so -1 is the whole text; this may still
      be negative. */
  function AdjustedEnd(size: nat, end: int): int {
    var e := if end < 0 then size + end + 1 else end;
    if e > size then size else e
  }

  /** `slice(start, end)`: "" when the adjusted end is negative or the
      adjusted start is past the end; otherwise the bytes from the adjusted
      start to the adjusted end, and when the start is beyond the end the
      negative count `substr` is given wraps to a huge one, so the bytes
      from the start to the end of the text. */
  function Slice(s: string, start: int, end: int): (r: string)
    ensures var e := AdjustedEnd(|s|, end);
            var a := Underscore.AdjustedStart(|s|, start);
            && (e < 0 || a > |s| ==> r == [])
            && (0 <= e && a <= e ==> |r| == e - a && forall i :: 0 <= i < |r| ==> r[i] == s[a + i])
            && (0 <= e < a <= |s| ==> |r| == |s| - a && forall i :: 0 <= i < |r| ==> r[i] == s[a + i])
  {
    var size := |s|;
    var e := if end < 0 then size + end + 1 else end;
    if e < 0 then []
    else
      var e := if e > size then size else e;
      var b := if start < 0 then size + start else start;
      var b := if b < 0 then 0 else b;
      if b > size then []
      else if b == 0 && e == size then s
      else Substr(s, b, e - b)
  }

  /** `std::string::substr(pos, count)` with `count` passed as a `size_t`: a
      negative count wraps to a value larger than any string, which means
      "to the end". */
  function Substr(s: string, pos: nat, count: int): (r: string)
    requires pos <= |s|
    ensures 0 <= count && pos + count <= |s| ==> r == s[pos..pos + count]
    ensures (count < 0 || pos + count > |s|) ==> r == s[pos..]
  {
    if 0 <= count && pos + count <= |s| then s[pos..pos + count] else s[pos..]
  }

  /** Against the newer `underscore` slice: the same for a non-negative end,
      and a negative end here is the end one further on there. */
  lemma SliceShiftsNegativeEnd(s: string, start: int, end: int)
    requires Underscore.SliceDefined(|s|, start, if end < 0 then end + 1 else end)
    requires end != -1
    ensures Underscore.Slice(s, start, if end < 0 then end + 1 else end) == Results.Success(Slice(s, start, end))
  {
  }

  /** -1 as the end means through the last byte, and the full range gives the
      text back. */
  lemma SliceToLast(s: string, start: int)
    ensures Slice(s, start, -1) == Underscore.SliceFrom(s, start)
    ensures Slice(s, 0, -1) == s && Slice(s, 0, |s|) == s
  {
  }

  /** A reversed range does not give "": it runs from the start to the end of
      the text. */
  lemma ReversedRangeRunsToEnd(s: string, start: nat, end: nat)
    requires end < start <= |s|
    ensures Slice(s, start, end) == s[start..]
  {
  }

  /** On "Hello, world": `slice(0, -6)` is "Hello, ", `slice(-7, -6)` is
      ", ", `slice(-5, -1)` is "world" and `slice(7, 3)` is "world" too. */
  lemma SliceExamples()
    ensures Slice("Hello, world", 0, -6) == "Hello, "
    ensures Slice("Hello, world", -7, -6) == ", "
    ensures Slice("Hello, world", -5, -1) == "world"
    ensures Slice("Hello, world", 7, 3) == "world"
  {
    var s := "Hello, world";
    assert Slice(s, 0, -6) == s[0..7];
    assert Slice(s, -7, -6) == s[5..7];
    assert Slice(s, -5, -1) == s[7..12];
    assert Slice(s, 7, 3) == s[7..];
  }
}
