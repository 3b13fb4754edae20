/** The eager `sequence<T>` wrapper: every operation evaluates at once and
    returns a new list (or a single value), leaving the receiver unchanged.
    A list is a `seq<T>`; `std::to_string`, the comparison `<` and the
    element type's default value enter as explicit parameters or as `int`. */
module Sequence {
  import opened Results

  /** The largest value of the signed size type, the default `end` of `slice`. */
  const SsizeMax: int := 0x7fff_ffff_ffff_ffff

  /** `r` keeps some of the elements of `s`, in the order they have in `s`. */
  ghost predicate IsSubsequence<T>(r: seq<T>, s: seq<T>)
    decreases |s|
  {
    r == [] || (s != [] && ((r[0] == s[0] && IsSubsequence(r[1..], s[1..])) || IsSubsequence(r, s[1..])))
  }

  ghost predicate NoDuplicates<T>(s: seq<T>) {
    forall i, j :: 0 <= i < j < |s| ==> s[i] != s[j]
  }

  // ---------------------------------------------------------------------------
  // Positions

  /** `_wrap_position`: a position into a list of `size` elements, where a
      negative `p` counts from the end and anything outside is clamped. */
  function WrapPosition(p: int, size: nat): (r: nat)
    ensures r <= size
    ensures 0 <= p <= size ==> r == p
    ensures p < 0 && size + p >= 0 ==> r == size + p
    ensures size + p < 0 ==> r == 0
    ensures p > size ==> r == size
  {
    if p > size then size
    else if p < 0 then (var q := size + p; if q < 0 then 0 else q)
    else p
  }

  // ---------------------------------------------------------------------------
  // join

  /** The accumulation `join` performs after its first part: each further part
      is appended behind one more copy of `sep`. */
  function JoinFold(acc: string, rest: seq<string>, sep: string): string
    decreases |rest|
  {
    if rest == [] then acc else JoinFold(acc + sep + rest[0], rest[1..], sep)
  }

  /** `join` on parts that are already text: "" for no parts, otherwise the
      first part followed by `sep` + part for each further one. */
  function JoinParts(parts: seq<string>, sep: string): string {
    if parts == [] then "" else JoinFold(parts[0], parts[1..], sep)
  }

  /** `join(sep)`: each element rendered by `show` (the injected `std::to_string`). */
  function Join<T>(show: T -> string, s: seq<T>, sep: string): (r: string)
    ensures s == [] ==> r == ""
    ensures |s| == 1 ==> r == show(s[0])
  {
    JoinParts(Map(show, s), sep)
  }

  lemma {:induction false} JoinFoldPrefix(x: string, y: string, rest: seq<string>, sep: string)
    ensures JoinFold(x + y, rest, sep) == x + JoinFold(y, rest, sep)
    decreases |rest|
  {
    if rest != [] {
      assert x + y + sep + rest[0] == x + (y + sep + rest[0]);
      JoinFoldPrefix(x, y + sep + rest[0], rest[1..], sep);
    }
  }

  lemma {:induction false} JoinFoldAppend(acc: string, a: seq<string>, b: seq<string>, sep: string)
    ensures JoinFold(acc, a + b, sep) == JoinFold(JoinFold(acc, a, sep), b, sep)
    decreases |a|
  {
    if a != [] {
      assert (a + b)[0] == a[0];
      assert (a + b)[1..] == a[1..] + b;
      JoinFoldAppend(acc + sep + a[0], a[1..], b, sep);
    } else {
      assert a + b == b;
    }
  }

  /** Joining two non-empty lists of parts is joining each and putting one
      `sep` between the results: `sep` sits between consecutive parts and
      nowhere else. */
  lemma {:induction false} JoinPartsAppend(a: seq<string>, b: seq<string>, sep: string)
    requires a != [] && b != []
    ensures JoinParts(a + b, sep) == JoinParts(a, sep) + sep + JoinParts(b, sep)
  {
    assert (a + b)[0] == a[0];
    assert (a + b)[1..] == a[1..] + b;
    JoinFoldAppend(a[0], a[1..], b, sep);
    var x := JoinFold(a[0], a[1..], sep);
    assert b == [b[0]] + b[1..];
    calc {
      JoinFold(x, b, sep);
      JoinFold(x + sep + b[0], b[1..], sep);
      { JoinFoldPrefix(x + sep, b[0], b[1..], sep); }
      x + sep + JoinFold(b[0], b[1..], sep);
    }
  }

  /** A part followed by further parts joins to the part, `sep` and the rest. */
  lemma JoinPartsCons(x: string, rest: seq<string>, sep: string)
    requires rest != []
    ensures JoinParts([x] + rest, sep) == x + sep + JoinParts(rest, sep)
  {
    JoinPartsAppend([x], rest, sep);
  }

  /** The `join` law on elements: joining a concatenation of two non-empty
      lists puts exactly one `sep` between the two joined halves. */
  lemma JoinAppend<T>(show: T -> string, a: seq<T>, b: seq<T>, sep: string)
    requires a != [] && b != []
    ensures Join(show, a + b, sep) == Join(show, a, sep) + sep + Join(show, b, sep)
  {
    assert Map(show, a + b) == Map(show, a) + Map(show, b);
    JoinPartsAppend(Map(show, a), Map(show, b), sep);
  }

  // ---------------------------------------------------------------------------
  // filter, remove, map

  /** `filter(f)`: the elements satisfying `p`, in their order, each as often
      as it occurs in `s`. */
  function Filter<T(!new)>(p: T -> bool, s: seq<T>): (r: seq<T>)
    ensures |r| <= |s|
    ensures forall i :: 0 <= i < |r| ==> p(r[i])
    ensures forall x :: multiset(r)[x] == if p(x) then multiset(s)[x] else 0
    ensures IsSubsequence(r, s)
  {
    if s == [] then []
    else
      var t := Filter(p, s[1..]);
      assert s == [s[0]] + s[1..];
      if p(s[0]) then
        assert ([s[0]] + t)[1..] == t;
        [s[0]] + t
      else
        t
  }

  /** Filtering distributes over concatenation. */
  lemma {:induction false} FilterAppend<T(!new)>(p: T -> bool, a: seq<T>, b: seq<T>)
    ensures Filter(p, a + b) == Filter(p, a) + Filter(p, b)
  {
    if a == [] {
      assert a + b == b;
    } else {
      assert (a + b)[0] == a[0];
      assert (a + b)[1..] == a[1..] + b;
      FilterAppend(p, a[1..], b);
    }
  }

  /** `remove(v)`: no element equal to `v` remains, every other element keeps
      its number of occurrences and the order is unchanged. */
  function Remove<T(==,!new)>(s: seq<T>, v: T): (r: seq<T>)
    ensures v !in r
    ensures forall x :: x != v ==> multiset(r)[x] == multiset(s)[x]
    ensures IsSubsequence(r, s)
  {
    var r := Filter((m: T) => m != v, s);
    assert forall i :: 0 <= i < |r| ==> r[i] != v;
    r
  }

  /** `map(f)`: one result per element, at the same position. */
  function Map<T, U>(f: T -> U, s: seq<T>): (r: seq<U>)
    ensures |r| == |s|
    ensures forall i :: 0 <= i < |s| ==> r[i] == f(s[i])
  {
    if s == [] then [] else [f(s[0])] + Map(f, s[1..])
  }

  /** Mapping twice is mapping once with the composed function. */
  lemma MapCompose<T, U, V>(f: T -> U, g: U -> V, s: seq<T>)
    ensures Map(g, Map(f, s)) == Map((x: T) => g(f(x)), s)
  {
  }

  // ---------------------------------------------------------------------------
  // sort

  /** `le(a, b)` stands for `!(b < a)`; for a strict weak order `<` it is total
      and transitive. */
  ghost predicate TotalPreorder<T(!new)>(le: (T, T) -> bool) {
    && (forall a, b :: le(a, b) || le(b, a))
    && (forall a, b, c :: le(a, b) && le(b, c) ==> le(a, c))
  }

  ghost predicate SortedBy<T>(le: (T, T) -> bool, s: seq<T>) {
    forall i, j :: 0 <= i < j < |s| ==> le(s[i], s[j])
  }

  function Insert<T(!new)>(le: (T, T) -> bool, x: T, s: seq<T>): (r: seq<T>)
    requires TotalPreorder(le) && SortedBy(le, s)
    ensures SortedBy(le, r)
    ensures multiset(r) == multiset(s) + multiset{x}
  {
    if s == [] then [x]
    else if le(x, s[0]) then
      ConsSorted(le, x, s);
      [x] + s
    else
      var t := Insert(le, x, s[1..]);
      assert s == [s[0]] + s[1..];
      ConsSortedAfter(le, s[0], x, s[1..], t);
      [s[0]] + t
  }

  lemma ConsSorted<T(!new)>(le: (T, T) -> bool, x: T, s: seq<T>)
    requires TotalPreorder(le) && SortedBy(le, s) && s != [] && le(x, s[0])
    ensures SortedBy(le, [x] + s)
  {
    var r := [x] + s;
    forall i, j | 0 <= i < j < |r|
      ensures le(r[i], r[j])
    {
      if i == 0 {
        assert r[j] == s[j - 1];
        assert le(s[0], s[j - 1]) || j == 1;
      }
    }
  }

  lemma ConsSortedAfter<T(!new)>(le: (T, T) -> bool, h: T, x: T, s: seq<T>, t: seq<T>)
    requires TotalPreorder(le) && SortedBy(le, [h] + s) && !le(x, h)
    requires SortedBy(le, t) && multiset(t) == multiset(s) + multiset{x}
    ensures SortedBy(le, [h] + t)
  {
    forall i | 0 <= i < |t|
      ensures le(h, t[i])
    {
      assert t[i] in multiset(t);
      if t[i] == x {
        assert le(x, h) || le(h, x);
      } else {
        assert t[i] in multiset(s);
        var j :| 0 <= j < |s| && s[j] == t[i];
        assert ([h] + s)[0] == h && ([h] + s)[j + 1] == t[i];
      }
    }
    var r := [h] + t;
    forall i, j | 0 <= i < j < |r|
      ensures le(r[i], r[j])
    {
      if i > 0 {
        assert r[i] == t[i - 1] && r[j] == t[j - 1];
      } else {
        assert r[j] == t[j - 1];
      }
    }
  }

  /** `sort()`: a permutation of the input in non-decreasing order (the
      algorithm of `std::sort` is not modelled, only its result). */
  function Sort<T(!new)>(le: (T, T) -> bool, s: seq<T>): (r: seq<T>)
    requires TotalPreorder(le)
    ensures SortedBy(le, r)
    ensures multiset(r) == multiset(s)
  {
    if s == [] then []
    else
      assert s == [s[0]] + s[1..];
      Insert(le, s[0], Sort(le, s[1..]))
  }

  /** The order `<` of `int`, as `le`. */
  function IntLe(a: int, b: int): bool {
    a <= b
  }

  lemma IntLeTotalPreorder()
    ensures TotalPreorder(IntLe)
  {
  }

  // ---------------------------------------------------------------------------
  // unique

  /** The first position at which `x` occurs in `s`. */
  function FirstIndex<T(==)>(s: seq<T>, x: T): (i: nat)
    requires x in s
    ensures i < |s| && s[i] == x && x !in s[..i]
  {
    if s[0] == x then 0 else FirstIndex(s[1..], x) + 1
  }

  lemma {:induction false} FirstIndexPrefix<T>(s: seq<T>, k: nat, x: T)
    requires k <= |s| && x in s[..k]
    ensures FirstIndex(s[..k], x) == FirstIndex(s, x)
  {
    var i := FirstIndex(s[..k], x);
    var j := FirstIndex(s, x);
    assert s[..k][..i] == s[..i];
  }

  /** `unique(false)`: each distinct value once, in order of first occurrence.
      The state after `k` rounds of the source loop is `UniqueAll(s[..k])`. */
  function UniqueAll<T(==,!new)>(s: seq<T>): (r: seq<T>)
    ensures NoDuplicates(r)
    ensures forall x :: x in r <==> x in s
    ensures forall i, j :: 0 <= i < j < |r| ==> FirstIndex(s, r[i]) < FirstIndex(s, r[j])
  {
    if s == [] then []
    else
      var init := s[..|s| - 1];
      var v := s[|s| - 1];
      var r := UniqueAll(init);
      assert forall x :: x in s <==> x in init || x == v by {
        assert s == init + [v];
      }
      forall x | x in init
        ensures FirstIndex(s, x) == FirstIndex(init, x)
      {
        FirstIndexPrefix(s, |s| - 1, x);
      }
      if v in r then r
      else
        assert FirstIndex(s, v) == |s| - 1;
        r + [v]
  }

  /** `unique(true)`: each run of adjacent equal elements collapsed to one.
      The state after `k` rounds of `std::unique_copy` is `UniqueRuns(s[..k])`. */
  function UniqueRuns<T(==,!new)>(s: seq<T>): (r: seq<T>)
    ensures forall i :: 0 <= i < |r| - 1 ==> r[i] != r[i + 1]
    ensures forall x :: x in r <==> x in s
    ensures IsSubsequence(r, s)
    ensures |s| > 0 ==> |r| > 0 && r[|r| - 1] == s[|s| - 1]
  {
    if |s| <= 1 then s
    else
      var init := s[..|s| - 1];
      var r := UniqueRuns(init);
      assert s == init + [s[|s| - 1]];
      SubsequenceExtend(r, init, s[|s| - 1]);
      if s[|s| - 1] == s[|s| - 2] then r else r + [s[|s| - 1]]
  }

  lemma {:induction false} SubsequenceExtend<T>(r: seq<T>, s: seq<T>, x: T)
    requires IsSubsequence(r, s)
    ensures IsSubsequence(r, s + [x])
    ensures IsSubsequence(r + [x], s + [x])
    decreases |s|
  {
    if s == [] {
      assert r == [];
      assert ([] + [x])[1..] == [];
      assert r + [x] == [x];
    } else {
      assert (s + [x])[1..] == s[1..] + [x];
      assert (s + [x])[0] == s[0];
      if r == [] {
        SubsequenceEmpty(s + [x]);
        assert IsSubsequence([x], [x]) by {
          assert [x][1..] == [];
        }
        SubsequenceExtendEmpty(s, x);
        assert r + [x] == [x];
      } else if r[0] == s[0] && IsSubsequence(r[1..], s[1..]) {
        SubsequenceExtend(r[1..], s[1..], x);
        assert (r + [x])[1..] == r[1..] + [x];
      } else {
        SubsequenceExtend(r, s[1..], x);
      }
    }
  }

  lemma SubsequenceEmpty<T>(s: seq<T>)
    ensures IsSubsequence([], s)
  {
  }

  lemma {:induction false} SubsequenceExtendEmpty<T>(s: seq<T>, x: T)
    ensures IsSubsequence([x], s + [x])
    decreases |s|
  {
    if s == [] {
      assert [x][1..] == [];
    } else {
      assert (s + [x])[1..] == s[1..] + [x];
      SubsequenceExtendEmpty(s[1..], x);
    }
  }

  /** On sorted input the two modes of `unique` agree: collapsing runs then
      removes every repetition. */
  lemma {:induction false} UniqueSortedAgrees(s: seq<int>)
    requires SortedBy(IntLe, s)
    ensures UniqueRuns(s) == UniqueAll(s)
  {
    if |s| == 1 {
      assert s[..0] == [];
    } else if |s| > 1 {
      var init := s[..|s| - 1];
      var v := s[|s| - 1];
      var w := s[|s| - 2];
      assert SortedBy(IntLe, init) by {
        forall i, j | 0 <= i < j < |init|
          ensures IntLe(init[i], init[j])
        {
          assert init[i] == s[i] && init[j] == s[j];
        }
      }
      UniqueSortedAgrees(init);
      assert init[|init| - 1] == w;
      if v != w {
        forall x | x in init
          ensures x != v
        {
          var k :| 0 <= k < |init| && init[k] == x;
          assert IntLe(s[k], w) || k == |s| - 2;
        }
      }
    }
  }

  /** The first element and every element that differs from the one before
      it, read from the front: an independent statement of what
      `std::unique_copy` keeps. */
  function RunHeads<T(==)>(s: seq<T>): seq<T> {
    if |s| <= 1 then s
    else if s[0] == s[1] then RunHeads(s[1..])
    else [s[0]] + RunHeads(s[1..])
  }

  /** Appending an element extends the run heads exactly when it differs
      from the last element. */
  lemma {:induction false} RunHeadsSnoc<T>(s: seq<T>, x: T)
    ensures RunHeads(s + [x]) ==
      if s != [] && x == s[|s| - 1] then RunHeads(s) else RunHeads(s) + [x]
    decreases |s|
  {
    if |s| == 1 {
      assert s + [x] == [s[0], x];
      assert (s + [x])[1..] == [x];
    } else if |s| > 1 {
      assert (s + [x])[1..] == s[1..] + [x];
      assert (s + [x])[0] == s[0] && (s + [x])[1] == s[1];
      RunHeadsSnoc(s[1..], x);
      assert s[1..][|s| - 2] == s[|s| - 1];
    }
  }

  /** `unique(true)` keeps exactly the run heads: only runs of adjacent equal
      elements are collapsed, so equal values that are not neighbours all
      stay. */
  lemma {:induction false} UniqueRunsKeepsRunHeads<T(!new)>(s: seq<T>)
    ensures UniqueRuns(s) == RunHeads(s)
    decreases |s|
  {
    if |s| > 1 {
      var init := s[..|s| - 1];
      assert s == init + [s[|s| - 1]];
      UniqueRunsKeepsRunHeads(init);
      RunHeadsSnoc(init, s[|s| - 1]);
      assert init[|init| - 1] == s[|s| - 2];
    }
  }

  /** Values that recur apart are kept: `{1, 2, 1, 2}` stays as it is. */
  lemma UniqueRunsExample()
    ensures UniqueRuns([1, 2, 1, 2]) == [1, 2, 1, 2]
    ensures UniqueRuns([1, 1, 2, 2, 1]) == [1, 2, 1]
  {
    UniqueRunsKeepsRunHeads([1, 2, 1, 2]);
    UniqueRunsKeepsRunHeads([1, 1, 2, 2, 1]);
  }

  // ---------------------------------------------------------------------------
  // slice, reverse

  /** The exception `slice` throws: `std::length_error`. */
  datatype SliceError = LengthError

  /** `slice(start, end)`: the elements whose index lies in
      `[wrap(start), wrap(end))`. With the wrapped bounds reversed the source
      asks `reserve` for `end - start` elements; the negative count converts
      to a `size_t` beyond `max_size()`, so `reserve` throws
      `std::length_error` before anything is copied. */
  function Slice<T>(s: seq<T>, start: int, end: int): (r: Result<seq<T>, SliceError>)
    ensures r.Failure? <==> WrapPosition(end, |s|) < WrapPosition(start, |s|)
    ensures r.Success? ==>
      && |r.value| == WrapPosition(end, |s|) - WrapPosition(start, |s|)
      && forall i :: 0 <= i < |r.value| ==> r.value[i] == s[WrapPosition(start, |s|) + i]
  {
    var a := WrapPosition(start, |s|);
    var b := WrapPosition(end, |s|);
    if a == 0 && b == |s| then Success(s)
    else if b < a then Failure(LengthError)
    else Success(s[a..b])
  }

  /** `slice(start)`, with `end` at its default: never reversed, so it never
      throws. */
  function SliceFrom<T>(s: seq<T>, start: int): (r: seq<T>)
    requires |s| <= SsizeMax
    ensures r == s[WrapPosition(start, |s|)..]
  {
    Slice(s, start, SsizeMax).value
  }

  /** Slicing up to a position and from the same position splits the list. */
  lemma SliceSplit<T>(s: seq<T>, k: int)
    requires |s| <= SsizeMax
    ensures Slice(s, 0, k).Success?
    ensures Slice(s, 0, k).value + SliceFrom(s, k) == s
  {
    var a := WrapPosition(k, |s|);
    assert Slice(s, 0, k).value == s[..a];
    assert s[..a] + s[a..] == s;
  }

  /** Reversed bounds throw, even when both are in range. */
  lemma SliceReversedThrows()
    ensures Slice([1, 2, 3], 2, 1) == Failure(LengthError)
    ensures Slice([1, 2, 3], -1, -2) == Failure(LengthError)
  {
  }

  /** `slice(-1)` keeps only the last element, although the comment above
      the method promises all but the last. */
  lemma SliceMinusOne()
    ensures SliceFrom([1, 2, 3, 4, 5, 6], -1) == [6]
  {
  }

  /** `reverse()`: the elements in opposite order. */
  function Reverse<T>(s: seq<T>): (r: seq<T>)
    ensures |r| == |s|
    ensures forall i :: 0 <= i < |s| ==> r[i] == s[|s| - 1 - i]
  {
    if s == [] then [] else [s[|s| - 1]] + Reverse(s[..|s| - 1])
  }

  /** Reversing twice gives the list back. */
  lemma ReverseInvolution<T>(s: seq<T>)
    ensures Reverse(Reverse(s)) == s
  {
  }

  // ---------------------------------------------------------------------------
  // reduce, max, min

  /** `reduce(f, initial)`: the left fold `initial = f(v, initial)` over the
      list; the last element is the one applied last. */
  function Reduce<T, S>(f: (T, S) -> S, s: seq<T>, initial: S): (r: S)
    ensures s == [] ==> r == initial
    ensures s != [] ==> r == f(s[|s| - 1], Reduce(f, s[..|s| - 1], initial))
  {
    if s == [] then initial
    else
      var r := Reduce(f, s[1..], f(s[0], initial));
      assert |s| > 1 ==> s[1..][..|s| - 2] == s[..|s| - 1][1..] && s[1..][|s| - 2] == s[|s| - 1];
      assert |s| == 1 ==> s[..0] == [];
      r
  }

  /** Reducing a concatenation is reducing the second part from the first
      part's result. */
  lemma {:induction false} ReduceAppend<T, S>(f: (T, S) -> S, a: seq<T>, b: seq<T>, initial: S)
    ensures Reduce(f, a + b, initial) == Reduce(f, b, Reduce(f, a, initial))
  {
    if a == [] {
      assert a + b == b;
    } else {
      assert (a + b)[0] == a[0];
      assert (a + b)[1..] == a[1..] + b;
      ReduceAppend(f, a[1..], b, f(a[0], initial));
    }
  }

  /** `std::max(a, b)`. */
  function MaxOf(a: int, b: int): int {
    if a < b then b else a
  }

  /** `std::min(a, b)`. */
  function MinOf(a: int, b: int): int {
    if b < a then b else a
  }

  lemma {:induction false} ReduceMax(s: seq<int>, acc: int)
    ensures var r := Reduce(MaxOf, s, acc);
      && acc <= r
      && (forall i :: 0 <= i < |s| ==> s[i] <= r)
      && (r == acc || r in s)
  {
    if s != [] {
      ReduceMax(s[1..], MaxOf(s[0], acc));
      assert forall i :: 1 <= i < |s| ==> s[i] == s[1..][i - 1];
    }
  }

  lemma {:induction false} ReduceMin(s: seq<int>, acc: int)
    ensures var r := Reduce(MinOf, s, acc);
      && r <= acc
      && (forall i :: 0 <= i < |s| ==> r <= s[i])
      && (r == acc || r in s)
  {
    if s != [] {
      ReduceMin(s[1..], MinOf(s[0], acc));
      assert forall i :: 1 <= i < |s| ==> s[i] == s[1..][i - 1];
    }
  }

  /** `max()` on `int` elements: the fold starts from `int()`, which is 0, so
      the result is the largest of 0 and the elements. */
  function Max(s: seq<int>): (r: int)
    ensures r >= 0
    ensures forall i :: 0 <= i < |s| ==> s[i] <= r
    ensures r == 0 || r in s
  {
    ReduceMax(s, 0);
    Reduce(MaxOf, s, 0)
  }

  /** `min()` on `int` elements: the fold starts from the first element, which
      must therefore exist. */
  function Min(s: seq<int>): (r: int)
    requires |s| > 0
    ensures r in s
    ensures forall i :: 0 <= i < |s| ==> r <= s[i]
  {
    ReduceMin(s, s[0]);
    Reduce(MinOf, s, s[0])
  }

  // ---------------------------------------------------------------------------
  // find, any, all

  /** `find(v, first)`: the least index at or after `first` that holds `v`, or
      -1. `begin() + first` must stay within the list. */
  method Find<T(==)>(s: seq<T>, v: T, first: int) returns (r: int)
    requires 0 <= first <= |s|
    ensures r == -1 <==> v !in s[first..]
    ensures r != -1 ==> first <= r < |s| && s[r] == v && v !in s[first..r]
  {
    var i := first;
    while i != |s|
      invariant first <= i <= |s|
      invariant v !in s[first..i]
    {
      if s[i] == v {
        return i;
      }
      assert s[first..i + 1] == s[first..i] + [s[i]];
      i := i + 1;
    }
    return -1;
  }

  /** `any(f)`: some element satisfies `p`. */
  method AnySatisfies<T>(s: seq<T>, p: T -> bool) returns (r: bool)
    ensures r <==> exists i :: 0 <= i < |s| && p(s[i])
  {
    for i := 0 to |s|
      invariant forall j :: 0 <= j < i ==> !p(s[j])
    {
      if p(s[i]) {
        return true;
      }
    }
    return false;
  }

  /** `any(v)`: some element equals `v`. */
  method AnyEquals<T(==)>(s: seq<T>, v: T) returns (r: bool)
    ensures r <==> v in s
  {
    for i := 0 to |s|
      invariant v !in s[..i]
    {
      if s[i] == v {
        return true;
      }
      assert s[..i + 1] == s[..i] + [s[i]];
    }
    assert s[..|s|] == s;
    return false;
  }

  /** `all(f)`: every element satisfies `p`; true on an empty list. */
  method AllSatisfy<T>(s: seq<T>, p: T -> bool) returns (r: bool)
    ensures r <==> forall i :: 0 <= i < |s| ==> p(s[i])
  {
    for i := 0 to |s|
      invariant forall j :: 0 <= j < i ==> p(s[j])
    {
      if !p(s[i]) {
        return false;
      }
    }
    return true;
  }

  /** `all(v)`: every element equals `v`; true on an empty list. */
  method AllEqual<T(==)>(s: seq<T>, v: T) returns (r: bool)
    ensures r <==> forall i :: 0 <= i < |s| ==> s[i] == v
  {
    for i := 0 to |s|
      invariant forall j :: 0 <= j < i ==> s[j] == v
    {
      if s[i] != v {
        return false;
      }
    }
    return true;
  }

  // ---------------------------------------------------------------------------
  // unzip, to_map

  /** `unzip()`: the first and the second components, position by position,
      so pairing them again gives back the input. */
  function Unzip<A, B>(s: seq<(A, B)>): (r: (seq<A>, seq<B>))
    ensures |r.0| == |s| && |r.1| == |s|
    ensures forall i :: 0 <= i < |s| ==> s[i] == (r.0[i], r.1[i])
  {
    if s == [] then ([], [])
    else
      var rest := Unzip(s[1..]);
      ([s[0].0] + rest.0, [s[0].1] + rest.1)
  }

  /** Position `i` holds the last pair of `s` with its key. */
  ghost predicate LastWithKey<A, B>(s: seq<(A, B)>, i: int) {
    0 <= i < |s| && forall j :: i < j < |s| ==> s[j].0 != s[i].0
  }

  /** `to_map()`: one entry per key, holding the value of the last pair with
      that key (later writes overwrite earlier ones). */
  method ToMap<A(==), B>(s: seq<(A, B)>) returns (m: map<A, B>)
    ensures m.Keys == set i | 0 <= i < |s| :: s[i].0
    ensures forall i :: LastWithKey(s, i) ==> m[s[i].0] == s[i].1
  {
    m := map[];
    for n := 0 to |s|
      invariant m.Keys == set i | 0 <= i < n :: s[i].0
      invariant forall i :: LastWithKey(s[..n], i) ==> s[i].0 in m && m[s[i].0] == s[i].1
    {
      m := m[s[n].0 := s[n].1];
      forall i | LastWithKey(s[..n + 1], i)
        ensures s[i].0 in m && m[s[i].0] == s[i].1
      {
        if i < n {
          assert LastWithKey(s[..n], i);
        }
      }
    }
    assert s[..|s|] == s;
  }
}
