/** Ranges: the half-open `range<int>` of consecutive `int`s, whose iterator
    is the number itself, and the generic `range<I>` between two iterators
    into a vector. `size()` is a `size_t`, so a reversed range has a
    wrapped-around size. */
module Ranges {
  import Sequence
  import Decimal

  const IntMin: int := -0x8000_0000
  const IntMax: int := 0x7fff_ffff
  /** One more than the largest `size_t`. */
  const SizeModulus: int := 0x1_0000_0000_0000_0000

  predicate IsInt(x: int) {
    IntMin <= x <= IntMax
  }

  /** A signed difference converted to `size_t`. */
  function ToSize(x: int): nat {
    x % SizeModulus
  }

  // ---------------------------------------------------------------------------
  // range<int>

  datatype IntRange = IntRange(b: int, e: int)

  /** `size()`: `end - begin` computed on `int` (which must not overflow) and
      returned as a `size_t`, so it wraps below zero. */
  function Size(r: IntRange): (n: nat)
    requires IsInt(r.e - r.b)
    ensures n < SizeModulus
    ensures r.b <= r.e ==> n == r.e - r.b
    ensures r.e < r.b ==> n == SizeModulus - (r.b - r.e)
  {
    ToSize(r.e - r.b)
  }

  /** `at(p)`: the iterator `begin + p` dereferenced, with `p` converted to
      `int` and the sum computed on `int`: the `p`-th value of the range
      within its size, and a number at or past `end` beyond it. */
  function At(r: IntRange, p: nat): (v: int)
    requires p <= IntMax && IsInt(r.b + p)
    ensures r.b <= r.e && p < r.e - r.b ==> v == Values(r)[p]
    ensures r.b <= r.e && p >= r.e - r.b ==> v >= r.e
  {
    r.b + p
  }

  /** `empty()`: the two ends are equal, which is exactly a size of zero. */
  function Empty(r: IntRange): (z: bool)
    ensures z <==> r.b == r.e
    ensures IsInt(r.e - r.b) ==> (z <==> Size(r) == 0)
  {
    r.b == r.e
  }

  /** The numbers of a range, first to last. */
  function Values(r: IntRange): (s: seq<int>)
    requires r.b <= r.e
  {
    seq(r.e - r.b, k requires 0 <= k < r.e - r.b => r.b + k)
  }

  /** A loop from `begin()` with `++` while `!= end()`, dereferencing each
      iterator: it visits `b, b + 1, ..., e - 1`, as many values as `size()`
      says, the `k`-th being `at(k)`. */
  method Iterate(r: IntRange) returns (out: seq<int>)
    requires IsInt(r.b) && IsInt(r.e) && r.b <= r.e
    ensures |out| == r.e - r.b
    ensures forall k :: 0 <= k < |out| ==> out[k] == r.b + k
    ensures IsInt(r.e - r.b) ==> |out| == Size(r) && forall k :: 0 <= k < |out| ==> out[k] == At(r, k)
    ensures out == Values(r)
  {
    var it := r.b;
    out := [];
    while it != r.e
      invariant r.b <= it <= r.e
      invariant |out| == it - r.b
      invariant forall k :: 0 <= k < |out| ==> out[k] == r.b + k
      decreases r.e - it
    {
      out := out + [it];
      it := it + 1;
    }
  }

  // ---------------------------------------------------------------------------
  // range<I>

  /** A range between two iterators into `data`, given as positions. */
  datatype IterRange<T> = IterRange(data: seq<T>, b: nat, e: nat)

  /** `size()`: `end - begin` as a `size_t`; a vector holds fewer than 2^64
      elements. */
  function IterSize<T>(r: IterRange<T>): (n: nat)
    requires r.b <= |r.data| && r.e <= |r.data| && |r.data| < SizeModulus
    ensures r.b <= r.e ==> n == r.e - r.b
    ensures r.e < r.b ==> n == SizeModulus - (r.b - r.e)
  {
    ToSize(r.e - r.b)
  }

  /** `at(p)`: the element `p` places after `begin`, one of the range's
      elements when `p` is within its size. */
  function IterAt<T>(r: IterRange<T>, p: nat): (v: T)
    requires r.b + p < |r.data|
    ensures r.b + p < r.e <= |r.data| ==> v in r.data[r.b..r.e]
  {
    r.data[r.b + p]
  }

  /** `empty()`: `begin == end`. */
  function IterEmpty<T>(r: IterRange<T>): (z: bool)
    ensures z <==> r.b == r.e
  {
    r.b == r.e
  }

  /** The elements of a range, first to last. */
  function Elements<T>(r: IterRange<T>): (s: seq<T>)
    requires r.b <= r.e <= |r.data| < SizeModulus
    ensures |s| == IterSize(r)
    ensures forall k :: 0 <= k < |s| ==> s[k] == IterAt(r, k)
    ensures IterEmpty(r) <==> s == []
  {
    r.data[r.b..r.e]
  }

  // ---------------------------------------------------------------------------
  // Joining a range

  /** `_(1, 6).join()` and the range over the vector {1, 2, 3, 4, 5} both
      join to "1, 2, 3, 4, 5". */
  lemma JoinExample()
    ensures Values(IntRange(1, 6)) == [1, 2, 3, 4, 5]
    ensures Elements(IterRange([1, 2, 3, 4, 5], 0, 5)) == [1, 2, 3, 4, 5]
    ensures Sequence.Join(Decimal.ShowInt, [1, 2, 3, 4, 5], ", ") == "1, 2, 3, 4, 5"
  {
    var xs := [1, 2, 3, 4, 5];
    var shown := Sequence.Map(Decimal.ShowInt, xs);
    ShowSmall();
    assert |shown| == 5;
    assert shown[0] == "1" && shown[1] == "2" && shown[2] == "3" && shown[3] == "4" && shown[4] == "5";
    assert shown == ["1", "2", "3", "4", "5"];
    JoinFiveExample();
  }

  /** The renderings of 1 to 5. */
  lemma ShowSmall()
    ensures Decimal.ShowInt(1) == "1" && Decimal.ShowInt(2) == "2" && Decimal.ShowInt(3) == "3"
    ensures Decimal.ShowInt(4) == "4" && Decimal.ShowInt(5) == "5"
  {
  }

  /** Joining the five renderings with ", ". */
  lemma JoinFiveExample()
    ensures Sequence.JoinParts(["1", "2", "3", "4", "5"], ", ") == "1, 2, 3, 4, 5"
  {
  }
}
