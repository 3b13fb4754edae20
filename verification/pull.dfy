/** The pull generators of the prototype: `genlist` over a vector with a
    cursor, and `genmap` / `genfilter` wrapped around a predecessor. Each can
    be drained by pulling (`eog()` / `get_next()`) or by pushing
    (`process(next)`). A generator is a value; `get_next` returns the value
    or the `eog` it threw together with the generator it leaves behind. */
module PullGenerators {
  import opened Results
  import Sequence
  import Plan

  datatype Gen =
    | GenList(v: seq<string>, n: nat)
    | GenMap(f: string -> string, prev: Gen)
    | GenFilter(p: string -> bool, prev: Gen)

  /** The `eog` exception: the generator has nothing more to give. */
  datatype EndOfGenerator = Eog

  /** The vector at the bottom of the generator. */
  function Source(g: Gen): seq<string> {
    match g
    case GenList(v, _) => v
    case GenMap(_, prev) => Source(prev)
    case GenFilter(_, prev) => Source(prev)
  }

  /** The cursor of the `genlist` at the bottom. */
  function Cursor(g: Gen): nat {
    match g
    case GenList(_, n) => n
    case GenMap(_, prev) => Cursor(prev)
    case GenFilter(_, prev) => Cursor(prev)
  }

  /** The wrappers from the innermost out, as plan stages. */
  function Stages(g: Gen): seq<Plan.Stage> {
    match g
    case GenList(_, _) => []
    case GenMap(f, prev) => Stages(prev) + [Plan.Map(f)]
    case GenFilter(p, prev) => Stages(prev) + [Plan.Filter(p)]
  }

  /** The elements the cursor has not reached. */
  function Rest(g: Gen): seq<string> {
    if Cursor(g) <= |Source(g)| then Source(g)[Cursor(g)..] else []
  }

  /** `map(f)` / `filter(f)` on any generator: wrap it, keeping its cursor. */
  function Map(g: Gen, f: string -> string): (r: Gen)
    ensures Source(r) == Source(g) && Cursor(r) == Cursor(g)
    ensures Stages(r) == Stages(g) + [Plan.Map(f)]
  {
    GenMap(f, g)
  }

  function Filter(g: Gen, p: string -> bool): (r: Gen)
    ensures Source(r) == Source(g) && Cursor(r) == Cursor(g)
    ensures Stages(r) == Stages(g) + [Plan.Filter(p)]
  {
    GenFilter(p, g)
  }

  /** `eog()`: the list's cursor is at or past its end; the wrappers ask
      their predecessor. */
  function IsEog(g: Gen): (r: bool)
    ensures r <==> Rest(g) == []
  {
    match g
    case GenList(v, n) => n >= |v|
    case GenMap(_, prev) => IsEog(prev)
    case GenFilter(_, prev) => IsEog(prev)
  }

  /** Every element from `from` on is dropped by the stages. */
  ghost predicate Exhausted(ss: seq<Plan.Stage>, src: seq<string>, from: nat) {
    forall k :: from <= k < |src| ==> Plan.Pass(ss, src[k]).None?
  }

  /** Pulling from cursor `from` consumed the elements up to cursor `to`: the
      last one came out as `x` and the ones before it were dropped. */
  ghost predicate Yields(ss: seq<Plan.Stage>, src: seq<string>, from: nat, to: nat, x: string) {
    && from < to <= |src|
    && (forall k :: from <= k < to - 1 ==> Plan.Pass(ss, src[k]).None?)
    && Plan.Pass(ss, src[to - 1]) == Some(x)
  }

  /** What a call of `get_next()` leaves behind: the value it returned or
      the `eog` it threw, and the generator in the state the call left it,
      which has moved on in either case. */
  datatype Pull = Pull(out: Result<string, EndOfGenerator>, after: Gen)

  /** `get_next()`: the list returns the element at its cursor and moves it
      on, or throws `eog` at its end without moving; a map applies its
      function to what its predecessor returns; a filter pulls until an
      element satisfies its predicate, and when its predecessor runs out it
      throws with the predecessor left at its end. The generator keeps its
      shape, the value is the next one the stages let through, and `eog`
      means none is left and leaves the generator at its end. */
  function GetNext(g: Gen): (r: Pull)
    ensures Source(r.after) == Source(g) && Stages(r.after) == Stages(g)
    ensures r.out.Success? ==> Yields(Stages(g), Source(g), Cursor(g), Cursor(r.after), r.out.value)
    ensures r.out.Failure? ==> Exhausted(Stages(g), Source(g), Cursor(g)) && IsEog(r.after)
    decreases |Rest(g)|, g, 0
  {
    match g
    case GenList(v, n) =>
      if n >= |v| then Pull(Failure(Eog), g) else Pull(Success(v[n]), GenList(v, n + 1))
    case GenMap(f, prev) =>
      var r := GetNext(prev);
      if r.out.Failure? then
        MapKeepsExhausted(prev, f);
        Pull(Failure(Eog), GenMap(f, r.after))
      else
        MapKeepsYields(prev, f, r.after, r.out.value);
        Pull(Success(f(r.out.value)), GenMap(f, r.after))
    case GenFilter(p, prev) =>
      FilterNext(p, prev)
  }

  /** The loop of `genfilter::get_next` on predecessor `prev`. */
  function FilterNext(p: string -> bool, prev: Gen): (r: Pull)
    ensures Source(r.after) == Source(prev) && Stages(r.after) == Stages(GenFilter(p, prev))
    ensures r.out.Success? ==> Yields(Stages(GenFilter(p, prev)), Source(prev), Cursor(prev), Cursor(r.after), r.out.value)
    ensures r.out.Failure? ==> Exhausted(Stages(GenFilter(p, prev)), Source(prev), Cursor(prev)) && IsEog(r.after)
    decreases |Rest(prev)|, prev, 1
  {
    if IsEog(prev) then Pull(Failure(Eog), GenFilter(p, prev))
    else
      var r := GetNext(prev);
      if r.out.Failure? then
        FilterKeepsExhausted(prev, p);
        Pull(Failure(Eog), GenFilter(p, r.after))
      else
        var x, next := r.out.value, r.after;
        if p(x) then
          FilterKeepsYields(prev, p, next, x);
          Pull(Success(x), GenFilter(p, next))
        else
          var more := FilterNext(p, next);
          FilterSkips(prev, p, next, x, more);
          more
  }

  lemma MapKeepsExhausted(prev: Gen, f: string -> string)
    requires Exhausted(Stages(prev), Source(prev), Cursor(prev))
    ensures Exhausted(Stages(GenMap(f, prev)), Source(prev), Cursor(prev))
  {
    var src := Source(prev);
    forall k | Cursor(prev) <= k < |src|
      ensures Plan.Pass(Stages(prev) + [Plan.Map(f)], src[k]).None?
    {
      Plan.PassSnoc(Stages(prev), Plan.Map(f), src[k]);
    }
  }

  lemma MapKeepsYields(prev: Gen, f: string -> string, next: Gen, x: string)
    requires Yields(Stages(prev), Source(prev), Cursor(prev), Cursor(next), x)
    ensures Yields(Stages(GenMap(f, prev)), Source(prev), Cursor(prev), Cursor(next), f(x))
  {
    var src := Source(prev);
    var ss := Stages(prev);
    forall k | Cursor(prev) <= k < Cursor(next) - 1
      ensures Plan.Pass(ss + [Plan.Map(f)], src[k]).None?
    {
      Plan.PassSnoc(ss, Plan.Map(f), src[k]);
    }
    Plan.PassSnoc(ss, Plan.Map(f), src[Cursor(next) - 1]);
    assert [Plan.Map(f)][1..] == [];
  }

  lemma FilterKeepsExhausted(prev: Gen, p: string -> bool)
    requires Exhausted(Stages(prev), Source(prev), Cursor(prev))
    ensures Exhausted(Stages(GenFilter(p, prev)), Source(prev), Cursor(prev))
  {
    var src := Source(prev);
    forall k | Cursor(prev) <= k < |src|
      ensures Plan.Pass(Stages(prev) + [Plan.Filter(p)], src[k]).None?
    {
      Plan.PassSnoc(Stages(prev), Plan.Filter(p), src[k]);
    }
  }

  lemma FilterKeepsYields(prev: Gen, p: string -> bool, next: Gen, x: string)
    requires Yields(Stages(prev), Source(prev), Cursor(prev), Cursor(next), x)
    requires p(x)
    ensures Yields(Stages(GenFilter(p, prev)), Source(prev), Cursor(prev), Cursor(next), x)
  {
    var src := Source(prev);
    var ss := Stages(prev);
    forall k | Cursor(prev) <= k < Cursor(next) - 1
      ensures Plan.Pass(ss + [Plan.Filter(p)], src[k]).None?
    {
      Plan.PassSnoc(ss, Plan.Filter(p), src[k]);
    }
    Plan.PassSnoc(ss, Plan.Filter(p), src[Cursor(next) - 1]);
    assert [Plan.Filter(p)][1..] == [];
  }

  /** An element the filter rejects joins the dropped ones before whatever
      the rest of the loop finds. */
  lemma FilterSkips(prev: Gen, p: string -> bool, next: Gen, x: string, more: Pull)
    requires Yields(Stages(prev), Source(prev), Cursor(prev), Cursor(next), x)
    requires !p(x)
    requires Source(next) == Source(prev) && Stages(next) == Stages(prev)
    requires more.out.Success? ==> Yields(Stages(GenFilter(p, next)), Source(next), Cursor(next), Cursor(more.after), more.out.value)
    requires more.out.Failure? ==> Exhausted(Stages(GenFilter(p, next)), Source(next), Cursor(next))
    ensures more.out.Success? ==> Yields(Stages(GenFilter(p, prev)), Source(prev), Cursor(prev), Cursor(more.after), more.out.value)
    ensures more.out.Failure? ==> Exhausted(Stages(GenFilter(p, prev)), Source(prev), Cursor(prev))
  {
    var src := Source(prev);
    var ss := Stages(prev);
    var all := ss + [Plan.Filter(p)];
    assert Stages(GenFilter(p, next)) == all;
    forall k | Cursor(prev) <= k < Cursor(next)
      ensures Plan.Pass(all, src[k]).None?
    {
      Plan.PassSnoc(ss, Plan.Filter(p), src[k]);
      if k == Cursor(next) - 1 {
        assert [Plan.Filter(p)][1..] == [];
      }
    }
  }

  /** A filter's `eog()` asks its predecessor only, so `false` does not
      promise a value: a filter rejecting everything over a non-empty list is
      not at its end and still throws `eog`, and the throw leaves it at its
      end. */
  lemma EogDoesNotPromiseValue()
    ensures var g := GenFilter((s: string) => false, GenList(["a"], 0));
            && !IsEog(g)
            && GetNext(g).out == Failure(Eog)
            && GetNext(g).after == GenFilter((s: string) => false, GenList(["a"], 1))
            && IsEog(GetNext(g).after)
  {
    var g := GenFilter((s: string) => false, GenList(["a"], 0));
    assert GetNext(GenList(["a"], 0)) == Pull(Success("a"), GenList(["a"], 1));
    assert IsEog(GenList(["a"], 1));
  }

  /** `process(next)` calls `next` once for each value this list of calls
      holds, in order: the list pushes every element of its vector, whatever
      its cursor; a map pushes `f` of what its predecessor pushes; a filter
      passes on what satisfies `p`. The calls are the eager map/filter fold
      of the whole vector. */
  function Process(g: Gen): (r: seq<string>)
    ensures r == Plan.Eager(Stages(g), Source(g))
  {
    match g
    case GenList(v, _) => v
    case GenMap(f, prev) =>
      Plan.EagerSnoc(Stages(prev), Plan.Map(f), Source(prev));
      Sequence.Map(f, Process(prev))
    case GenFilter(p, prev) =>
      Plan.EagerSnoc(Stages(prev), Plan.Filter(p), Source(prev));
      Sequence.Filter(p, Process(prev))
  }

  /** The template `to_vector(gm)` as compiled: `process` with a continuation
      that appends to the result. */
  function ToVector(g: Gen): (r: seq<string>)
    ensures r == Plan.Eager(Stages(g), Source(g))
  {
    Process(g)
  }

  /** The disabled branch of `to_vector`: pull with `get_next` while `eog()`
      is false, stopping at the first `eog` thrown. It collects the values
      the stages let through among the elements the cursor has not reached. */
  function PullDrain(g: Gen): (r: seq<string>)
    ensures r == Plan.Collect(Stages(g), Rest(g))
    decreases |Rest(g)|
  {
    if IsEog(g) then []
    else
      var r := GetNext(g);
      if r.out.Failure? then
        Plan.CollectSkipsDropped(Stages(g), Source(g), Cursor(g), |Source(g)|);
        []
      else
        var x, next := r.out.value, r.after;
        PullStep(g, next, x);
        [x] + PullDrain(next)
  }

  /** One successful `get_next`: the collected rest is the value followed by
      the collected rest after it. */
  lemma PullStep(g: Gen, next: Gen, x: string)
    requires Source(next) == Source(g) && Stages(next) == Stages(g)
    requires Yields(Stages(g), Source(g), Cursor(g), Cursor(next), x)
    ensures Plan.Collect(Stages(g), Rest(g)) == [x] + Plan.Collect(Stages(g), Rest(next))
  {
    var ss := Stages(g);
    var src := Source(g);
    Plan.CollectSkipsDropped(ss, src, Cursor(g), Cursor(next) - 1);
    Plan.CollectStep(ss, src, Cursor(next) - 1);
  }

  /** On a fresh pipeline the push drain and the pull drain give the same
      list: the map/filter fold of the source. */
  lemma PushPullAgree(g: Gen)
    requires Cursor(g) == 0
    ensures PullDrain(g) == ToVector(g)
  {
    assert Rest(g) == Source(g);
    Plan.EagerIsCollect(Stages(g), Source(g));
  }

  // The prototype's example pipeline.

  const ExampleWords: seq<string> := ["Hola", "Mundo!", "Mundito", "Que", "Tal"]

  function IsLong(s: string): bool {
    |s| > 4
  }

  function AddEllipsis(s: string): string {
    s + "..."
  }

  function Same(s: string): string {
    s
  }

  function NonEmpty(s: string): bool {
    |s| > 0
  }

  function PrefixEllipsis(s: string): string {
    "..." + s
  }

  /** The first filter keeps the two long words. */
  lemma ExampleFirstFilter()
    ensures Sequence.Filter(IsLong, ExampleWords) == ["Mundo!", "Mundito"]
  {
    var w := ExampleWords;
    assert w[1..] == ["Mundo!", "Mundito", "Que", "Tal"];
    assert w[2..] == ["Mundito", "Que", "Tal"];
    assert w[3..] == ["Que", "Tal"];
    assert w[4..] == ["Tal"];
    assert w[4..][1..] == [];
    assert Sequence.Filter(IsLong, w[3..]) == [] by {
      assert w[3..][1..] == w[4..];
    }
    assert Sequence.Filter(IsLong, w[2..]) == ["Mundito"] by {
      assert w[2..][1..] == w[3..];
    }
    assert w[1..][1..] == w[2..];
  }

  /** A filter that keeps both of two values gives them back. */
  lemma FilterKeepsPair(p: string -> bool, a: string, b: string)
    requires p(a) && p(b)
    ensures Sequence.Filter(p, [a, b]) == [a, b]
  {
    assert [a, b][1..] == [b];
    assert [b][1..] == [];
  }

  /** The values the two maps of the example compute. */
  lemma EllipsisValues()
    ensures AddEllipsis("Mundo!") == "Mundo!..." && AddEllipsis("Mundito") == "Mundito..."
    ensures PrefixEllipsis("Mundo!...") == "...Mundo!..." && PrefixEllipsis("Mundito...") == "...Mundito..."
  {
  }

  /** Mapping two values. */
  lemma MapPair(f: string -> string, a: string, b: string)
    ensures Sequence.Map(f, [a, b]) == [f(a), f(b)]
  {
  }

  /** The example of the prototype's `main`: "Hola", "Mundo!", "Mundito",
      "Que", "Tal" through filter(length > 4), map(+ "..."),
      filter(length > 4), map(identity), filter(non-empty) and
      map("..." +) gives "...Mundo!..." and "...Mundito...". */
  lemma ExamplePipeline()
    ensures ToVector(Map(Filter(Map(Filter(Map(Filter(GenList(ExampleWords, 0), IsLong), AddEllipsis), IsLong), Same), NonEmpty), PrefixEllipsis))
            == ["...Mundo!...", "...Mundito..."]
  {
    var g1 := Filter(GenList(ExampleWords, 0), IsLong);
    ExampleFirstFilter();
    assert Process(g1) == ["Mundo!", "Mundito"];
    var g2 := Map(g1, AddEllipsis);
    var s2 := ["Mundo!...", "Mundito..."];
    MapPair(AddEllipsis, "Mundo!", "Mundito");
    EllipsisValues();
    assert Process(g2) == s2;
    var g3 := Filter(g2, IsLong);
    FilterKeepsPair(IsLong, s2[0], s2[1]);
    assert Process(g3) == s2;
    var g4 := Map(g3, Same);
    assert Process(g4) == s2;
    var g5 := Filter(g4, NonEmpty);
    FilterKeepsPair(NonEmpty, s2[0], s2[1]);
    assert Process(g5) == s2;
    var g6 := Map(g5, PrefixEllipsis);
    MapPair(Same, s2[0], s2[1]);
    MapPair(PrefixEllipsis, s2[0], s2[1]);
    assert Process(g6) == ["...Mundo!...", "...Mundito..."];
  }
}
