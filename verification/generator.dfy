/** The lazy `generator`: a list of strings and a plan of filter and map
    stages. `filter` and `map` return a new generator whose plan is a copy of
    the receiver's with one more stage; iterating runs each element through
    a private copy of the plan that ends in a sink. */
module Generator {
  import opened Results
  import Sequence
  import Underscore
  import Plan

  datatype Generator = Generator(data: seq<string>, plan: Plan.Chain)

  /** The private `push_back(item)`: a generator over the same data whose plan
      is a copy of this one's with `item` hung at the tail, or `item` itself
      when there is no plan yet. */
  function PushBack(g: Generator, item: Plan.Chain): (r: Generator)
    requires item.Node?
    ensures r.data == g.data
    ensures r.plan.Node?
    ensures Plan.Stages(r.plan) == Plan.Stages(g.plan) + Plan.Stages(item)
  {
    if g.plan.Node? then Generator(g.data, Plan.Append(Plan.Copy(g.plan), item))
    else Generator(g.data, item)
  }

  /** `filter(f) const`: one more filter stage at the tail of a copy. */
  function Filter(g: Generator, p: string -> bool): (r: Generator)
    ensures r.data == g.data
    ensures Plan.Stages(r.plan) == Plan.Stages(g.plan) + [Plan.Filter(p)]
  {
    PushBack(g, Plan.Node(Plan.Filter(p), Plan.End))
  }

  /** `map(f) const`: one more map stage at the tail of a copy. */
  function Map(g: Generator, f: string -> string): (r: Generator)
    ensures r.data == g.data
    ensures Plan.Stages(r.plan) == Plan.Stages(g.plan) + [Plan.Map(f)]
  {
    PushBack(g, Plan.Node(Plan.Map(f), Plan.End))
  }

  /** A generator whose plan holds only what `filter` and `map` add. */
  predicate WellFormed(g: Generator) {
    Plan.Pipeline(Plan.Stages(g.plan))
  }

  /** `filter` and `map` add no sink, so they keep a generator well formed. */
  lemma BuildersKeepWellFormed(g: Generator, p: string -> bool, f: string -> string)
    requires WellFormed(g)
    ensures WellFormed(Filter(g, p)) && WellFormed(Map(g, f))
  {
    var ss := Plan.Stages(g.plan);
    assert forall i :: 0 <= i < |ss + [Plan.Filter(p)]| ==> (ss + [Plan.Filter(p)])[i] == if i < |ss| then ss[i] else Plan.Filter(p);
    assert forall i :: 0 <= i < |ss + [Plan.Map(f)]| ==> (ss + [Plan.Map(f)])[i] == if i < |ss| then ss[i] else Plan.Map(f);
  }

  // ---------------------------------------------------------------------------
  // iterator

  /** `generator::iterator`: its own plan (ending in its sink), a cursor into
      the data, the last value the sink recorded and whether it recorded one
      since the cursor last moved. */
  datatype Iterator = Iterator(plan: Plan.Chain, data: seq<string>, current: nat, val: string, computed: bool)

  /** The stages of an iterator's plan before its sink. */
  function Upstream(c: Plan.Chain): seq<Plan.Stage>
    requires c.Node?
  {
    var ss := Plan.Stages(c);
    ss[..|ss| - 1]
  }

  /** The plan an iterator builds: the user's stages followed by one sink. */
  predicate SinkTerminated(c: Plan.Chain) {
    var ss := Plan.Stages(c);
    && c.Node?
    && ss[|ss| - 1].Sink?
    && Plan.Pipeline(ss[..|ss| - 1])
  }

  /** The stages of a sink-terminated plan are its upstream and the sink. */
  lemma SinkTerminatedStages(c: Plan.Chain)
    requires SinkTerminated(c)
    ensures Plan.Stages(c) == Upstream(c) + [Plan.Sink]
  {
    var ss := Plan.Stages(c);
    assert ss == ss[..|ss| - 1] + [ss[|ss| - 1]];
  }

  /** `compute_value()`: move the cursor forward until the sink records a
      value or the data runs out. The chain ends in the sink, so no stage
      throws here and every other outcome moves the cursor on. */
  function ComputeValue(it: Iterator): (r: Iterator)
    requires SinkTerminated(it.plan) && it.current <= |it.data|
    ensures r.plan == it.plan && r.data == it.data
    ensures it.current <= r.current <= |r.data|
    ensures forall k :: it.current <= k < r.current ==> Plan.Pass(Upstream(it.plan), it.data[k]).None?
    ensures r.computed <==> r.current < |r.data|
    ensures r.current < |r.data| ==> Plan.Pass(Upstream(it.plan), it.data[r.current]) == Some(r.val)
    decreases |it.data| - it.current
  {
    var it := it.(computed := false);
    if it.current == |it.data| then it
    else
      SinkTerminatedStages(it.plan);
      Plan.InvokeWithSink(it.plan, Upstream(it.plan), it.data[it.current]);
      var o := Plan.Invoke(it.plan, it.data[it.current]);
      if o.Captured? then it.(val := o.value, computed := true)
      else ComputeValue(it.(current := it.current + 1))
  }

  /** The constructor: copy the plan, append the sink, and compute the first
      value from `current` on. */
  function NewIterator(plan: Plan.Chain, data: seq<string>, current: nat): (r: Iterator)
    requires plan.Node? && Plan.Pipeline(Plan.Stages(plan))
    requires current <= |data|
    ensures SinkTerminated(r.plan) && Upstream(r.plan) == Plan.Stages(plan)
    ensures r.data == data && current <= r.current <= |data|
    ensures forall k :: current <= k < r.current ==> Plan.Pass(Plan.Stages(plan), data[k]).None?
    ensures r.current < |data| ==> Plan.Pass(Plan.Stages(plan), data[r.current]) == Some(r.val)
  {
    var own := Plan.Append(Plan.Copy(plan), Plan.Node(Plan.Sink, Plan.End));
    var ss := Plan.Stages(plan);
    assert Plan.Stages(own) == ss + [Plan.Sink];
    assert Plan.Stages(own)[..|ss|] == ss;
    ComputeValue(Iterator(own, data, current, "", false))
  }

  /** `begin()`: an iterator at the first element that gets through the
      plan. The source dereferences the plan, so there must be one. */
  function Begin(g: Generator): (r: Iterator)
    requires g.plan.Node? && WellFormed(g)
    ensures SinkTerminated(r.plan) && Upstream(r.plan) == Plan.Stages(g.plan) && r.data == g.data
    ensures r.current <= |g.data|
    ensures forall k :: 0 <= k < r.current ==> Plan.Pass(Plan.Stages(g.plan), g.data[k]).None?
    ensures r.current < |g.data| ==> Plan.Pass(Plan.Stages(g.plan), g.data[r.current]) == Some(r.val)
  {
    NewIterator(g.plan, g.data, 0)
  }

  /** `end()`: an iterator whose cursor is past the data. */
  function End(g: Generator): (r: Iterator)
    requires g.plan.Node? && WellFormed(g)
    ensures r.current == |g.data|
  {
    NewIterator(g.plan, g.data, |g.data|)
  }

  /** `operator*()`: the value the sink last recorded. `BeginDerefIsFirst`
      and `Iterate` state what that value is. */
  function Deref(it: Iterator): string {
    it.val
  }

  /** `operator++()`: step past the current element and compute the next value. */
  function Advance(it: Iterator): (r: Iterator)
    requires SinkTerminated(it.plan) && it.current < |it.data|
    ensures r.plan == it.plan && r.data == it.data
    ensures it.current < r.current <= |r.data|
    ensures forall k :: it.current < k < r.current ==> Plan.Pass(Upstream(it.plan), it.data[k]).None?
    ensures r.current < |r.data| ==> Plan.Pass(Upstream(it.plan), it.data[r.current]) == Some(r.val)
  {
    ComputeValue(it.(current := it.current + 1))
  }

  /** `operator!=`: the cursors differ; the recorded values play no part.
      `BeginDerefIsFirst` and `Iterate` state what comparing with `end()`
      decides. */
  function NotEqual(a: Iterator, b: Iterator): bool {
    a.current != b.current
  }

  /** A range-for over the generator: from `begin()`, dereference and advance
      until the iterator equals `end()`. The values it visits are the data
      run through the plan's stages: the eager map/filter fold. */
  method Iterate(g: Generator) returns (out: seq<string>)
    requires g.plan.Node? && WellFormed(g)
    ensures out == Plan.Eager(Plan.Stages(g.plan), g.data)
  {
    var ss := Plan.Stages(g.plan);
    var it := Begin(g);
    var stop := End(g);
    Plan.CollectSkipsDropped(ss, g.data, 0, it.current);
    assert g.data[0..] == g.data;
    out := [];
    while NotEqual(it, stop)
      invariant SinkTerminated(it.plan) && Upstream(it.plan) == ss && it.data == g.data
      invariant it.current <= |g.data|
      invariant it.current < |g.data| ==> Plan.Pass(ss, g.data[it.current]) == Some(it.val)
      invariant out + Plan.Collect(ss, g.data[it.current..]) == Plan.Collect(ss, g.data)
      decreases |g.data| - it.current
    {
      var next := Advance(it);
      CollectAdvance(ss, g.data, out, it.current, it.val, next.current);
      out := out + [Deref(it)];
      it := next;
    }
    assert g.data[|g.data|..] == [];
    Plan.EagerIsCollect(ss, g.data);
  }

  /** One round of `Iterate`: the value at the cursor is emitted and the
      values up to the next cursor are dropped. */
  lemma CollectAdvance(ss: seq<Plan.Stage>, data: seq<string>, out: seq<string>, c: nat, val: string, n: nat)
    requires c < n <= |data|
    requires Plan.Pass(ss, data[c]) == Some(val)
    requires forall k :: c < k < n ==> Plan.Pass(ss, data[k]).None?
    requires out + Plan.Collect(ss, data[c..]) == Plan.Collect(ss, data)
    ensures (out + [val]) + Plan.Collect(ss, data[n..]) == Plan.Collect(ss, data)
  {
    Plan.CollectStep(ss, data, c);
    Plan.CollectSkipsDropped(ss, data, c + 1, n);
  }

  /** `begin() != end()` exactly when the generator yields something, and
      then `*begin()` is the first value it yields. */
  lemma BeginDerefIsFirst(g: Generator)
    requires g.plan.Node? && WellFormed(g)
    ensures NotEqual(Begin(g), End(g)) <==> Plan.Eager(Plan.Stages(g.plan), g.data) != []
    ensures NotEqual(Begin(g), End(g)) ==> Deref(Begin(g)) == Plan.Eager(Plan.Stages(g.plan), g.data)[0]
  {
    var ss := Plan.Stages(g.plan);
    var it := Begin(g);
    Plan.EagerIsCollect(ss, g.data);
    Plan.CollectSkipsDropped(ss, g.data, 0, it.current);
    assert g.data[0..] == g.data;
    if it.current < |g.data| {
      Plan.CollectStep(ss, g.data, it.current);
    } else {
      assert g.data[it.current..] == [];
    }
  }

  // ---------------------------------------------------------------------------
  // to_vector, head, sort

  /** Whether `do_plan` completes on every element, none of them throwing. */
  function RunAll(c: Plan.Chain, data: seq<string>): (ok: bool)
    ensures ok <==> forall i :: 0 <= i < |data| ==> !Plan.DoPlan(c, data[i]).Fault?
  {
    if data == [] then true
    else
      assert forall i :: 1 <= i < |data| ==> data[i] == data[1..][i - 1];
      !Plan.DoPlan(c, data[0]).Fault? && RunAll(c, data[1..])
  }

  /** `to_vector()` as written: it calls the `const` `filter` overload, which
      hides the one of the base class, and drops the generator it returns, so
      the collecting sink is never attached. `do_plan` still runs on every
      element; the result is empty, unless a map with no successor throws. */
  function ToVector(g: Generator): (r: Result<seq<string>, Plan.Thrown>)
    ensures r.Success? ==> r.value == []
    ensures r.Failure? <==> exists i :: 0 <= i < |g.data| && Plan.DoPlan(g.plan, g.data[i]).Fault?
  {
    if RunAll(g.plan, g.data) then Success([]) else Failure(Plan.MapWithoutSuccessor)
  }

  /** `to_vector` throws exactly when the last stage is a map and some
      element gets through every stage before it; otherwise it is empty. */
  lemma ToVectorFails(g: Generator)
    requires WellFormed(g)
    ensures var ss := Plan.Stages(g.plan);
            ToVector(g).Failure? <==>
              && ss != []
              && ss[|ss| - 1].Map?
              && exists i :: 0 <= i < |g.data| && Plan.Pass(ss[..|ss| - 1], g.data[i]).Some?
  {
    var ss := Plan.Stages(g.plan);
    if g.plan.Node? {
      forall i | 0 <= i < |g.data|
        ensures Plan.DoPlan(g.plan, g.data[i]).Fault? <==>
                ss[|ss| - 1].Map? && Plan.Pass(ss[..|ss| - 1], g.data[i]).Some?
      {
        Plan.InvokeWithoutSink(g.plan, g.data[i]);
      }
    }
  }

  /** The element `to_vector` misses: a generator whose one filter lets
      everything through iterates to its data but converts to nothing. */
  lemma ToVectorMissesIteration()
    ensures var g := Filter(Generator(["a"], Plan.End), (s: string) => true);
            Plan.Eager(Plan.Stages(g.plan), g.data) == ["a"] && ToVector(g) == Success([])
  {
    var p := (s: string) => true;
    var g := Filter(Generator(["a"], Plan.End), p);
    assert Plan.Stages(g.plan) == [Plan.Filter(p)];
    assert Sequence.Filter(p, ["a"]) == ["a"] by {
      assert ["a"][1..] == [];
    }
    assert Plan.Stages(g.plan)[1..] == [];
    assert Plan.DoPlan(g.plan, "a") == Plan.Dropped;
  }

  /** `head(count)`: a negative count takes the head of `to_vector()`; a zero
      count stops before the first element; otherwise `do_plan` runs on every
      element, since the list it fills stays empty. */
  function Head(g: Generator, count: int): (r: Result<seq<string>, Plan.Thrown>)
    ensures r.Success? ==> r.value == []
    ensures count == 0 ==> r.Success?
    ensures count != 0 ==> (r.Failure? <==> ToVector(g).Failure?)
  {
    if count < 0 then
      var v :- ToVector(g);
      Success(Underscore.Head(v, count))
    else if count == 0 || RunAll(g.plan, g.data) then Success([])
    else Failure(Plan.MapWithoutSuccessor)
  }

  /** `sort()`: `to_vector()` sorted by `le` (standing for `std::string`'s `<`). */
  function Sort(g: Generator, le: (string, string) -> bool): (r: Result<seq<string>, Plan.Thrown>)
    requires Sequence.TotalPreorder(le)
    ensures r == ToVector(g)
  {
    var v :- ToVector(g);
    Success(Underscore.Sort(le, v))
  }

  // ---------------------------------------------------------------------------
  // Example

  function LongerThanTwo(s: string): bool {
    |s| > 2
  }

  function PrefixTest(s: string): string {
    "Test " + s
  }

  /** Filtering {"¡", "Hola", "Mundo", "!"} to the elements longer than two
      and prefixing "Test " iterates to {"Test Hola", "Test Mundo"}; by the
      contract of `Iterate`, every iteration of it does. */
  lemma IterationExample()
    ensures var g := Map(Filter(Generator(["¡", "Hola", "Mundo", "!"], Plan.End), LongerThanTwo), PrefixTest);
            WellFormed(g) && g.plan.Node? &&
            Plan.Eager(Plan.Stages(g.plan), g.data) == ["Test Hola", "Test Mundo"]
  {
    var data := ["¡", "Hola", "Mundo", "!"];
    var g1 := Filter(Generator(data, Plan.End), LongerThanTwo);
    assert Plan.Stages(g1.plan) == [Plan.Filter(LongerThanTwo)];
    var g := Map(g1, PrefixTest);
    var ss := [Plan.Filter(LongerThanTwo), Plan.Map(PrefixTest)];
    assert Plan.Stages(g.plan) == ss;
    assert g.data == data;
    assert g.plan.Node?;
    assert WellFormed(g) by {
      assert forall i :: 0 <= i < |ss| ==> !ss[i].Sink?;
    }
    EagerExample();
  }

  lemma EagerExample()
    ensures Plan.Eager([Plan.Filter(LongerThanTwo), Plan.Map(PrefixTest)], ["¡", "Hola", "Mundo", "!"])
            == ["Test Hola", "Test Mundo"]
  {
    var ss := [Plan.Filter(LongerThanTwo), Plan.Map(PrefixTest)];
    var data := ["¡", "Hola", "Mundo", "!"];
    var kept := ["Hola", "Mundo"];
    FilterExample();
    PrefixTestValues();
    assert ss[1..] == [Plan.Map(PrefixTest)] && ss[1..][1..] == [];
    assert Plan.Eager(ss, data) == Plan.Eager(ss[1..], kept);
    assert Plan.Eager(ss[1..], kept) == Plan.Eager([], Sequence.Map(PrefixTest, kept));
  }

  lemma PrefixTestValues()
    ensures Sequence.Map(PrefixTest, ["Hola", "Mundo"]) == ["Test Hola", "Test Mundo"]
  {
    assert PrefixTest("Hola") == "Test Hola";
    assert PrefixTest("Mundo") == "Test Mundo";
  }

  lemma FilterExample()
    ensures Sequence.Filter(LongerThanTwo, ["¡", "Hola", "Mundo", "!"]) == ["Hola", "Mundo"]
  {
    var data := ["¡", "Hola", "Mundo", "!"];
    assert data[1..] == ["Hola", "Mundo", "!"];
    assert data[1..][1..] == ["Mundo", "!"];
    assert data[1..][1..][1..] == ["!"];
    assert ["!"][1..] == [];
    assert Sequence.Filter(LongerThanTwo, ["!"]) == [];
    assert Sequence.Filter(LongerThanTwo, ["Mundo", "!"]) == ["Mundo"];
  }
}
