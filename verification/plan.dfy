/** The plan of a lazy generator or stream: a singly linked chain of
    `plan_item`s, each a filter or a map that hands a value on to its
    successor. Every value is a `std::string`. The chain is a value here, so
    a copy never shares nodes with its original. */
module Plan {
  import Sequence
  import opened Results

  /** One `plan_item`. `Sink` is the filter an iterator appends to its own
      copy of the plan: it records the value it is given and forwards
      nothing. */
  datatype Stage =
    | Filter(p: string -> bool)
    | Map(f: string -> string)
    | Sink

  /** A chain of `plan_item`s; `End` is the null pointer, either as the
      `next` of the last item or as the plan of a generator with no stage. */
  datatype Chain = End | Node(stage: Stage, next: Chain)

  /** What handing one value to a chain leads to: nothing reaches a sink, a
      sink records `value`, or a map with no successor throws. */
  datatype Outcome = Dropped | Captured(value: string) | Fault

  /** The exception a map stage with no successor throws. */
  datatype Thrown = MapWithoutSuccessor

  /** The stages of a chain, first to last. */
  function Stages(c: Chain): seq<Stage> {
    match c
    case End => []
    case Node(s, n) => [s] + Stages(n)
  }

  /** The chain holding the given stages, in order. */
  function FromStages(ss: seq<Stage>): (c: Chain)
    ensures Stages(c) == ss
  {
    if ss == [] then End else Node(ss[0], FromStages(ss[1..]))
  }

  /** A chain is determined by its stages. */
  lemma {:induction false} StagesDetermineChain(c: Chain)
    ensures FromStages(Stages(c)) == c
  {
    match c
    case End =>
    case Node(s, n) =>
      assert Stages(c)[1..] == Stages(n);
      StagesDetermineChain(n);
  }

  /** No stage is a sink: the stages a user can add with `filter` and `map`. */
  predicate Pipeline(ss: seq<Stage>) {
    forall i :: 0 <= i < |ss| ==> !ss[i].Sink?
  }

  // ---------------------------------------------------------------------------
  // push_back, copy

  /** `plan_item::push_back(next_plan)`: walk to the item with no successor
      and hang `tail` there; `basic_generator::push_back` does the same and
      makes `tail` the plan when there is none. */
  function Append(c: Chain, tail: Chain): (r: Chain)
    ensures Stages(r) == Stages(c) + Stages(tail)
  {
    match c
    case End => tail
    case Node(s, End) => Node(s, tail)
    case Node(s, n) => Node(s, Append(n, tail))
  }

  /** `basic_generator::filter(f)` / `map(f)`: one more stage at the tail. */
  function WithStage(c: Chain, s: Stage): (r: Chain)
    ensures Stages(r) == Stages(c) + [s]
    ensures r.Node?
  {
    assert Stages(Node(s, End)) == [s] + Stages(End);
    Append(c, Node(s, End))
  }

  /** `copy()`: a fresh item with the same function, followed by a copy of
      the rest of the chain. */
  function Copy(c: Chain): (r: Chain)
    requires c.Node?
    ensures r.Node?
    ensures Stages(r) == Stages(c)
  {
    var head := Node(c.stage, End);
    if c.next.Node? then Append(head, Copy(c.next)) else head
  }

  // ---------------------------------------------------------------------------
  // operator()

  /** `operator()(v)` on the first item: a filter forwards `v` when its
      predicate holds and it has a successor, a map forwards `f(v)` and
      throws when it has none, and a sink records `v`. */
  function Invoke(c: Chain, v: string): (r: Outcome)
    requires c.Node?
    ensures r.Captured? ==> exists i :: 0 <= i < |Stages(c)| && Stages(c)[i].Sink?
    ensures r.Fault? ==> Stages(c)[|Stages(c)| - 1].Map?
  {
    assert Stages(c)[0] == c.stage;
    assert forall i :: 0 <= i < |Stages(c.next)| ==> Stages(c)[i + 1] == Stages(c.next)[i];
    match c.stage
    case Filter(p) => if p(v) && c.next.Node? then Invoke(c.next, v) else Dropped
    case Map(f) => if c.next.Node? then Invoke(c.next, f(v)) else Fault
    case Sink => Captured(v)
  }

  /** `do_plan(v)`: run the plan on `v`, or do nothing when there is none.
      On a plan built with `filter` and `map` alone nothing is recorded, and
      it throws exactly when the last stage is a map and `v` gets through the
      stages before it. */
  function DoPlan(c: Chain, v: string): (r: Outcome)
    ensures Pipeline(Stages(c)) ==>
      var ss := Stages(c);
      r == if ss != [] && ss[|ss| - 1].Map? && Pass(ss[..|ss| - 1], v).Some? then Fault else Dropped
  {
    if c.End? then Dropped
    else if Pipeline(Stages(c)) then
      InvokeWithoutSink(c, v);
      Invoke(c, v)
    else Invoke(c, v)
  }

  // ---------------------------------------------------------------------------
  // The eager fold

  /** One value through the stages in order: `None` once a filter rejects
      it, otherwise the value every map has been applied to. */
  function Pass(ss: seq<Stage>, v: string): Option<string> {
    if ss == [] then Some(v)
    else match ss[0]
      case Filter(p) => if p(v) then Pass(ss[1..], v) else None
      case Map(f) => Pass(ss[1..], f(v))
      case Sink => Pass(ss[1..], v)
  }

  /** The values that come out for `data`, element by element. */
  function Collect(ss: seq<Stage>, data: seq<string>): seq<string> {
    if data == [] then [] else Emit(Pass(ss, data[0])) + Collect(ss, data[1..])
  }

  function Emit(o: Option<string>): seq<string> {
    if o.Some? then [o.value] else []
  }

  /** One stage applied to a whole list. */
  function Apply(s: Stage, data: seq<string>): seq<string> {
    match s
    case Filter(p) => Sequence.Filter(p, data)
    case Map(f) => Sequence.Map(f, data)
    case Sink => data
  }

  /** The eager map/filter fold: each stage applied to the whole list in turn. */
  function Eager(ss: seq<Stage>, data: seq<string>): seq<string>
    decreases |ss|
  {
    if ss == [] then data else Eager(ss[1..], Apply(ss[0], data))
  }

  /** Collecting element by element distributes over concatenation. */
  lemma {:induction false} CollectAppend(ss: seq<Stage>, a: seq<string>, b: seq<string>)
    ensures Collect(ss, a + b) == Collect(ss, a) + Collect(ss, b)
  {
    if a == [] {
      assert a + b == b;
    } else {
      assert (a + b)[0] == a[0];
      assert (a + b)[1..] == a[1..] + b;
      CollectAppend(ss, a[1..], b);
    }
  }

  /** With no stage every value comes out unchanged. */
  lemma {:induction false} CollectNoStages(data: seq<string>)
    ensures Collect([], data) == data
  {
    if data != [] {
      CollectNoStages(data[1..]);
    }
  }

  /** Applying the first stage to the list and collecting through the rest
      is collecting through all the stages. */
  lemma {:induction false} CollectApply(ss: seq<Stage>, data: seq<string>)
    requires ss != []
    ensures Collect(ss[1..], Apply(ss[0], data)) == Collect(ss, data)
  {
    if data != [] {
      var x := data[0];
      var rest := data[1..];
      assert data == [x] + rest;
      var one := Apply(ss[0], [x]);
      assert Apply(ss[0], data) == one + Apply(ss[0], rest) by {
        match ss[0]
        case Filter(p) => Sequence.FilterAppend(p, [x], rest);
        case Map(f) =>
        case Sink =>
      }
      CollectAppend(ss[1..], one, Apply(ss[0], rest));
      CollectApply(ss, rest);
      assert Collect(ss[1..], one) == Emit(Pass(ss, x)) by {
        match ss[0]
        case Filter(p) =>
          if p(x) {
            assert one == [x];
          } else {
            assert one == [];
          }
        case Map(f) =>
          assert one == [f(x)];
        case Sink =>
      }
    }
  }

  /** The eager fold is the element-by-element fold: each value passes
      through all the stages before the next one starts. */
  lemma {:induction false} EagerIsCollect(ss: seq<Stage>, data: seq<string>)
    ensures Eager(ss, data) == Collect(ss, data)
    decreases |ss|
  {
    if ss == [] {
      CollectNoStages(data);
    } else {
      EagerIsCollect(ss[1..], Apply(ss[0], data));
      CollectApply(ss, data);
    }
  }

  /** Collecting the suffix from `a` skips the values in `[a, b)` that the
      stages drop. */
  lemma {:induction false} CollectSkipsDropped(ss: seq<Stage>, data: seq<string>, a: nat, b: nat)
    requires a <= b <= |data|
    requires forall k :: a <= k < b ==> Pass(ss, data[k]).None?
    ensures Collect(ss, data[a..]) == Collect(ss, data[b..])
    decreases b - a
  {
    if a < b {
      assert data[a..][1..] == data[a + 1..];
      CollectSkipsDropped(ss, data, a + 1, b);
    }
  }

  /** Collecting the suffix from `a` when `data[a]` passes. */
  lemma CollectStep(ss: seq<Stage>, data: seq<string>, a: nat)
    requires a < |data|
    ensures Collect(ss, data[a..]) == Emit(Pass(ss, data[a])) + Collect(ss, data[a + 1..])
  {
    assert data[a..][1..] == data[a + 1..];
  }

  /** A stage added at the end acts on what the earlier stages let through. */
  lemma {:induction false} PassSnoc(ss: seq<Stage>, s: Stage, v: string)
    ensures Pass(ss + [s], v) == if Pass(ss, v).Some? then Pass([s], Pass(ss, v).value) else None
  {
    if ss == [] {
      assert ss + [s] == [s];
    } else {
      assert (ss + [s])[0] == ss[0];
      assert (ss + [s])[1..] == ss[1..] + [s];
      match ss[0]
      case Filter(p) =>
        if p(v) {
          PassSnoc(ss[1..], s, v);
        }
      case Map(f) =>
        PassSnoc(ss[1..], s, f(v));
      case Sink =>
        PassSnoc(ss[1..], s, v);
    }
  }

  /** The eager fold with a stage added at the end applies that stage to the
      fold of the earlier ones. */
  lemma {:induction false} EagerSnoc(ss: seq<Stage>, s: Stage, data: seq<string>)
    ensures Eager(ss + [s], data) == Apply(s, Eager(ss, data))
    decreases |ss|
  {
    if ss == [] {
      assert ss + [s] == [s];
      assert [s][1..] == [];
    } else {
      assert (ss + [s])[0] == ss[0];
      assert (ss + [s])[1..] == ss[1..] + [s];
      EagerSnoc(ss[1..], s, Apply(ss[0], data));
    }
  }

  // ---------------------------------------------------------------------------
  // A chain run on one value

  /** What an iterator's chain leads to: the plan's stages followed by the sink. */
  function Deliver(o: Option<string>): Outcome {
    if o.Some? then Captured(o.value) else Dropped
  }

  /** A chain that ends in a sink never throws: the sink records exactly the
      values the eager fold lets through, transformed as the fold transforms
      them. */
  lemma {:induction false} InvokeWithSink(c: Chain, ss: seq<Stage>, v: string)
    requires c.Node?
    requires Pipeline(ss) && Stages(c) == ss + [Sink]
    ensures Invoke(c, v) == Deliver(Pass(ss, v))
  {
    var all := ss + [Sink];
    assert all == [c.stage] + Stages(c.next);
    assert c.stage == all[0];
    assert Stages(c.next) == all[1..];
    if ss != [] {
      assert all[0] == ss[0] && !ss[0].Sink?;
      assert all[1..] == ss[1..] + [Sink];
      match c.stage
      case Filter(p) =>
        if p(v) {
          InvokeWithSink(c.next, ss[1..], v);
        }
      case Map(f) =>
        InvokeWithSink(c.next, ss[1..], f(v));
    }
  }

  /** A chain with no sink captures nothing: a value is dropped, unless the
      last stage is a map and the value gets through every stage before it,
      which throws. */
  lemma {:induction false} InvokeWithoutSink(c: Chain, v: string)
    requires c.Node?
    requires Pipeline(Stages(c))
    ensures var ss := Stages(c);
            Invoke(c, v) == if ss[|ss| - 1].Map? && Pass(ss[..|ss| - 1], v).Some? then Fault else Dropped
  {
    var ss := Stages(c);
    var ts := Stages(c.next);
    assert ss == [c.stage] + ts;
    assert !c.stage.Sink? by {
      assert ss[0] == c.stage;
    }
    if c.next.Node? {
      assert Pipeline(ts) by {
        forall i | 0 <= i < |ts|
          ensures !ts[i].Sink?
        {
          assert ts[i] == ss[i + 1];
        }
      }
      assert ss[|ss| - 1] == ts[|ts| - 1];
      assert ss[..|ss| - 1][1..] == ts[..|ts| - 1];
      match c.stage
      case Filter(p) =>
        if p(v) {
          InvokeWithoutSink(c.next, v);
        }
      case Map(f) =>
        InvokeWithoutSink(c.next, f(v));
    } else {
      assert ss == [c.stage];
      assert ss[..|ss| - 1] == [];
    }
  }
}
