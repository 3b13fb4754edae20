/** The lazy `stream`: the same plan chain, iterator and `to_vector` as the
    generator, under other names and without `head` and `sort`. Its members
    are defined by the generator's. */
module Streams {
  import opened Results
  import Plan
  import Generator

  type Stream = Generator.Generator

  /** `filter(f) const`: a new stream whose plan is a copy of this one's with
      one more filter stage at the tail. */
  function Filter(s: Stream, p: string -> bool): (r: Stream)
    ensures r.data == s.data
    ensures Plan.Stages(r.plan) == Plan.Stages(s.plan) + [Plan.Filter(p)]
  {
    Generator.Filter(s, p)
  }

  /** `map(f) const`: a new stream whose plan is a copy of this one's with one
      more map stage at the tail. */
  function Map(s: Stream, f: string -> string): (r: Stream)
    ensures r.data == s.data
    ensures Plan.Stages(r.plan) == Plan.Stages(s.plan) + [Plan.Map(f)]
  {
    Generator.Map(s, f)
  }

  /** Iterating a stream yields exactly the elements that reach the
      iterator's sink, transformed by the maps before it, in source order. */
  method Iterate(s: Stream) returns (out: seq<string>)
    requires s.plan.Node? && Generator.WellFormed(s)
    ensures out == Plan.Collect(Plan.Stages(s.plan), s.data)
    ensures out == Plan.Eager(Plan.Stages(s.plan), s.data)
  {
    out := Generator.Iterate(s);
    Plan.EagerIsCollect(Plan.Stages(s.plan), s.data);
  }

  /** `to_vector()`: the sink-bearing copy is discarded, so nothing is
      collected; it throws when a map with no successor is reached. */
  function ToVector(s: Stream): (r: Result<seq<string>, Plan.Thrown>)
    ensures r.Success? ==> r.value == []
    ensures r.Failure? <==> exists i :: 0 <= i < |s.data| && Plan.DoPlan(s.plan, s.data[i]).Fault?
  {
    Generator.ToVector(s)
  }
}
