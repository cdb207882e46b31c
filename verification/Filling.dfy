/** A table object filled by a loop of insertions (src/storage/buckets.rs, add). */
module Filling {
  import opened Nodes
  import opened Tables
  import opened BucketRuns
  import Buckets

  /** Whatever its sorts do, it ends up with the k oldest of every length. */
  method AddAll(table: Buckets.Buckets, xs: seq<NodeWrapper>)
    requires table.View() == EmptyTable(table.ourId, table.k)
    modifies table
    ensures table.ourId == old(table.ourId)
    ensures Refines(table.View(), Added(xs, table.ourId))
    ensures LeastDepth(Added(xs, table.ourId), table.ourId, table.k, |table.buckets| - 1)
  {
    EmptyRefines(table.ourId, table.k);
    for i := 0 to |xs|
      invariant table.ourId == old(table.ourId)
      invariant Refines(table.View(), Added(xs[..i], table.ourId))
    {
      ghost var t := table.View();
      var chumps := table.Add(xs[i]);
      RefinesNext(t, xs, i, table.View(), chumps);
    }
    assert xs[..|xs|] == xs;
    RefinesLeastDepth(table.View(), Added(xs, table.ourId));
  }
}
