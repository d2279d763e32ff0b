/**
 Pushdown from end to end: the quals of a scan, walked, split, translated, and used to prune blobs, prune
 row groups and filter rows (src/fdw/scan.rs).
 */
module Pipeline {
  import opened Numbers
  import opened Wrappers
  import opened Text
  import opened Pushdown
  import opened Walker
  import opened RowGroups
  import opened RowFilter
  import opened Attributes
  import PartitionQuals

  /** The predicates over the path that a list of quals gives rise to. */
  ghost function PathQuals(quals: seq<PgExpr>, attnums: seq<nat>): seq<PushedExpr> {
    PartitionQuals.Select(Somes(Walks(quals)), attnums, PartitionQuals.ForPartition)
  }

  /** The predicates over the file, addressed by file column. */
  ghost function FileQuals(quals: seq<PgExpr>, attnums: seq<nat>, m: seq<Option<nat>>): seq<PushedExpr> {
    var storage := PartitionQuals.Select(Somes(Walks(quals)), attnums, PartitionQuals.ForStorage);
    Somes(seq(|storage|, i requires 0 <= i < |storage| => Translate(storage[i], m)))
  }

  lemma {:induction false} SelectedFrom(exprs: seq<PushedExpr>, attnums: seq<nat>, t: PartitionQuals.Target, k: nat) returns (i: nat)
    requires k < |PartitionQuals.Select(exprs, attnums, t)|
    ensures i < |exprs| && exprs[i] == PartitionQuals.Select(exprs, attnums, t)[k]
  {
    var last := |exprs| - 1;
    if k < |PartitionQuals.Select(exprs[..last], attnums, t)| {
      i := SelectedFrom(exprs[..last], attnums, t, k);
    } else {
      i := last;
    }
  }

  /** The row satisfies every qual, and the walk of each keeps TRUE. */
  ghost predicate Matches(quals: seq<PgExpr>, env: Env) {
    forall i | 0 <= i < |quals| :: KeepsTrue(quals[i]) && Walker.Eval(quals[i], env) == True
  }

  lemma SelectedNotFree(quals: seq<PgExpr>, attnums: seq<nat>, t: PartitionQuals.Target, k: nat)
    requires k < |PartitionQuals.Select(Somes(Walks(quals)), attnums, t)|
    ensures NotFree(PartitionQuals.Select(Somes(Walks(quals)), attnums, t)[k])
  {
    var j := SelectedFrom(Somes(Walks(quals)), attnums, t, k);
    var i := SomesFrom(Walks(quals), j);
    assert Walks(quals)[i] == Walk(quals[i]);
    WalkNotFree(quals[i]);
  }

  lemma SelectedHolds(quals: seq<PgExpr>, env: Env, attnums: seq<nat>, t: PartitionQuals.Target, k: nat)
    requires Matches(quals, env) && k < |PartitionQuals.Select(Somes(Walks(quals)), attnums, t)|
    ensures Meaning(PartitionQuals.Select(Somes(Walks(quals)), attnums, t)[k], env.cells) == True
  {
    var i := SelectedFrom(Somes(Walks(quals)), attnums, t, k);
    QualsSound(quals, env, i);
  }

  /** A matching row makes every file predicate TRUE in the file's own numbering. */
  lemma FileQualHolds(quals: seq<PgExpr>, env: Env, attnums: seq<nat>, m: seq<Option<nat>>, file: Row, k: nat)
    requires Matches(quals, env) && Shows(file, env.cells, m) && k < |FileQuals(quals, attnums, m)|
    ensures Meaning(FileQuals(quals, attnums, m)[k], file) == True
  {
    var storage := PartitionQuals.Select(Somes(Walks(quals)), attnums, PartitionQuals.ForStorage);
    var ts := seq(|storage|, i requires 0 <= i < |storage| => Translate(storage[i], m));
    var i := SomesFrom(ts, k);
    SelectedHolds(quals, env, attnums, PartitionQuals.ForStorage, i);
    TranslateMeaning(storage[i], m, file, env.cells);
  }

  /** Each file predicate is given its own projection of the group, in file order. */
  ghost predicate Projected(exprs: seq<PushedExpr>, files: seq<seq<nat>>, batches: seq<seq<Column>>, rows: seq<Row>) {
    |files| == |batches| == |exprs| && forall k | 0 <= k < |exprs| :: FileOrder(exprs[k], files[k]) && Projects(batches[k], files[k], rows)
  }

  /** Row `r` passes predicate `k` of the filter, which looks columns up by first appearance. */
  ghost predicate Passes(exprs: seq<PushedExpr>, batches: seq<seq<Column>>, k: nat, r: nat)
    requires k < |exprs| == |batches|
  {
    Strict(exprs[k], RowOf(batches[k], Collected(exprs[k], []), r)) == True
  }

  /**
   A row that satisfies all quals is in a row group that is read. A predicate of the row filter that mentions
   its columns in file order then lets it pass exactly when no comparison of it meets a null in the row.
   */
  lemma MatchingRowSurvives(quals: seq<PgExpr>, env: Env, attnums: seq<nat>, m: seq<Option<nat>>,
                            groups: seq<RowGroup>, numFields: nat, g: nat, rows: seq<Row>, r: nat,
                            files: seq<seq<nat>>, batches: seq<seq<Column>>)
    requires g < |groups| && DescribesAll(groups[g], rows) && r < |rows|
    requires Matches(quals, env) && Shows(rows[r], env.cells, m)
    requires forall k | 0 <= k < |FileQuals(quals, attnums, m)| :: Typed(FileQuals(quals, attnums, m)[k], rows[r])
    requires Projected(FileQuals(quals, attnums, m), files, batches, rows)
    ensures g in Survivors(groups, FileQuals(quals, attnums, m), numFields, |groups|)
    ensures forall k | 0 <= k < |FileQuals(quals, attnums, m)| && Ascending(Collected(FileQuals(quals, attnums, m)[k], [])) ::
              Passes(FileQuals(quals, attnums, m), batches, k, r) <==> !MeetsNull(FileQuals(quals, attnums, m)[k], rows[r])
  {
    hide KeepsTrue, Walker.Eval, Shows, DescribesAll, Survivors, FileQuals, Strict, MeetsNull, Meaning, Collected, FileOrder, Projects, RowOf, Ascending;
    var exprs := FileQuals(quals, attnums, m);
    forall k | 0 <= k < |exprs| ensures Meaning(exprs[k], rows[r]) == True {
      FileQualHolds(quals, env, attnums, m, rows[r], k);
    }
    PruneKeepsMatches(groups, exprs, numFields, g, rows, r);
    forall k | 0 <= k < |exprs| && Ascending(Collected(exprs[k], []))
      ensures Passes(exprs, batches, k, r) <==> !MeetsNull(exprs[k], rows[r])
    {
      KeptIff(exprs[k], rows[r]);
      MaskIsTruth(exprs[k], files[k], batches[k], rows, r);
    }
  }

  /** A blob that holds a matching row is kept, when its path holds its values as INSERT writes them. */
  lemma MatchingBlobKept(quals: seq<PgExpr>, env: Env, attnums: seq<nat>, names: seq<Bytes>, parsed: map<Bytes, Bytes>,
                         dates: int -> Bytes, lo: int, hi: int, k: nat)
    requires Matches(quals, env) && PartitionQuals.DatesOrdered(dates, lo, hi)
    requires PartitionQuals.PathShows(attnums, names, parsed, env.cells, dates, lo, hi)
    requires k < |PathQuals(quals, attnums)| && PartitionQuals.AllHandled(PathQuals(quals, attnums)[k], attnums, env.cells, lo, hi)
    ensures PartitionQuals.Keeps(PathQuals(quals, attnums)[k], attnums, names, parsed, dates)
  {
    SelectedHolds(quals, env, attnums, PartitionQuals.ForPartition, k);
    SelectedNotFree(quals, attnums, PartitionQuals.ForPartition, k);
    PartitionQuals.PruneSound(PathQuals(quals, attnums)[k], attnums, names, parsed, dates, env.cells, lo, hi);
  }
}
