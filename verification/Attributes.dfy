/**
 Attribute numbers and file columns: partition columns live in the path, not in the file, so the others
 close ranks (src/fdw/scan.rs, src/fdw/pushdown.rs).
 */
module Attributes {
  import opened Wrappers
  import opened Pushdown

  /** Attributes below `i` that are stored in the file. */
  function StoredBelow(partition: seq<nat>, i: nat): nat {
    if i == 0 then 0 else StoredBelow(partition, i - 1) + if i - 1 in partition then 0 else 1
  }

  /** The file column of an attribute, `None` for a partition column. */
  function FileColumn(partition: seq<nat>, i: nat): Option<nat> {
    if i in partition then None else Some(StoredBelow(partition, i))
  }

  lemma FileColumnStep(partition: seq<nat>, i: nat)
    ensures FileColumn(partition, i).None? <==> i in partition
    ensures i in partition ==> StoredBelow(partition, i + 1) == StoredBelow(partition, i)
    ensures i !in partition ==> FileColumn(partition, i) == Some(StoredBelow(partition, i))
                                && StoredBelow(partition, i + 1) == StoredBelow(partition, i) + 1
  {
  }

  /** Numbers the stored attributes in order. */
  method StorageMap(natts: nat, partition: seq<nat>) returns (m: seq<Option<nat>>)
    ensures |m| == natts && forall i | 0 <= i < natts :: m[i] == FileColumn(partition, i)
  {
    hide StoredBelow, FileColumn;
    m := [];
    var next: nat := 0;
    FileColumnStart(partition);
    for i := 0 to natts
      invariant |m| == i && next == StoredBelow(partition, i)
      invariant forall k | 0 <= k < i :: m[k] == FileColumn(partition, k)
    {
      FileColumnStep(partition, i);
      if i in partition {
        m := m + [None];
      } else {
        m := m + [Some(next)];
        next := next + 1;
      }
    }
  }

  lemma FileColumnStart(partition: seq<nat>)
    ensures StoredBelow(partition, 0) == 0
  {
  }

  /** Stored attributes keep their order and fill the file columns without gaps. */
  lemma {:induction false} StorageDense(partition: seq<nat>, natts: nat, c: nat)
    requires c < StoredBelow(partition, natts)
    ensures exists i | 0 <= i < natts :: i !in partition && StoredBelow(partition, i) == c
    decreases natts
  {
    if natts - 1 !in partition && StoredBelow(partition, natts - 1) == c {
      assert natts - 1 !in partition && StoredBelow(partition, natts - 1) == c;
    } else {
      StorageDense(partition, natts - 1, c);
    }
  }

  lemma {:induction false} StorageOrdered(partition: seq<nat>, i: nat, j: nat)
    requires i < j && i !in partition
    ensures StoredBelow(partition, i) < StoredBelow(partition, j)
  {
    if i + 1 < j {
      StorageOrdered(partition, i, j - 1);
    }
  }

  /** Re-addresses every leaf, or fails if one is not stored. */
  function Translate(e: PushedExpr, m: seq<Option<nat>>): Option<PushedExpr> {
    match e
    case Leaf(q) => if q.col < |m| && m[q.col].Some? then Some(Leaf(q.(col := m[q.col].value))) else None
    case And(xs) => WithAll(seq(|xs|, i requires 0 <= i < |xs| => Translate(xs[i], m)), true)
    case Or(xs) => WithAll(seq(|xs|, i requires 0 <= i < |xs| => Translate(xs[i], m)), false)
    case Not(x) =>
      var t := Translate(x, m);
      if t.Some? then Some(Not(t.value)) else None
  }

  function WithAll(ts: seq<Option<PushedExpr>>, isAnd: bool): Option<PushedExpr> {
    if exists i | 0 <= i < |ts| :: ts[i].None? then None
    else
      var xs := seq(|ts|, i requires 0 <= i < |ts| && ts[i].Some? => ts[i].value);
      Some(if isAnd then And(xs) else Or(xs))
  }

  ghost predicate Stored(e: PushedExpr, m: seq<Option<nat>>) {
    match e
    case Leaf(q) => q.col < |m| && m[q.col].Some?
    case And(xs) => forall i | 0 <= i < |xs| :: Stored(xs[i], m)
    case Or(xs) => forall i | 0 <= i < |xs| :: Stored(xs[i], m)
    case Not(x) => Stored(x, m)
  }

  /** The file's row shows the table's row through the map. */
  ghost predicate Shows(file: Row, table: Row, m: seq<Option<nat>>) {
    forall i | 0 <= i < |m| && m[i].Some? :: file(m[i].value) == table(i)
  }

  /** Translation succeeds exactly on stored columns, and then means the same on the file's row. */
  lemma {:induction false} TranslateMeaning(e: PushedExpr, m: seq<Option<nat>>, file: Row, table: Row)
    requires Shows(file, table, m)
    ensures Translate(e, m).Some? <==> Stored(e, m)
    ensures Translate(e, m).Some? ==> Meaning(Translate(e, m).value, file) == Meaning(e, table)
    decreases e, 1
  {
    match e {
      case Leaf(_) =>
      case Not(x) => TranslateMeaning(x, m, file, table);
      case And(xs) => ChildrenMean(xs, m, file, table, e);
      case Or(xs) => ChildrenMean(xs, m, file, table, e);
    }
  }

  lemma {:induction false} ChildrenMean(xs: seq<PushedExpr>, m: seq<Option<nat>>, file: Row, table: Row, e: PushedExpr)
    requires Shows(file, table, m) && (e == And(xs) || e == Or(xs))
    ensures Translate(e, m).Some? <==> forall i | 0 <= i < |xs| :: Stored(xs[i], m)
    ensures Translate(e, m).Some? ==> Meanings(Translate(e, m).value.xs, file) == Meanings(xs, table)
    decreases e, 0
  {
    forall i | 0 <= i < |xs|
      ensures Translate(xs[i], m).Some? <==> Stored(xs[i], m)
      ensures Translate(xs[i], m).Some? ==> Meaning(Translate(xs[i], m).value, file) == Meaning(xs[i], table)
    {
      TranslateMeaning(xs[i], m, file, table);
    }
    var ts := seq(|xs|, i requires 0 <= i < |xs| => Translate(xs[i], m));
    assert forall i | 0 <= i < |xs| :: ts[i] == Translate(xs[i], m);
  }
}
