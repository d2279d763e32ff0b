/** Pruning row groups by column statistics (src/fdw/pushdown.rs). */
module RowGroups {
  import opened Numbers
  import opened Wrappers
  import opened Text
  import opened Pushdown

  // ---------- metadata ---------------------------------------------------------------

  /** Minimum and maximum by physical type. */
  datatype MinMax =
    | Int32Stats(imin: Option<int>, imax: Option<int>)
    | Int64Stats(imin: Option<int>, imax: Option<int>)
    | FloatStats(rmin: Option<real>, rmax: Option<real>)
    | DoubleStats(rmin: Option<real>, rmax: Option<real>)
    | BytesStats(bmin: Option<Bytes>, bmax: Option<Bytes>)
    | BoolStats(tmin: Option<bool>, tmax: Option<bool>)
    | OtherStats

  datatype Statistics = Statistics(minMax: MinMax, nullCount: Option<nat>)

  datatype ColumnChunk = ColumnChunk(stats: Option<Statistics>, numValues: nat)

  type RowGroup = seq<ColumnChunk>

  function Lift<A>(o: Option<A>, f: A -> Scalar): Option<Scalar> {
    match o
    case None => None
    case Some(x) => Some(f(x))
  }

  /** The statistics as values of the literal's type; `None` for a combination that is not compared. */
  function Bounds(lit: Scalar, m: MinMax): Option<(Option<Scalar>, Option<Scalar>)> {
    match (lit, m)
    case (I16(_), Int32Stats(a, b)) => Some((Lift(a, x => I16(x)), Lift(b, x => I16(x))))
    case (I32(_), Int32Stats(a, b)) => Some((Lift(a, x => I32(x)), Lift(b, x => I32(x))))
    case (Date32(_), Int32Stats(a, b)) => Some((Lift(a, x => Date32(x)), Lift(b, x => Date32(x))))
    case (I64(_), Int64Stats(a, b)) => Some((Lift(a, x => I64(x)), Lift(b, x => I64(x))))
    case (TimestampMicros(_), Int64Stats(a, b)) => Some((Lift(a, x => TimestampMicros(x)), Lift(b, x => TimestampMicros(x))))
    case (F32(_), FloatStats(a, b)) => Some((Lift(a, x => F32(x)), Lift(b, x => F32(x))))
    case (F64(_), DoubleStats(a, b)) => Some((Lift(a, x => F64(x)), Lift(b, x => F64(x))))
    case (Utf8(_), BytesStats(a, b)) => Some((Lift(a, x => Utf8(x)), Lift(b, x => Utf8(x))))
    case (Bool(_), BoolStats(a, b)) => Some((Lift(a, x => Bool(x)), Lift(b, x => Bool(x))))
    case _ => None
  }

  // ---------- verdicts -------------------------------------------------------------------

  datatype Verdict = CannotMatch | CanMatch | Indeterminate

  /** What a comparison can find between `mn` and `mx`; missing bounds decide nothing. */
  function CmpVerdict(op: PushedOp, lit: Scalar, mn: Option<Scalar>, mx: Option<Scalar>): Verdict
    requires !op.IsNullTest()
  {
    if mn.None? || mx.None? then Indeterminate
    else
      var cannot :=
        match op
        case Eq => Compare(lit, mn.value) < 0 || Compare(lit, mx.value) > 0
        case Ne => mn.value == mx.value && lit == mn.value
        case Lt => Compare(mn.value, lit) >= 0
        case Le => Compare(mn.value, lit) > 0
        case Gt => Compare(mx.value, lit) <= 0
        case Ge => Compare(mx.value, lit) < 0;
      if cannot then CannotMatch else CanMatch
  }

  /** Booleans are decided for equality only. */
  function BoolVerdict(op: PushedOp, v: bool, mn: Option<bool>, mx: Option<bool>): Verdict {
    if mn.None? || mx.None? then Indeterminate
    else match op
      case Eq => if v != mn.value && v != mx.value then CannotMatch else CanMatch
      case Ne => if v == mn.value && v == mx.value then CannotMatch else CanMatch
      case _ => Indeterminate
  }

  function LeafVerdict(q: PushedQual, rg: RowGroup, numFields: nat): Verdict {
    if q.col >= numFields || q.col >= |rg| || rg[q.col].stats.None? then Indeterminate
    else
      var stats := rg[q.col].stats.value;
      match q.op
      case IsNull =>
        if stats.nullCount.None? then Indeterminate
        else if stats.nullCount.value == 0 then CannotMatch else CanMatch
      case IsNotNull =>
        if stats.nullCount.None? then Indeterminate
        else if stats.nullCount.value >= rg[q.col].numValues then CannotMatch else CanMatch
      case _ =>
        if q.value.Bool? && stats.minMax.BoolStats? then BoolVerdict(q.op, q.value.b, stats.minMax.tmin, stats.minMax.tmax)
        else
          var bounds := Bounds(q.value, stats.minMax);
          if bounds.None? then Indeterminate else CmpVerdict(q.op, q.value, bounds.value.0, bounds.value.1)
  }

  ghost function GroupVerdict(e: PushedExpr, rg: RowGroup, numFields: nat): Verdict {
    match e
    case Leaf(q) => LeafVerdict(q, rg, numFields)
    case And(xs) =>
      if exists i | 0 <= i < |xs| :: GroupVerdict(xs[i], rg, numFields) == CannotMatch then CannotMatch
      else if exists i | 0 <= i < |xs| :: GroupVerdict(xs[i], rg, numFields) == Indeterminate then Indeterminate
      else CanMatch
    case Or(xs) =>
      if exists i | 0 <= i < |xs| :: GroupVerdict(xs[i], rg, numFields) == CanMatch then CanMatch
      else if exists i | 0 <= i < |xs| :: GroupVerdict(xs[i], rg, numFields) == Indeterminate then Indeterminate
      else CannotMatch
    case Not(_) => Indeterminate
  }

  /** The evaluation loops, with their early exit and accumulators. */
  method EvaluateAgainstRg(e: PushedExpr, rg: RowGroup, numFields: nat) returns (v: Verdict)
    ensures v == GroupVerdict(e, rg, numFields)
    decreases e
  {
    match e {
      case Leaf(q) => return LeafVerdict(q, rg, numFields);
      case Not(_) => return Indeterminate;
      case And(xs) =>
        var allCan := true;
        for i := 0 to |xs|
          invariant forall k | 0 <= k < i :: GroupVerdict(xs[k], rg, numFields) != CannotMatch
          invariant allCan <==> forall k | 0 <= k < i :: GroupVerdict(xs[k], rg, numFields) != Indeterminate
        {
          var one := EvaluateAgainstRg(xs[i], rg, numFields);
          match one {
            case CannotMatch => return CannotMatch;
            case Indeterminate => allCan := false;
            case CanMatch =>
          }
        }
        return if allCan then CanMatch else Indeterminate;
      case Or(xs) =>
        var allCannot, anyCan := true, false;
        for i := 0 to |xs|
          invariant anyCan <==> exists k | 0 <= k < i :: GroupVerdict(xs[k], rg, numFields) == CanMatch
          invariant allCannot <==> forall k | 0 <= k < i :: GroupVerdict(xs[k], rg, numFields) != Indeterminate
        {
          var one := EvaluateAgainstRg(xs[i], rg, numFields);
          match one {
            case CanMatch => anyCan := true;
            case CannotMatch =>
            case Indeterminate => allCannot := false;
          }
        }
        return if anyCan then CanMatch else if allCannot then CannotMatch else Indeterminate;
    }
  }

  // ---------- pruning -----------------------------------------------------------------------

  ghost predicate Survives(exprs: seq<PushedExpr>, rg: RowGroup, numFields: nat) {
    forall k | 0 <= k < |exprs| :: GroupVerdict(exprs[k], rg, numFields) != CannotMatch
  }

  ghost predicate Undecided(exprs: seq<PushedExpr>, rg: RowGroup, numFields: nat) {
    forall k | 0 <= k < |exprs| :: GroupVerdict(exprs[k], rg, numFields) == Indeterminate
  }

  /** One group: does it survive, and did any statistic say anything? */
  method JudgeGroup(exprs: seq<PushedExpr>, rg: RowGroup, numFields: nat) returns (survives: bool, determinable: bool)
    ensures survives <==> Survives(exprs, rg, numFields)
    ensures !determinable <==> Undecided(exprs, rg, numFields)
  {
    determinable := false;
    for k := 0 to |exprs|
      invariant Survives(exprs[..k], rg, numFields)
      invariant !determinable <==> Undecided(exprs[..k], rg, numFields)
    {
      var v := EvaluateAgainstRg(exprs[k], rg, numFields);
      assert forall j | 0 <= j < k :: exprs[..k][j] == exprs[j] == exprs[..k + 1][j];
      match v {
        case CannotMatch => return false, true;
        case CanMatch => determinable := true;
        case Indeterminate =>
      }
    }
    assert exprs[..|exprs|] == exprs;
    return true, determinable;
  }

  /** Indices below `n` of the groups that survive, ascending. */
  ghost function Survivors(groups: seq<RowGroup>, exprs: seq<PushedExpr>, numFields: nat, n: nat): seq<nat>
    requires n <= |groups|
  {
    if n == 0 then []
    else Survivors(groups, exprs, numFields, n - 1) + if Survives(exprs, groups[n - 1], numFields) then [n - 1] else []
  }

  lemma {:induction false} SurvivorsAscend(groups: seq<RowGroup>, exprs: seq<PushedExpr>, numFields: nat, n: nat)
    requires n <= |groups|
    ensures Ascending(Survivors(groups, exprs, numFields, n)) && forall g | g in Survivors(groups, exprs, numFields, n) :: g < n
  {
    hide Survives;
    if n > 0 {
      SurvivorsAscend(groups, exprs, numFields, n - 1);
      var before := Survivors(groups, exprs, numFields, n - 1);
      assert forall i | 0 <= i < |before| :: before[i] in before;
    }
  }

  lemma {:induction false} SurvivorsMember(groups: seq<RowGroup>, exprs: seq<PushedExpr>, numFields: nat, n: nat, g: nat)
    requires n <= |groups|
    ensures g in Survivors(groups, exprs, numFields, n) <==> g < n && Survives(exprs, groups[g], numFields)
  {
    hide Survives;
    if n > 0 {
      SurvivorsMember(groups, exprs, numFields, n - 1, g);
    }
  }

  /** The groups to read, or `None` when no statistic decided anything. */
  method PruneRowGroups(groups: seq<RowGroup>, exprs: seq<PushedExpr>, numFields: nat) returns (r: Option<seq<nat>>)
    ensures r.None? <==> forall g | 0 <= g < |groups| :: Undecided(exprs, groups[g], numFields)
    ensures r.Some? ==> r.value == Survivors(groups, exprs, numFields, |groups|)
    ensures r.Some? ==> Ascending(r.value) && forall g: nat :: g in r.value <==> g < |groups| && Survives(exprs, groups[g], numFields)
  {
    if exprs == [] {
      return None;
    }
    var anyDeterminable := false;
    var keep: seq<nat> := [];
    for g := 0 to |groups|
      invariant keep == Survivors(groups, exprs, numFields, g)
      invariant !anyDeterminable <==> forall h | 0 <= h < g :: Undecided(exprs, groups[h], numFields)
    {
      var survives, determinable := JudgeGroup(exprs, groups[g], numFields);
      if determinable {
        anyDeterminable := true;
      }
      if survives {
        keep := keep + [g];
      }
    }
    SurvivorsAscend(groups, exprs, numFields, |groups|);
    forall g: nat ensures g in keep <==> g < |groups| && Survives(exprs, groups[g], numFields) {
      SurvivorsMember(groups, exprs, numFields, |groups|, g);
    }
    return if anyDeterminable then Some(keep) else None;
  }

  // ---------- soundness -------------------------------------------------------------------------

  function CountNulls(rows: seq<Row>, c: nat): (n: nat)
    ensures n <= |rows|
  {
    if rows == [] then 0 else (if rows[0](c).Null? then 1 else 0) + CountNulls(rows[1..], c)
  }

  lemma {:induction false} NullCounts(rows: seq<Row>, c: nat, r: nat)
    requires r < |rows|
    ensures CountNulls(rows, c) == 0 ==> !rows[r](c).Null?
    ensures CountNulls(rows, c) == |rows| ==> rows[r](c).Null?
  {
    if r > 0 {
      NullCounts(rows[1..], c, r - 1);
    }
  }

  ghost predicate Within(v: Scalar, mn: Option<Scalar>, mx: Option<Scalar>) {
    mn.Some? && mx.Some? ==>
      SameType(mn.value, v) && SameType(v, mx.value) && Compare(mn.value, v) <= 0 && Compare(v, mx.value) <= 0
  }

  /** The statistics of a chunk are true of the rows of its group. */
  ghost predicate Describes(chunk: ColumnChunk, rows: seq<Row>, c: nat) {
    && chunk.numValues == |rows|
    && (chunk.stats.Some? ==>
          && (chunk.stats.value.nullCount.Some? ==> chunk.stats.value.nullCount.value == CountNulls(rows, c))
          && forall r | 0 <= r < |rows| && !rows[r](c).Null? :: InBounds(rows[r](c), chunk.stats.value.minMax))
  }

  /** What a minimum and a maximum, where both are recorded, say of a value. */
  ghost predicate InBounds(v: Scalar, m: MinMax) {
    match (v, m)
    case (I16(x), Int32Stats(Some(lo), Some(hi))) => lo <= x <= hi
    case (I32(x), Int32Stats(Some(lo), Some(hi))) => lo <= x <= hi
    case (Date32(x), Int32Stats(Some(lo), Some(hi))) => lo <= x <= hi
    case (I64(x), Int64Stats(Some(lo), Some(hi))) => lo <= x <= hi
    case (TimestampMicros(x), Int64Stats(Some(lo), Some(hi))) => lo <= x <= hi
    case (F32(x), FloatStats(Some(lo), Some(hi))) => lo <= x <= hi
    case (F64(x), DoubleStats(Some(lo), Some(hi))) => lo <= x <= hi
    case (Utf8(x), BytesStats(Some(lo), Some(hi))) => !TextBefore(x, lo) && !TextBefore(hi, x)
    case (Bool(x), BoolStats(Some(lo), Some(hi))) => (lo ==> x) && (x ==> hi)
    case _ => true
  }

  /** True statistics bound the values the verdicts compare. */
  lemma InBoundsWithin(v: Scalar, m: MinMax)
    requires InBounds(v, m) && Bounds(v, m).Some?
    ensures Within(v, Bounds(v, m).value.0, Bounds(v, m).value.1)
  {
    match (v, m) {
      case (Utf8(x), BytesStats(Some(lo), Some(hi))) =>
        CmpBytesMeans(x, lo);
        CmpBytesMeans(hi, x);
        BytesOrder(x, lo, x);
        BytesOrder(hi, x, hi);
      case _ =>
    }
  }

  ghost predicate DescribesAll(rg: RowGroup, rows: seq<Row>) {
    forall c | 0 <= c < |rg| :: Describes(rg[c], rows, c)
  }

  /** Every comparison is between values of one type, as the pushable operators guarantee. */
  ghost predicate Typed(e: PushedExpr, row: Row) {
    match e
    case Leaf(q) => !q.op.IsNullTest() && !row(q.col).Null? ==> SameType(row(q.col), q.value)
    case And(xs) => forall i | 0 <= i < |xs| :: Typed(xs[i], row)
    case Or(xs) => forall i | 0 <= i < |xs| :: Typed(xs[i], row)
    case Not(x) => Typed(x, row)
  }

  lemma BoundsByType(a: Scalar, b: Scalar, m: MinMax)
    requires SameType(a, b)
    ensures Bounds(a, m) == Bounds(b, m)
  {
  }

  /** A verdict of CannotMatch rules out every value within the bounds. */
  lemma CmpVerdictSound(op: PushedOp, v: Scalar, lit: Scalar, mn: Option<Scalar>, mx: Option<Scalar>)
    requires !op.IsNullTest() && SameType(v, lit) && Within(v, mn, mx)
    requires CmpVerdict(op, lit, mn, mx) == CannotMatch
    ensures !Asks(op, Compare(v, lit))
  {
    hide Compare, CmpBytes;
    ScalarOrder(mn.value, v, lit);
    ScalarOrder(v, lit, mx.value);
    ScalarOrder(lit, v, mx.value);
    ScalarOrder(lit, mn.value, v);
    ScalarOrder(v, mx.value, lit);
    ScalarOrder(mn.value, lit, v);
    ScalarOrder(mn.value, v, mx.value);
    ScalarOrder(mx.value, lit, v);
  }

  /** And it is given only then: CannotMatch exactly when no value between the bounds would match. */
  lemma CmpVerdictExact(op: PushedOp, lit: Scalar, mn: Scalar, mx: Scalar)
    requires !op.IsNullTest() && SameType(mn, lit) && SameType(lit, mx) && Compare(mn, mx) <= 0
    ensures CmpVerdict(op, lit, Some(mn), Some(mx)) == CannotMatch <==>
            forall v | SameType(v, lit) && Within(v, Some(mn), Some(mx)) :: !Asks(op, Compare(v, lit))
  {
    if CmpVerdict(op, lit, Some(mn), Some(mx)) == CannotMatch {
      forall v | SameType(v, lit) && Within(v, Some(mn), Some(mx)) ensures !Asks(op, Compare(v, lit)) {
        CmpVerdictSound(op, v, lit, Some(mn), Some(mx));
      }
    } else {
      ScalarOrder(mn, mx, lit);
      ScalarOrder(mn, mn, lit);
      ScalarOrder(mx, mx, lit);
      ScalarOrder(lit, lit, mn);
      ScalarOrder(lit, mn, mx);
      ScalarOrder(lit, mx, mn);
      assert Within(mn, Some(mn), Some(mx)) && Within(mx, Some(mn), Some(mx));
      assert op == Eq ==> Within(lit, Some(mn), Some(mx));
    }
  }

  lemma LeafVerdictSound(q: PushedQual, rg: RowGroup, numFields: nat, rows: seq<Row>, r: nat)
    requires DescribesAll(rg, rows) && r < |rows| && Typed(Leaf(q), rows[r])
    requires LeafVerdict(q, rg, numFields) == CannotMatch
    ensures LeafTruth(q, rows[r]) != True
  {
    hide Compare, CmpVerdict;
    assert Describes(rg[q.col], rows, q.col);
    NullCounts(rows, q.col, r);
    var v, stats := rows[r](q.col), rg[q.col].stats.value;
    if !q.op.IsNullTest() && !v.Null? {
      BoundsByType(v, q.value, stats.minMax);
      assert InBounds(v, stats.minMax);
      if Bounds(v, stats.minMax).Some? {
        InBoundsWithin(v, stats.minMax);
      }
      if q.value.Bool? && stats.minMax.BoolStats? {
        BoolVerdictSound(q.op, v, q.value, stats.minMax);
      } else {
        var bounds := Bounds(q.value, stats.minMax).value;
        CmpVerdictSound(q.op, v, q.value, bounds.0, bounds.1);
      }
    }
  }

  /** For booleans, equality is ruled out exactly when no value between the bounds would match. */
  lemma BoolVerdictExact(op: PushedOp, v: bool, mn: bool, mx: bool)
    requires (op == Eq || op == Ne) && Compare(Bool(mn), Bool(mx)) <= 0
    ensures BoolVerdict(op, v, Some(mn), Some(mx)) == CannotMatch <==>
            forall x: bool | Within(Bool(x), Some(Bool(mn)), Some(Bool(mx))) :: !Asks(op, Compare(Bool(x), Bool(v)))
  {
    assert Within(Bool(mn), Some(Bool(mn)), Some(Bool(mx))) && Within(Bool(mx), Some(Bool(mn)), Some(Bool(mx)));
  }

  /** Both bounds are recorded, of the literal's type, and in order. */
  ghost predicate BothKnown(lit: Scalar, m: MinMax) {
    match (lit, m)
    case (I16(_), Int32Stats(Some(lo), Some(hi))) => lo <= hi
    case (I32(_), Int32Stats(Some(lo), Some(hi))) => lo <= hi
    case (Date32(_), Int32Stats(Some(lo), Some(hi))) => lo <= hi
    case (I64(_), Int64Stats(Some(lo), Some(hi))) => lo <= hi
    case (TimestampMicros(_), Int64Stats(Some(lo), Some(hi))) => lo <= hi
    case (F32(_), FloatStats(Some(lo), Some(hi))) => lo <= hi
    case (F64(_), DoubleStats(Some(lo), Some(hi))) => lo <= hi
    case (Utf8(_), BytesStats(Some(lo), Some(hi))) => !TextBefore(hi, lo)
    case (Bool(_), BoolStats(Some(lo), Some(hi))) => lo ==> hi
    case _ => false
  }

  lemma WithinInBounds(v: Scalar, m: MinMax)
    requires BothKnown(v, m)
    ensures Bounds(v, m).Some? && Bounds(v, m).value.0.Some? && Bounds(v, m).value.1.Some?
    ensures var mn, mx := Bounds(v, m).value.0, Bounds(v, m).value.1;
            && SameType(mn.value, v) && SameType(v, mx.value) && Compare(mn.value, mx.value) <= 0
            && (InBounds(v, m) <==> Within(v, mn, mx))
  {
    match (v, m) {
      case (Utf8(x), BytesStats(Some(lo), Some(hi))) =>
        CmpBytesMeans(x, lo);
        CmpBytesMeans(hi, x);
        CmpBytesMeans(hi, lo);
        BytesOrder(x, lo, x);
        BytesOrder(hi, x, hi);
        BytesOrder(hi, lo, hi);
      case _ =>
    }
  }

  lemma KnownByType(a: Scalar, b: Scalar, m: MinMax)
    requires SameType(a, b)
    ensures BothKnown(a, m) <==> BothKnown(b, m)
  {
  }

  /** With both bounds recorded, a comparison is ruled out exactly when no value between them satisfies it. */
  lemma LeafVerdictExact(q: PushedQual, rg: RowGroup, numFields: nat)
    requires !q.op.IsNullTest() && q.col < numFields && q.col < |rg| && rg[q.col].stats.Some?
    requires BothKnown(q.value, rg[q.col].stats.value.minMax) && (q.value.Bool? ==> q.op == Eq || q.op == Ne)
    ensures LeafVerdict(q, rg, numFields) != Indeterminate
    ensures LeafVerdict(q, rg, numFields) == CannotMatch <==>
            forall v | SameType(v, q.value) && InBounds(v, rg[q.col].stats.value.minMax) :: CompareTruth(q.op, v, q.value) != True
  {
    hide Compare, InBounds, BothKnown, Bounds, Within;
    var m, lit := rg[q.col].stats.value.minMax, q.value;
    forall v | SameType(v, lit) ensures BothKnown(v, m) && Bounds(v, m) == Bounds(lit, m) && !v.Null? {
      KnownByType(v, lit, m);
      BoundsByType(v, lit, m);
    }
    SameTypeSelf(lit, m);
    WithinInBounds(lit, m);
    var bounds := Bounds(lit, m).value;
    forall v | SameType(v, lit) ensures InBounds(v, m) <==> Within(v, bounds.0, bounds.1) {
      WithinInBounds(v, m);
    }
    if lit.Bool? {
      BoolLeafExact(q.op, lit, m);
    } else {
      CmpVerdictExact(q.op, lit, bounds.0.value, bounds.1.value);
    }
  }

  lemma SameTypeSelf(v: Scalar, m: MinMax)
    requires BothKnown(v, m)
    ensures SameType(v, v) && (v.Bool? <==> m.BoolStats?)
  {
  }

  lemma BoolLeafExact(op: PushedOp, lit: Scalar, m: MinMax)
    requires lit.Bool? && BothKnown(lit, m) && (op == Eq || op == Ne)
    ensures BoolVerdict(op, lit.b, m.tmin, m.tmax) != Indeterminate
    ensures BoolVerdict(op, lit.b, m.tmin, m.tmax) == CannotMatch <==>
            forall v | SameType(v, lit) && InBounds(v, m) :: CompareTruth(op, v, lit) != True
  {
    assert InBounds(Bool(m.tmin.value), m) && InBounds(Bool(m.tmax.value), m);
  }

  /** A verdict as a truth value: what cannot match is FALSE. */
  function AsTruth(v: Verdict): Truth {
    match v
    case CannotMatch => False
    case CanMatch => True
    case Indeterminate => Unknown
  }

  /** The verdict on a list is that of three-valued logic on its children. */
  lemma VerdictIsLogic(xs: seq<PushedExpr>, rg: RowGroup, numFields: nat)
    ensures var ts := seq(|xs|, i requires 0 <= i < |xs| => AsTruth(GroupVerdict(xs[i], rg, numFields)));
            && AsTruth(GroupVerdict(And(xs), rg, numFields)) == TruthAll(ts)
            && AsTruth(GroupVerdict(Or(xs), rg, numFields)) == TruthAny(ts)
  {
    var ts := seq(|xs|, i requires 0 <= i < |xs| => AsTruth(GroupVerdict(xs[i], rg, numFields)));
    assert forall i | 0 <= i < |xs| :: ts[i] == AsTruth(GroupVerdict(xs[i], rg, numFields));
  }

  lemma {:induction false} SomeNull(rows: seq<Row>, c: nat) returns (r: nat)
    requires CountNulls(rows, c) > 0
    ensures r < |rows| && rows[r](c).Null?
  {
    if rows[0](c).Null? {
      r := 0;
    } else {
      var k := SomeNull(rows[1..], c);
      r := k + 1;
    }
  }

  lemma {:induction false} SomeValue(rows: seq<Row>, c: nat) returns (r: nat)
    requires CountNulls(rows, c) < |rows|
    ensures r < |rows| && !rows[r](c).Null?
  {
    if !rows[0](c).Null? {
      r := 0;
    } else {
      var k := SomeValue(rows[1..], c);
      r := k + 1;
    }
  }

  /** A null test with a known null count is ruled out exactly when no row of the group passes it. */
  lemma NullTestVerdictExact(q: PushedQual, rg: RowGroup, numFields: nat, rows: seq<Row>)
    requires q.op.IsNullTest() && q.col < numFields && q.col < |rg| && Describes(rg[q.col], rows, q.col)
    requires rg[q.col].stats.Some? && rg[q.col].stats.value.nullCount.Some?
    ensures LeafVerdict(q, rg, numFields) == CannotMatch <==> forall r | 0 <= r < |rows| :: LeafTruth(q, rows[r]) != True
  {
    forall r | 0 <= r < |rows| {
      NullCounts(rows, q.col, r);
    }
    if q.op == IsNull && CountNulls(rows, q.col) > 0 {
      var r := SomeNull(rows, q.col);
      assert LeafTruth(q, rows[r]) == True;
    }
    if q.op == IsNotNull && CountNulls(rows, q.col) < |rows| {
      var r := SomeValue(rows, q.col);
      assert LeafTruth(q, rows[r]) == True;
    }
  }

  lemma BoolVerdictSound(op: PushedOp, v: Scalar, lit: Scalar, m: MinMax)
    requires !op.IsNullTest() && v.Bool? && lit.Bool? && m.BoolStats? && InBounds(v, m)
    requires BoolVerdict(op, lit.b, m.tmin, m.tmax) == CannotMatch
    ensures !Asks(op, Compare(v, lit))
  {
  }

  /** A group that cannot match holds no row on which the predicate is TRUE. */
  lemma {:induction false} GroupVerdictSound(e: PushedExpr, rg: RowGroup, numFields: nat, rows: seq<Row>, r: nat)
    requires DescribesAll(rg, rows) && r < |rows| && Typed(e, rows[r])
    requires GroupVerdict(e, rg, numFields) == CannotMatch
    ensures Meaning(e, rows[r]) != True
  {
    hide LeafVerdict, LeafTruth, DescribesAll;
    match e {
      case Leaf(q) => LeafVerdictSound(q, rg, numFields, rows, r);
      case And(xs) =>
        var i :| 0 <= i < |xs| && GroupVerdict(xs[i], rg, numFields) == CannotMatch;
        GroupVerdictSound(xs[i], rg, numFields, rows, r);
        assert Meanings(xs, rows[r])[i] != True;
      case Or(xs) =>
        forall i | 0 <= i < |xs| ensures Meanings(xs, rows[r])[i] != True {
          GroupVerdictSound(xs[i], rg, numFields, rows, r);
        }
    }
  }

  /** Pruning never drops a group that holds a matching row. */
  lemma PruneKeepsMatches(groups: seq<RowGroup>, exprs: seq<PushedExpr>, numFields: nat, g: nat, rows: seq<Row>, r: nat)
    requires g < |groups| && DescribesAll(groups[g], rows) && r < |rows|
    requires forall k | 0 <= k < |exprs| :: Typed(exprs[k], rows[r]) && Meaning(exprs[k], rows[r]) == True
    ensures g in Survivors(groups, exprs, numFields, |groups|)
  {
    forall k | 0 <= k < |exprs| ensures GroupVerdict(exprs[k], groups[g], numFields) != CannotMatch {
      if GroupVerdict(exprs[k], groups[g], numFields) == CannotMatch {
        GroupVerdictSound(exprs[k], groups[g], numFields, rows, r);
      }
    }
    SurvivorsMember(groups, exprs, numFields, |groups|, g);
  }
}
