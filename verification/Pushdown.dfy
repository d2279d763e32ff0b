/**
 Pushed predicates and their three-valued meaning (src/fdw/pushdown.rs), with negation as the walker
 computes it (src/fdw/pushdown_walk.rs).
 */
module Pushdown {
  import opened Numbers
  import opened Text

  // ---------- three-valued logic ------------------------------------------------

  datatype Truth = True | False | Unknown

  function Of(b: bool): Truth {
    if b then True else False
  }

  function TruthNot(t: Truth): Truth {
    match t
    case True => False
    case False => True
    case Unknown => Unknown
  }

  /** SQL's AND of any number of conjuncts. */
  function TruthAll(ts: seq<Truth>): Truth {
    if exists i | 0 <= i < |ts| :: ts[i] == False then False
    else if exists i | 0 <= i < |ts| :: ts[i] == Unknown then Unknown
    else True
  }

  /** SQL's OR of any number of disjuncts. */
  function TruthAny(ts: seq<Truth>): Truth {
    if exists i | 0 <= i < |ts| :: ts[i] == True then True
    else if exists i | 0 <= i < |ts| :: ts[i] == Unknown then Unknown
    else False
  }

  /** FALSE below UNKNOWN below TRUE. */
  function Rank(t: Truth): nat {
    match t
    case False => 0
    case Unknown => 1
    case True => 2
  }

  /** AND is the least of its conjuncts, OR the greatest of its disjuncts, and NOT turns the order round. */
  lemma LogicMeans(ts: seq<Truth>, t: Truth)
    ensures (TruthAll(ts) == True || TruthAll(ts) in ts) && forall i | 0 <= i < |ts| :: Rank(TruthAll(ts)) <= Rank(ts[i])
    ensures (TruthAny(ts) == False || TruthAny(ts) in ts) && forall i | 0 <= i < |ts| :: Rank(TruthAny(ts)) >= Rank(ts[i])
    ensures Rank(TruthNot(t)) + Rank(t) == 2
  {
    if TruthAll(ts) == True {
      assert forall i | 0 <= i < |ts| :: ts[i] == True;
    }
    if TruthAny(ts) == False {
      assert forall i | 0 <= i < |ts| :: ts[i] == False;
    }
  }

  // ---------- values --------------------------------------------------------------

  /** A literal, or a cell. Floats are NaN-free; text compares as bytes. */
  datatype Scalar =
    | Null
    | Bool(b: bool)
    | I16(int)
    | I32(int)
    | I64(int)
    | F32(real)
    | F64(real)
    | Utf8(bytes: Bytes)
    | Date32(int)
    | TimestampMicros(int)
    | Decimal128(unscaled: int, precision: nat, scale: int)

  function CmpReal(a: real, b: real): int {
    if a < b then -1 else if a == b then 0 else 1
  }

  /** Both are non-null values of one column type. */
  predicate SameType(a: Scalar, b: Scalar) {
    match a
    case Null => false
    case Bool(_) => b.Bool?
    case I16(_) => b.I16?
    case I32(_) => b.I32?
    case I64(_) => b.I64?
    case F32(_) => b.F32?
    case F64(_) => b.F64?
    case Utf8(_) => b.Utf8?
    case Date32(_) => b.Date32?
    case TimestampMicros(_) => b.TimestampMicros?
    case Decimal128(_, p, s) => b.Decimal128? && b.precision == p && b.scale == s
  }

  /** Three-way comparison within a type. */
  function Compare(a: Scalar, b: Scalar): int {
    match (a, b)
    case (Bool(x), Bool(y)) => CmpInt(if x then 1 else 0, if y then 1 else 0)
    case (I16(x), I16(y)) => CmpInt(x, y)
    case (I32(x), I32(y)) => CmpInt(x, y)
    case (I64(x), I64(y)) => CmpInt(x, y)
    case (F32(x), F32(y)) => CmpReal(x, y)
    case (F64(x), F64(y)) => CmpReal(x, y)
    case (Utf8(x), Utf8(y)) => CmpBytes(x, y)
    case (Date32(x), Date32(y)) => CmpInt(x, y)
    case (TimestampMicros(x), TimestampMicros(y)) => CmpInt(x, y)
    case (Decimal128(x, _, _), Decimal128(y, _, _)) => CmpInt(x, y)
    case _ => 0
  }

  /** Comparison is a total order within a type. */
  lemma ScalarOrder(a: Scalar, b: Scalar, c: Scalar)
    requires SameType(a, b) && SameType(b, c)
    ensures Compare(a, b) == 0 <==> a == b
    ensures Compare(a, b) == -Compare(b, a)
    ensures Compare(a, b) <= 0 && Compare(b, c) <= 0 ==> Compare(a, c) <= 0
    ensures Compare(a, b) <= 0 && Compare(b, c) <= 0 && (Compare(a, b) < 0 || Compare(b, c) < 0) ==> Compare(a, c) < 0
  {
    if a.Utf8? {
      BytesOrder(a.bytes, b.bytes, c.bytes);
    }
  }

  // ---------- pushed predicates -----------------------------------------------------

  datatype PushedOp = Eq | Ne | Lt | Le | Gt | Ge | IsNull | IsNotNull {
    predicate IsNullTest() {
      IsNull? || IsNotNull?
    }
  }

  function Inverse(op: PushedOp): PushedOp {
    match op
    case Eq => Ne
    case Ne => Eq
    case Lt => Ge
    case Ge => Lt
    case Le => Gt
    case Gt => Le
    case IsNull => IsNotNull
    case IsNotNull => IsNull
  }

  datatype PushedQual = PushedQual(col: nat, op: PushedOp, value: Scalar)

  datatype PushedExpr =
    | Leaf(q: PushedQual)
    | And(xs: seq<PushedExpr>)
    | Or(xs: seq<PushedExpr>)
    | Not(x: PushedExpr)

  /** What a comparison operator asks of a three-way comparison. */
  predicate Asks(op: PushedOp, cmp: int)
    requires !op.IsNullTest()
  {
    match op
    case Eq => cmp == 0
    case Ne => cmp != 0
    case Lt => cmp < 0
    case Le => cmp <= 0
    case Gt => cmp > 0
    case Ge => cmp >= 0
  }

  function CompareTruth(op: PushedOp, a: Scalar, b: Scalar): Truth
    requires !op.IsNullTest()
  {
    if a.Null? || b.Null? then Unknown else Of(Asks(op, Compare(a, b)))
  }

  /** The order of two values of one type, spelled out. */
  ghost predicate Precedes(a: Scalar, b: Scalar) {
    match (a, b)
    case (Bool(x), Bool(y)) => !x && y
    case (I16(x), I16(y)) => x < y
    case (I32(x), I32(y)) => x < y
    case (I64(x), I64(y)) => x < y
    case (F32(x), F32(y)) => x < y
    case (F64(x), F64(y)) => x < y
    case (Utf8(x), Utf8(y)) => TextBefore(x, y)
    case (Date32(x), Date32(y)) => x < y
    case (TimestampMicros(x), TimestampMicros(y)) => x < y
    case (Decimal128(x, _, _), Decimal128(y, _, _)) => x < y
    case _ => false
  }

  lemma CompareMeans(a: Scalar, b: Scalar)
    requires SameType(a, b)
    ensures Compare(a, b) < 0 <==> Precedes(a, b)
    ensures Compare(a, b) > 0 <==> Precedes(b, a)
  {
    if a.Utf8? {
      CmpBytesMeans(a.bytes, b.bytes);
      CmpBytesMeans(b.bytes, a.bytes);
      BytesOrder(a.bytes, b.bytes, a.bytes);
    }
  }

  /** A comparison is unknown on a null, and otherwise says what its operator says of the order. */
  lemma ComparisonMeans(op: PushedOp, a: Scalar, b: Scalar)
    requires !op.IsNullTest()
    ensures a.Null? || b.Null? ==> CompareTruth(op, a, b) == Unknown
    ensures SameType(a, b) ==>
              CompareTruth(op, a, b) == match op {
                                          case Eq => Of(a == b)
                                          case Ne => Of(a != b)
                                          case Lt => Of(Precedes(a, b))
                                          case Le => Of(Precedes(a, b) || a == b)
                                          case Gt => Of(Precedes(b, a))
                                          case Ge => Of(Precedes(b, a) || a == b)
                                        }
  {
    hide Compare, Precedes;
    if SameType(a, b) {
      CompareMeans(a, b);
      ScalarOrder(a, b, a);
    }
  }

  /** A row gives every column its cell. */
  type Row = nat -> Scalar

  function LeafTruth(q: PushedQual, row: Row): Truth {
    match q.op
    case IsNull => Of(row(q.col).Null?)
    case IsNotNull => Of(!row(q.col).Null?)
    case _ => CompareTruth(q.op, row(q.col), q.value)
  }

  ghost function Meaning(e: PushedExpr, row: Row): Truth {
    match e
    case Leaf(q) => LeafTruth(q, row)
    case And(xs) => TruthAll(Meanings(xs, row))
    case Or(xs) => TruthAny(Meanings(xs, row))
    case Not(x) => TruthNot(Meaning(x, row))
  }

  ghost function Meanings(xs: seq<PushedExpr>, row: Row): (ts: seq<Truth>)
    ensures |ts| == |xs|
    ensures forall i | 0 <= i < |xs| :: ts[i] == Meaning(xs[i], row)
  {
    if xs == [] then [] else [Meaning(xs[0], row)] + Meanings(xs[1..], row)
  }

  // ---------- negation -----------------------------------------------------------------

  /** De Morgan with inverted leaves; a `Not` is stripped. Every operator has an inverse, so this never fails. */
  function Invert(e: PushedExpr): PushedExpr {
    match e
    case Leaf(q) => Leaf(q.(op := Inverse(q.op)))
    case And(xs) => Or(seq(|xs|, i requires 0 <= i < |xs| => Invert(xs[i])))
    case Or(xs) => And(seq(|xs|, i requires 0 <= i < |xs| => Invert(xs[i])))
    case Not(x) => x
  }

  /** `Invert` is exact three-valued negation on every row, nulls included, of every tree. */
  lemma {:induction false} InvertNegates(e: PushedExpr, row: Row)
    ensures Meaning(Invert(e), row) == TruthNot(Meaning(e, row))
  {
    match e {
      case Leaf(q) =>
      case Not(x) =>
      case And(xs) =>
        forall i | 0 <= i < |xs| ensures Meaning(Invert(xs[i]), row) == TruthNot(Meaning(xs[i], row)) {
          InvertNegates(xs[i], row);
        }
        DeMorgan(Meanings(xs, row), Meanings(Invert(e).xs, row));
      case Or(xs) =>
        forall i | 0 <= i < |xs| ensures Meaning(Invert(xs[i]), row) == TruthNot(Meaning(xs[i], row)) {
          InvertNegates(xs[i], row);
        }
        DeMorgan(Meanings(xs, row), Meanings(Invert(e).xs, row));
    }
  }

  lemma DeMorgan(ts: seq<Truth>, us: seq<Truth>)
    requires |ts| == |us| && forall i | 0 <= i < |ts| :: us[i] == TruthNot(ts[i])
    ensures TruthAny(us) == TruthNot(TruthAll(ts)) && TruthAll(us) == TruthNot(TruthAny(ts))
  {
    assert (exists i | 0 <= i < |ts| :: ts[i] == False) <==> (exists i | 0 <= i < |us| :: us[i] == True);
    assert (exists i | 0 <= i < |ts| :: ts[i] == True) <==> (exists i | 0 <= i < |us| :: us[i] == False);
    assert (exists i | 0 <= i < |ts| :: ts[i] == Unknown) <==> (exists i | 0 <= i < |us| :: us[i] == Unknown);
  }

  predicate NotFree(e: PushedExpr) {
    match e
    case Leaf(_) => true
    case And(xs) => forall i | 0 <= i < |xs| :: NotFree(xs[i])
    case Or(xs) => forall i | 0 <= i < |xs| :: NotFree(xs[i])
    case Not(_) => false
  }

  /** On a tree without `Not`, inverting twice gives the tree back. */
  lemma {:induction false} InvertTwice(e: PushedExpr)
    requires NotFree(e)
    ensures NotFree(Invert(e)) && Invert(Invert(e)) == e
  {
    match e {
      case Leaf(_) =>
      case And(xs) =>
        forall i | 0 <= i < |xs| ensures NotFree(Invert(xs[i])) && Invert(Invert(xs[i])) == xs[i] {
          InvertTwice(xs[i]);
        }
      case Or(xs) =>
        forall i | 0 <= i < |xs| ensures NotFree(Invert(xs[i])) && Invert(Invert(xs[i])) == xs[i] {
          InvertTwice(xs[i]);
        }
    }
  }
}
