/**
 The walk from a PostgreSQL qual to a pushed predicate (src/fdw/pushdown_walk.rs), over an abstract
 expression tree, and when it may be trusted not to lose rows.
 */
module Walker {
  import opened Wrappers
  import opened Text
  import opened Pushdown
  import opened LikeRange

  // ---------- PostgreSQL expressions ----------------------------------------------

  const UNIX_TO_PG_EPOCH_DAYS := 10957
  const I32_MAX := 0x7FFF_FFFF

  /** A constant: null, a literal, a date in days from 2000-01-01, or anything else. */
  datatype PgConst = NullConst | Literal(s: Scalar) | Day(pgDays: int) | OpaqueConst(id: nat)

  datatype Operand =
    | Var(attno: int, isBool: bool, plainCollation: bool)
    | Const(c: PgConst)
    | Relabel(arg: Operand)
    | OpaqueOperand(id: nat)

  /** An operator of the pushable table, or another one. */
  datatype PgOp = Known(op: PushedOp) | OpaqueOp(id: nat)

  datatype BoolTest = IsTrue | IsNotTrue | IsFalse | IsNotFalse | IsUnknown | IsNotUnknown

  datatype ArrayArg = Elements(es: seq<PgConst>) | OpaqueArray(id: nat)

  datatype PgExpr =
    | Bare(o: Operand)
    | OpExpr(op: PgOp, lhs: Operand, rhs: Operand)
    | LikeExpr(lhs: Operand, rhs: Operand)
    | AndExpr(args: seq<PgExpr>)
    | OrExpr(args: seq<PgExpr>)
    | NotExpr(arg: PgExpr)
    | NullTest(isNull: bool, o: Operand)
    | BooleanTest(kind: BoolTest, o: Operand)
    | ArrayExpr(op: PgOp, useOr: bool, lhs: Operand, arr: ArrayArg)
    | RelabelExpr(arg: PgExpr)
    | OpaqueExpr(id: nat)

  /** A row together with everything about PostgreSQL the walker does not look into. */
  datatype Env = Env(cells: Row, system: int -> Scalar, value: nat -> Scalar, truth: nat -> Truth,
                     collated: (PushedOp, Scalar, Scalar) -> Truth)

  function ConstValue(c: PgConst, env: Env): Scalar {
    match c
    case NullConst => Scalar.Null
    case Literal(s) => s
    case Day(d) => Date32(d + UNIX_TO_PG_EPOCH_DAYS)
    case OpaqueConst(id) => env.value(id)
  }

  function OperandValue(o: Operand, env: Env): Scalar {
    match o
    case Var(attno, _, _) => if attno >= 1 then env.cells(attno - 1) else env.system(attno)
    case Const(c) => ConstValue(c, env)
    case Relabel(arg) => OperandValue(arg, env)
    case OpaqueOperand(id) => env.value(id)
  }

  /** Whether every variable under an operand compares as bytes. */
  predicate PlainCollation(o: Operand) {
    match o
    case Var(_, _, plain) => plain
    case Relabel(arg) => PlainCollation(arg)
    case _ => true
  }

  /** A comparison as PostgreSQL makes it; equality is bytewise under every (deterministic) collation. */
  function PgCompare(op: PushedOp, a: Scalar, b: Scalar, plain: bool, env: Env): Truth
    requires !op.IsNullTest()
  {
    if plain || op == Eq || op == Ne then CompareTruth(op, a, b)
    else if a.Null? || b.Null? then Unknown
    else env.collated(op, a, b)
  }

  function BoolTestTruth(kind: BoolTest, v: Scalar): Truth {
    var t := CompareTruth(Eq, v, Bool(true));
    var f := CompareTruth(Eq, v, Bool(false));
    match kind
    case IsTrue => Of(t == True)
    case IsNotTrue => Of(t != True)
    case IsFalse => Of(f == True)
    case IsNotFalse => Of(f != True)
    case IsUnknown => Of(v.Null?)
    case IsNotUnknown => Of(!v.Null?)
  }

  /** A boolean test is never unknown; IS TRUE holds of true, IS FALSE of false, IS UNKNOWN of null, and their negations of the rest. */
  lemma BoolTestMeans(v: Scalar)
    requires v.Null? || v.Bool?
    ensures BoolTestTruth(IsTrue, v) == Of(v == Bool(true)) && BoolTestTruth(IsNotTrue, v) == Of(v != Bool(true))
    ensures BoolTestTruth(IsFalse, v) == Of(v == Bool(false)) && BoolTestTruth(IsNotFalse, v) == Of(v != Bool(false))
    ensures BoolTestTruth(IsUnknown, v) == Of(v == Scalar.Null) && BoolTestTruth(IsNotUnknown, v) == Of(v != Scalar.Null)
  {
  }

  /** The truth of an expression on a row, as PostgreSQL evaluates it. */
  ghost function Eval(e: PgExpr, env: Env): Truth {
    match e
    case Bare(o) => CompareTruth(Eq, OperandValue(o, env), Bool(true))
    case OpExpr(Known(op), l, r) =>
      if op.IsNullTest() then Unknown
      else PgCompare(op, OperandValue(l, env), OperandValue(r, env), PlainCollation(l) && PlainCollation(r), env)
    case OpExpr(OpaqueOp(id), _, _) => env.truth(id)
    case LikeExpr(l, r) =>
      var s, p := OperandValue(l, env), OperandValue(r, env);
      if s.Null? || p.Null? then Unknown else Of(s.Utf8? && p.Utf8? && LikeMatch(s.bytes, p.bytes))
    case AndExpr(args) => TruthAll(Evals(args, env))
    case OrExpr(args) => TruthAny(Evals(args, env))
    case NotExpr(arg) => TruthNot(Eval(arg, env))
    case NullTest(isNull, o) => Of(OperandValue(o, env).Null? == isNull)
    case BooleanTest(kind, o) => BoolTestTruth(kind, OperandValue(o, env))
    case ArrayExpr(Known(op), useOr, l, Elements(es)) =>
      if op.IsNullTest() then Unknown
      else
        var ts := seq(|es|, i requires 0 <= i < |es| =>
                        PgCompare(op, OperandValue(l, env), ConstValue(es[i], env), PlainCollation(l), env));
        if useOr then TruthAny(ts) else TruthAll(ts)
    case ArrayExpr(OpaqueOp(id), _, _, _) => env.truth(id)
    case ArrayExpr(Known(_), _, _, OpaqueArray(id)) => env.truth(id)
    case RelabelExpr(arg) => Eval(arg, env)
    case OpaqueExpr(id) => env.truth(id)
  }

  ghost function Evals(es: seq<PgExpr>, env: Env): (ts: seq<Truth>)
    ensures |ts| == |es|
    ensures forall i | 0 <= i < |es| :: ts[i] == Eval(es[i], env)
  {
    if es == [] then [] else [Eval(es[0], env)] + Evals(es[1..], env)
  }

  // ---------- the walk ----------------------------------------------------------------

  function Peel(o: Operand): Operand {
    match o
    case Relabel(arg) => Peel(arg)
    case _ => o
  }

  function TryVar(o: Operand): Option<nat> {
    match Peel(o)
    case Var(attno, _, _) => if attno < 1 then None else Some(attno - 1)
    case _ => None
  }

  predicate VarCollationOk(o: Operand) {
    match Peel(o)
    case Var(_, _, plain) => plain
    case _ => false
  }

  /** Literals of the types that have a pushed form; dates move to the UNIX epoch unless they overflow. */
  function LowerConst(c: PgConst): Option<Scalar> {
    match c
    case NullConst => None
    case Literal(s) => if s.I16? || s.I32? || s.I64? || s.F32? || s.F64? || s.Utf8? then Some(s) else None
    case Day(d) => if d + UNIX_TO_PG_EPOCH_DAYS > I32_MAX then None else Some(Date32(d + UNIX_TO_PG_EPOCH_DAYS))
    case OpaqueConst(_) => None
  }

  function TryConst(o: Operand): Option<Scalar> {
    match Peel(o)
    case Const(c) => LowerConst(c)
    case _ => None
  }

  function Flip(op: PushedOp): PushedOp {
    match op
    case Lt => Gt
    case Gt => Lt
    case Le => Ge
    case Ge => Le
    case other => other
  }

  function WalkOp(op: PushedOp, l: Operand, r: Operand): Option<PushedExpr> {
    if TryVar(l).Some? && TryConst(r).Some? then
      if VarCollationOk(l) then Some(Leaf(PushedQual(TryVar(l).value, op, TryConst(r).value))) else None
    else if TryConst(l).Some? && TryVar(r).Some? then
      if VarCollationOk(r) then Some(Leaf(PushedQual(TryVar(r).value, Flip(op), TryConst(l).value))) else None
    else None
  }

  function TextConst(o: Operand): Option<Bytes> {
    var c := TryConst(o);
    if c.Some? && c.value.Utf8? then Some(c.value.bytes) else None
  }

  function WalkLike(l: Operand, r: Operand): Option<PushedExpr> {
    var col, pat := TryVar(l), TextConst(r);
    if col.None? || !VarCollationOk(l) || pat.None? then None
    else
      var prefix := LikePrefixLiteral(pat.value);
      if prefix.None? then None
      else
        var upper := LexUpper(prefix.value);
        if upper.None? then None
        else Some(And([Leaf(PushedQual(col.value, Ge, Utf8(prefix.value))), Leaf(PushedQual(col.value, Lt, Utf8(upper.value)))]))
  }

  /** All elements lowered, or nothing: a null element changes what IN means. */
  function LowerAll(es: seq<PgConst>): Option<seq<Scalar>> {
    if forall i | 0 <= i < |es| :: LowerConst(es[i]).Some?
    then Some(seq(|es|, i requires 0 <= i < |es| && LowerConst(es[i]).Some? => LowerConst(es[i]).value))
    else None
  }

  function WalkArray(op: PushedOp, useOr: bool, l: Operand, arr: ArrayArg): Option<PushedExpr> {
    var col := TryVar(l);
    var isIn, isNotIn := useOr && op == Eq, !useOr && op == Ne;
    if !(isIn || isNotIn) || col.None? || !arr.Elements? then None
    else
      var vs := LowerAll(arr.es);
      if vs.None? || vs.value == [] then None
      else
        var leaves := seq(|vs.value|, i requires 0 <= i < |vs.value| => Leaf(PushedQual(col.value, op, vs.value[i])));
        Some(if |leaves| == 1 then leaves[0] else if useOr then Or(leaves) else And(leaves))
  }

  function WalkBoolTest(kind: BoolTest, o: Operand): Option<PushedExpr> {
    var col := TryVar(o);
    if col.None? || !(kind.IsTrue? || kind.IsFalse?) then None
    else Some(Leaf(PushedQual(col.value, Eq, Bool(kind.IsTrue?))))
  }

  /** The children that walked, in order. */
  function Somes<T>(os: seq<Option<T>>): seq<T> {
    if os == [] then [] else (if os[0].Some? then [os[0].value] else []) + Somes(os[1..])
  }

  function Walk(e: PgExpr): Option<PushedExpr> {
    match e
    case Bare(o) =>
      var v := Peel(o);
      if v.Var? && v.isBool && v.attno >= 1 then Some(Leaf(PushedQual(v.attno - 1, Eq, Bool(true)))) else None
    case OpExpr(Known(op), l, r) => if op.IsNullTest() then None else WalkOp(op, l, r)
    case OpExpr(OpaqueOp(_), _, _) => None
    case LikeExpr(l, r) => WalkLike(l, r)
    case AndExpr(args) =>
      var children := Somes(seq(|args|, i requires 0 <= i < |args| => Walk(args[i])));
      if children == [] then None else Some(if |children| == 1 then children[0] else And(children))
    case OrExpr(args) =>
      var children := Somes(seq(|args|, i requires 0 <= i < |args| => Walk(args[i])));
      if |children| != |args| then None else Some(if |children| == 1 then children[0] else Or(children))
    case NotExpr(arg) =>
      var inner := Walk(arg);
      if inner.None? then None else Some(Invert(inner.value))
    case NullTest(isNull, o) =>
      var col := TryVar(o);
      if col.None? then None else Some(Leaf(PushedQual(col.value, if isNull then IsNull else IsNotNull, Scalar.Null)))
    case BooleanTest(kind, o) => WalkBoolTest(kind, o)
    case ArrayExpr(Known(op), useOr, l, arr) => WalkArray(op, useOr, l, arr)
    case ArrayExpr(OpaqueOp(_), _, _, _) => None
    case RelabelExpr(arg) => Walk(arg)
    case OpaqueExpr(_) => None
  }

  // ---------- days ---------------------------------------------------------------------

  /** The Gregorian leap rule. */
  predicate IsLeap(year: nat) {
    year % 4 == 0 && (year % 100 != 0 || year % 400 == 0)
  }

  function YearLength(year: nat): nat {
    if IsLeap(year) then 366 else 365
  }

  /** Days from the first of January of one year to that of another. */
  function DaysBetween(first: nat, last: nat): nat
    requires first <= last
    decreases last - first
  {
    if first == last then 0 else DaysBetween(first, last - 1) + YearLength(last - 1)
  }

  lemma EpochGap()
    ensures DaysBetween(1970, 2000) == UNIX_TO_PG_EPOCH_DAYS
  {
    assert DaysBetween(1970, 1974) == 1461;
    assert DaysBetween(1970, 1978) == 2922;
    assert DaysBetween(1970, 1982) == 4383;
    assert DaysBetween(1970, 1986) == 5844;
    assert DaysBetween(1970, 1990) == 7305;
    assert DaysBetween(1970, 1994) == 8766;
    assert DaysBetween(1970, 1998) == 10227;
  }

  /** A date constant, in days from 2000, is the day as many days after 1970 as the calendar says; it is pushed as such unless 32 bits cannot hold it. */
  lemma DayMeans(d: int, env: Env)
    ensures ConstValue(Day(d), env) == Date32(d + DaysBetween(1970, 2000))
    ensures LowerConst(Day(d)).None? <==> d + DaysBetween(1970, 2000) > 2147483647
    ensures LowerConst(Day(d)).Some? ==> LowerConst(Day(d)) == Some(ConstValue(Day(d), env))
  {
    EpochGap();
  }

  // ---------- leaves translate exactly --------------------------------------------------

  lemma {:induction false} PeelKeepsValue(o: Operand, env: Env)
    ensures OperandValue(Peel(o), env) == OperandValue(o, env)
    ensures PlainCollation(Peel(o)) == PlainCollation(o)
  {
    match o {
      case Relabel(arg) => PeelKeepsValue(arg, env);
      case _ =>
    }
  }

  lemma FlipAgrees(op: PushedOp, a: Scalar, b: Scalar)
    requires !op.IsNullTest()
    ensures !Flip(op).IsNullTest() && CompareTruth(op, a, b) == CompareTruth(Flip(op), b, a)
  {
    CompareFlips(a, b);
  }

  lemma CompareFlips(a: Scalar, b: Scalar)
    ensures Compare(a, b) == -Compare(b, a)
  {
    if a.Utf8? && b.Utf8? {
      BytesOrder(a.bytes, b.bytes, []);
    }
  }

  lemma OpExact(op: PushedOp, l: Operand, r: Operand, env: Env)
    requires !op.IsNullTest() && WalkOp(op, l, r).Some?
    ensures Meaning(WalkOp(op, l, r).value, env.cells) == Eval(OpExpr(Known(op), l, r), env)
  {
    PeelKeepsValue(l, env);
    PeelKeepsValue(r, env);
    FlipAgrees(op, OperandValue(l, env), OperandValue(r, env));
  }

  lemma LikeExact(l: Operand, r: Operand, env: Env)
    requires WalkLike(l, r).Some?
    ensures Meaning(WalkLike(l, r).value, env.cells) == Eval(LikeExpr(l, r), env)
  {
    PeelKeepsValue(l, env);
    PeelKeepsValue(r, env);
    var pushed := WalkLike(l, r).value;
    var ts := Meanings(pushed.xs, env.cells);
    assert ts[0] == Meaning(pushed.xs[0], env.cells) && ts[1] == Meaning(pushed.xs[1], env.cells);
    var s := OperandValue(l, env);
    if s.Utf8? {
      LikeIsRange(TextConst(r).value, s.bytes);
      CompareFlips(s, pushed.xs[0].q.value);
    }
  }

  /** One IN element: the leaf means what the comparison does. */
  lemma ElementExact(op: PushedOp, l: Operand, c: PgConst, env: Env)
    requires (op == Eq || op == Ne) && TryVar(l).Some? && LowerConst(c).Some?
    ensures LeafTruth(PushedQual(TryVar(l).value, op, LowerConst(c).value), env.cells) ==
            PgCompare(op, OperandValue(l, env), ConstValue(c, env), PlainCollation(l), env)
  {
    PeelKeepsValue(l, env);
  }

  lemma ArrayExact(op: PushedOp, useOr: bool, l: Operand, arr: ArrayArg, env: Env)
    requires !op.IsNullTest() && WalkArray(op, useOr, l, arr).Some?
    ensures Meaning(WalkArray(op, useOr, l, arr).value, env.cells) == Eval(ArrayExpr(Known(op), useOr, l, arr), env)
  {
    hide LeafTruth, PgCompare, TryVar, LowerConst, ConstValue, OperandValue, LikeMatch;
    var es := arr.es;
    var vs := LowerAll(es).value;
    var leaves := seq(|vs|, i requires 0 <= i < |vs| => Leaf(PushedQual(TryVar(l).value, op, vs[i])));
    var ts := seq(|es|, i requires 0 <= i < |es| =>
                    PgCompare(op, OperandValue(l, env), ConstValue(es[i], env), PlainCollation(l), env));
    forall i | 0 <= i < |es| ensures Meanings(leaves, env.cells)[i] == ts[i] {
      ElementExact(op, l, es[i], env);
    }
    assert Meanings(leaves, env.cells) == ts;
    if |leaves| == 1 {
      SingleTruth(ts);
    }
  }

  lemma SingleTruth(ts: seq<Truth>)
    requires |ts| == 1
    ensures TruthAll(ts) == ts[0] && TruthAny(ts) == ts[0]
  {
  }

  // ---------- which trees translate soundly ------------------------------------------------

  /**
   The walk keeps TRUE: dropped conjuncts are harmless here, and under a NOT the walk must keep FALSE.
   */
  ghost predicate KeepsTrue(e: PgExpr) {
    match e
    case AndExpr(args) => forall i | 0 <= i < |args| :: Walk(args[i]).Some? ==> KeepsTrue(args[i])
    case OrExpr(args) => forall i | 0 <= i < |args| :: KeepsTrue(args[i])
    case NotExpr(arg) => KeepsFalse(arg)
    case RelabelExpr(arg) => KeepsTrue(arg)
    case _ => true
  }

  /** The walk keeps FALSE: no conjunct may be dropped, and IS TRUE and IS FALSE do not qualify. */
  ghost predicate KeepsFalse(e: PgExpr) {
    match e
    case AndExpr(args) => forall i | 0 <= i < |args| :: Walk(args[i]).Some? && KeepsFalse(args[i])
    case OrExpr(args) => forall i | 0 <= i < |args| :: KeepsFalse(args[i])
    case NotExpr(arg) => KeepsTrue(arg)
    case RelabelExpr(arg) => KeepsFalse(arg)
    case BooleanTest(_, _) => Walk(e).None?
    case _ => true
  }

  lemma {:induction false} SomesFrom<T>(os: seq<Option<T>>, k: nat) returns (i: nat)
    requires k < |Somes(os)|
    ensures i < |os| && os[i] == Some(Somes(os)[k])
  {
    if os[0].Some? && k == 0 {
      i := 0;
    } else {
      var j := SomesFrom(os[1..], if os[0].Some? then k - 1 else k);
      i := j + 1;
    }
  }

  lemma {:induction false} SomesAll<T>(os: seq<Option<T>>)
    ensures |Somes(os)| <= |os|
    ensures |Somes(os)| == |os| <==> forall i | 0 <= i < |os| :: os[i].Some?
    ensures |Somes(os)| == |os| ==> forall i | 0 <= i < |os| :: os[i] == Some(Somes(os)[i])
  {
    if os != [] {
      SomesAll(os[1..]);
      if |Somes(os)| == |os| {
        assert os[0].Some?;
        forall i | 0 <= i < |os| ensures os[i] == Some(Somes(os)[i]) {
          if i > 0 {
            assert os[1..][i - 1] == os[i];
          }
        }
      } else if os[0].Some? {
        var i :| 0 <= i < |os[1..]| && os[1..][i].None?;
        assert os[i + 1].None?;
      }
    }
  }

  ghost function Walks(args: seq<PgExpr>): (os: seq<Option<PushedExpr>>)
    ensures |os| == |args|
  {
    seq(|args|, i requires 0 <= i < |args| => Walk(args[i]))
  }

  /** An AND walks if any conjunct does, an OR if all disjuncts do, a NOT if its argument does. */
  lemma WalkReaches(args: seq<PgExpr>)
    ensures Walk(AndExpr(args)).Some? <==> exists i | 0 <= i < |args| :: Walk(args[i]).Some?
    ensures Walk(OrExpr(args)).Some? <==> forall i | 0 <= i < |args| :: Walk(args[i]).Some?
    ensures forall i | 0 <= i < |args| :: Walk(NotExpr(args[i])).Some? <==> Walk(args[i]).Some?
  {
    var os := Walks(args);
    SomesAll(os);
    assert forall i | 0 <= i < |args| :: os[i] == Walk(args[i]);
    if Walk(AndExpr(args)).Some? {
      var i := SomesFrom(os, 0);
    } else {
      forall i | 0 <= i < |args| ensures Walk(args[i]).None? {
        NoneIfEmpty(os, i);
      }
    }
  }

  lemma {:induction false} NoneIfEmpty<T>(os: seq<Option<T>>, i: nat)
    requires Somes(os) == [] && i < |os|
    ensures os[i].None?
  {
    if i > 0 {
      NoneIfEmpty(os[1..], i - 1);
    }
  }

  // ---------- which leaves walk --------------------------------------------------------------

  /** Under any relabelling, column `k` of the table. */
  ghost predicate IsColumn(o: Operand, k: nat) {
    match o
    case Var(attno, _, _) => attno == k + 1
    case Relabel(arg) => IsColumn(arg, k)
    case _ => false
  }

  ghost predicate HasColumn(o: Operand) {
    exists k: nat :: IsColumn(o, k)
  }

  ghost predicate IsBoolColumn(o: Operand) {
    match o
    case Var(attno, isBool, _) => attno >= 1 && isBool
    case Relabel(arg) => IsBoolColumn(arg)
    case _ => false
  }

  ghost predicate IsConstant(o: Operand, c: PgConst) {
    match o
    case Const(d) => d == c
    case Relabel(arg) => IsConstant(arg, c)
    case _ => false
  }

  /** Constants with a pushed form: integers, floats, text, and dates within 32 bits of the file's epoch. */
  ghost predicate Pushable(c: PgConst) {
    match c
    case Literal(s) => s.I16? || s.I32? || s.I64? || s.F32? || s.F64? || s.Utf8?
    case Day(d) => d + DaysBetween(1970, 2000) <= 2147483647
    case _ => false
  }

  ghost predicate ColumnAndConst(l: Operand, r: Operand, k: nat, c: PgConst) {
    IsColumn(l, k) && PlainCollation(l) && IsConstant(r, c) && Pushable(c)
  }

  lemma {:induction false} PeelMeans(o: Operand)
    ensures forall k: nat :: IsColumn(o, k) <==> TryVar(o) == Some(k)
    ensures TryVar(o).Some? <==> HasColumn(o)
    ensures TryVar(o).Some? ==> VarCollationOk(o) == PlainCollation(o)
    ensures forall c :: IsConstant(o, c) <==> Peel(o) == Const(c)
    ensures IsBoolColumn(o) <==> Peel(o).Var? && Peel(o).isBool && Peel(o).attno >= 1
  {
    match o {
      case Relabel(arg) =>
        PeelMeans(arg);
        forall k: nat ensures IsColumn(o, k) <==> TryVar(o) == Some(k) {
          assert IsColumn(o, k) <==> IsColumn(arg, k);
        }
        forall c ensures IsConstant(o, c) <==> Peel(o) == Const(c) {
          assert IsConstant(o, c) <==> IsConstant(arg, c);
        }
      case _ =>
    }
    if TryVar(o).Some? {
      assert IsColumn(o, TryVar(o).value);
    }
  }

  lemma PushableMeans(c: PgConst)
    ensures LowerConst(c).Some? <==> Pushable(c)
  {
    EpochGap();
  }

  /** A comparison walks exactly when one side is a column that compares as bytes and the other a pushable constant. */
  lemma OpWalks(op: PushedOp, l: Operand, r: Operand)
    ensures Walk(OpExpr(Known(op), l, r)).Some? <==>
            !op.IsNullTest() && ((exists k: nat, c :: ColumnAndConst(l, r, k, c)) || (exists k: nat, c :: ColumnAndConst(r, l, k, c)))
  {
    hide Pushable, LowerConst, IsColumn, IsConstant, IsBoolColumn, PlainCollation, VarCollationOk;
    PeelMeans(l);
    PeelMeans(r);
    forall c ensures LowerConst(c).Some? <==> Pushable(c) {
      PushableMeans(c);
    }
    SideWalks(l, r);
    SideWalks(r, l);
    NotBoth(l);
    NotBoth(r);
  }

  lemma SideWalks(l: Operand, r: Operand)
    ensures (TryVar(l).Some? && TryConst(r).Some? && VarCollationOk(l)) <==> exists k: nat, c :: ColumnAndConst(l, r, k, c)
  {
    hide Pushable, LowerConst, IsBoolColumn;
    PeelMeans(l);
    PeelMeans(r);
    if TryConst(r).Some? {
      PushableMeans(Peel(r).c);
      if TryVar(l).Some? && VarCollationOk(l) {
        assert ColumnAndConst(l, r, TryVar(l).value, Peel(r).c);
      }
    }
    if k: nat, c :| ColumnAndConst(l, r, k, c) {
      PushableMeans(c);
      assert IsColumn(l, k) && IsConstant(r, c);
      assert Peel(r) == Const(c);
    }
  }

  lemma NotBoth(o: Operand)
    ensures !(TryVar(o).Some? && TryConst(o).Some?)
  {
  }

  /** The pattern is a constant of plain text and one final `%`. */
  ghost predicate IsPrefixPattern(r: Operand, prefix: Bytes) {
    IsConstant(r, Literal(Utf8(prefix + ['%' as int]))) && prefix != [] && Plain(prefix)
  }

  lemma PatternMeans(r: Operand, prefix: Bytes)
    ensures IsPrefixPattern(r, prefix) <==> TextConst(r).Some? && LikePrefixLiteral(TextConst(r).value) == Some(prefix)
  {
    hide Plain, IsConstant, IsColumn, IsBoolColumn, HasColumn;
    PeelMeans(r);
    var pat := prefix + ['%' as int];
    assert pat[..|pat| - 1] == prefix && pat[|pat| - 1] == PERCENT;
    assert IsConstant(r, Literal(Utf8(pat))) <==> Peel(r) == Const(Literal(Utf8(pat)));
    if TextConst(r).Some? && LikePrefixLiteral(TextConst(r).value) == Some(prefix) {
      assert TextConst(r).value == pat;
    }
  }

  /** A LIKE walks exactly for a column that compares as bytes and such a pattern whose range ends in text. */
  lemma LikeWalks(l: Operand, r: Operand)
    ensures Walk(LikeExpr(l, r)).Some? <==>
            HasColumn(l) && PlainCollation(l) && exists prefix: Bytes :: IsPrefixPattern(r, prefix) && LexUpper(prefix).Some?
  {
    hide LexUpper, IsPrefixPattern, IsConstant, IsColumn, IsBoolColumn, HasColumn, PlainCollation, VarCollationOk, TextConst, LikePrefixLiteral;
    PeelMeans(l);
    forall prefix: Bytes
      ensures IsPrefixPattern(r, prefix) <==> TextConst(r).Some? && LikePrefixLiteral(TextConst(r).value) == Some(prefix)
    {
      PatternMeans(r, prefix);
    }
    if Walk(LikeExpr(l, r)).Some? {
      var prefix := LikePrefixLiteral(TextConst(r).value).value;
      assert IsPrefixPattern(r, prefix) && LexUpper(prefix).Some?;
    }
  }

  /** IN and NOT IN walk exactly for a column and a list of pushable constants that is not empty. */
  lemma ArrayWalks(op: PushedOp, useOr: bool, l: Operand, arr: ArrayArg)
    ensures Walk(ArrayExpr(Known(op), useOr, l, arr)).Some? <==>
            && ((useOr && op == Eq) || (!useOr && op == Ne)) && HasColumn(l)
            && arr.Elements? && arr.es != [] && forall i | 0 <= i < |arr.es| :: Pushable(arr.es[i])
  {
    hide Pushable, LowerConst, IsBoolColumn, IsConstant;
    PeelMeans(l);
    if arr.Elements? {
      forall i | 0 <= i < |arr.es| ensures LowerConst(arr.es[i]).Some? <==> Pushable(arr.es[i]) {
        PushableMeans(arr.es[i]);
      }
    }
  }

  /** A null test walks exactly for a column, IS TRUE and IS FALSE too, and a bare operand for a boolean column. */
  lemma TestWalks(isNull: bool, kind: BoolTest, o: Operand)
    ensures Walk(NullTest(isNull, o)).Some? <==> HasColumn(o)
    ensures Walk(BooleanTest(kind, o)).Some? <==> (kind == IsTrue || kind == IsFalse) && HasColumn(o)
    ensures Walk(Bare(o)).Some? <==> IsBoolColumn(o)
  {
    PeelMeans(o);
  }

  /** The walk leaves no NOT. */
  lemma {:induction false} WalkNotFree(e: PgExpr)
    ensures Walk(e).Some? ==> NotFree(Walk(e).value)
  {
    match e {
      case AndExpr(args) =>
        forall i | 0 <= i < |args| && Walk(args[i]).Some? ensures NotFree(Walk(args[i]).value) {
          WalkNotFree(args[i]);
        }
        var children := SomesNotFree(args);
        assert Walk(e).Some? ==> Walk(e).value == if |children| == 1 then children[0] else And(children);
      case OrExpr(args) =>
        forall i | 0 <= i < |args| && Walk(args[i]).Some? ensures NotFree(Walk(args[i]).value) {
          WalkNotFree(args[i]);
        }
        var children := SomesNotFree(args);
        assert Walk(e).Some? ==> Walk(e).value == Or(children) || (|children| == 1 && Walk(e).value == children[0]);
      case NotExpr(arg) =>
        WalkNotFree(arg);
        if Walk(arg).Some? {
          InvertTwice(Walk(arg).value);
        }
      case RelabelExpr(arg) => WalkNotFree(arg);
      case _ =>
    }
  }

  lemma SomesNotFree(args: seq<PgExpr>) returns (children: seq<PushedExpr>)
    requires forall i | 0 <= i < |args| :: Walk(args[i]).Some? ==> NotFree(Walk(args[i]).value)
    ensures children == Somes(seq(|args|, i requires 0 <= i < |args| => Walk(args[i])))
    ensures forall k | 0 <= k < |children| :: NotFree(children[k])
  {
    var os := Walks(args);
    children := Somes(os);
    forall k | 0 <= k < |children| ensures NotFree(children[k]) {
      var i := SomesFrom(os, k);
      assert os[i] == Walk(args[i]);
    }
  }

  /** What a walk has to guarantee on one row. */
  ghost predicate SoundAt(e: PgExpr, env: Env) {
    Walk(e).Some? ==>
      && (KeepsTrue(e) && Eval(e, env) == True ==> Meaning(Walk(e).value, env.cells) == True)
      && (KeepsFalse(e) && Eval(e, env) == False ==> Meaning(Walk(e).value, env.cells) == False)
  }

  lemma AndSound(args: seq<PgExpr>, env: Env)
    requires forall i | 0 <= i < |args| :: SoundAt(args[i], env)
    ensures SoundAt(AndExpr(args), env)
  {
    var e, children := AndExpr(args), Somes(Walks(args));
    var ts, us := Evals(args, env), Meanings(children, env.cells);
    if Walk(e).Some? {
      if |children| == 1 {
        SingleTruth(us);
      }
      assert Meaning(Walk(e).value, env.cells) == TruthAll(us);
      if KeepsTrue(e) && Eval(e, env) == True {
        forall k | 0 <= k < |us| ensures us[k] == True {
          var i := SomesFrom(Walks(args), k);
          assert ts[i] == True && SoundAt(args[i], env);
        }
      }
      if KeepsFalse(e) && Eval(e, env) == False {
        SomesAll(Walks(args));
        var i :| 0 <= i < |ts| && ts[i] == False;
        assert Walks(args)[i] == Some(children[i]) && SoundAt(args[i], env);
        assert us[i] == False;
      }
    }
  }

  lemma OrSound(args: seq<PgExpr>, env: Env)
    requires forall i | 0 <= i < |args| :: SoundAt(args[i], env)
    ensures SoundAt(OrExpr(args), env)
  {
    var e, children := OrExpr(args), Somes(Walks(args));
    var ts, us := Evals(args, env), Meanings(children, env.cells);
    if Walk(e).Some? {
      SomesAll(Walks(args));
      if |children| == 1 {
        SingleTruth(us);
      }
      assert Meaning(Walk(e).value, env.cells) == TruthAny(us);
      forall i | 0 <= i < |args|
        ensures KeepsTrue(e) && ts[i] == True ==> us[i] == True
        ensures KeepsFalse(e) && ts[i] == False ==> us[i] == False
      {
        assert Walks(args)[i] == Some(children[i]) && SoundAt(args[i], env);
      }
      if KeepsTrue(e) && Eval(e, env) == True {
        var i :| 0 <= i < |ts| && ts[i] == True;
        assert us[i] == True;
      }
    }
  }

  /** Every row on which the qual is TRUE makes the pushed predicate TRUE, and so for FALSE. */
  lemma {:induction false} WalkSound(e: PgExpr, env: Env)
    ensures SoundAt(e, env)
  {
    match e {
      case AndExpr(args) =>
        forall i | 0 <= i < |args| ensures SoundAt(args[i], env) {
          WalkSound(args[i], env);
        }
        AndSound(args, env);
      case OrExpr(args) =>
        forall i | 0 <= i < |args| ensures SoundAt(args[i], env) {
          WalkSound(args[i], env);
        }
        OrSound(args, env);
      case NotExpr(arg) =>
        WalkSound(arg, env);
        if Walk(arg).Some? {
          InvertNegates(Walk(arg).value, env.cells);
        }
      case RelabelExpr(arg) => WalkSound(arg, env);
      case OpExpr(Known(op), l, r) =>
        if Walk(e).Some? {
          OpExact(op, l, r, env);
        }
      case LikeExpr(l, r) =>
        if Walk(e).Some? {
          LikeExact(l, r, env);
        }
      case ArrayExpr(Known(op), useOr, l, arr) =>
        if Walk(e).Some? {
          ArrayExact(op, useOr, l, arr, env);
        }
      case Bare(o) => PeelKeepsValue(o, env);
      case NullTest(_, o) => PeelKeepsValue(o, env);
      case BooleanTest(_, o) => PeelKeepsValue(o, env);
      case _ =>
    }
  }

  // ---------- a list of quals ---------------------------------------------------------------

  /** Walks each top-level qual on its own and keeps what walks. */
  method WalkQuals(quals: seq<PgExpr>) returns (pushed: seq<PushedExpr>)
    ensures pushed == Somes(Walks(quals))
  {
    pushed := [];
    for i := 0 to |quals|
      invariant pushed == Somes(Walks(quals)[..i])
    {
      var e := Walk(quals[i]);
      SomesSnoc(Walks(quals)[..i], e);
      assert Walks(quals)[..i + 1] == Walks(quals)[..i] + [e];
      if e.Some? {
        pushed := pushed + [e.value];
      }
    }
    assert Walks(quals)[..|quals|] == Walks(quals);
  }

  lemma {:induction false} SomesSnoc<T>(os: seq<Option<T>>, o: Option<T>)
    ensures Somes(os + [o]) == Somes(os) + if o.Some? then [o.value] else []
  {
    if os != [] {
      SomesSnoc(os[1..], o);
      assert (os + [o])[1..] == os[1..] + [o];
    }
  }

  /** A row that satisfies every qual satisfies every pushed predicate. */
  lemma QualsSound(quals: seq<PgExpr>, env: Env, k: nat)
    requires k < |Somes(Walks(quals))|
    requires forall i | 0 <= i < |quals| :: KeepsTrue(quals[i]) && Eval(quals[i], env) == True
    ensures Meaning(Somes(Walks(quals))[k], env.cells) == True
  {
    var i := SomesFrom(Walks(quals), k);
    WalkSound(quals[i], env);
  }

  // ---------- where the walk does lose rows ----------------------------------------------------

  /** The qual holds on a row that the pushed predicate does not let through. */
  ghost predicate Loses(e: PgExpr, env: Env) {
    Walk(e).Some? && Eval(e, env) == True && Meaning(Walk(e).value, env.cells) != True
  }

  ghost predicate LosesNoRow(e: PgExpr) {
    forall env: Env :: !Loses(e, env)
  }

  ghost predicate NeverHolds(p: PushedExpr) {
    forall cells: Row :: Meaning(p, cells) == False
  }

  /** What is left of an AND is FALSE on every row on which some dropped conjunct is FALSE. */
  ghost predicate FalseWhereDropped(args: seq<PgExpr>, p: PushedExpr) {
    forall k, env: Env | 0 <= k < |args| && Walk(args[k]).None? && Eval(args[k], env) == False :: Meaning(p, env.cells) == False
  }

  lemma NotAnd(args: seq<PgExpr>, env: Env)
    requires Walk(AndExpr(args)).Some?
    ensures Loses(NotExpr(AndExpr(args)), env) <==>
            Eval(AndExpr(args), env) == False && Meaning(Walk(AndExpr(args)).value, env.cells) != False
  {
    hide Invert, Meaning;
    InvertNegates(Walk(AndExpr(args)).value, env.cells);
  }

  /** A negated AND whose walked conjuncts keep FALSE loses no row exactly when that is so. */
  lemma DropUnderNot(args: seq<PgExpr>)
    requires Walk(AndExpr(args)).Some? && forall i | 0 <= i < |args| :: Walk(args[i]).Some? ==> KeepsFalse(args[i])
    ensures LosesNoRow(NotExpr(AndExpr(args))) <==> FalseWhereDropped(args, Walk(AndExpr(args)).value)
  {
    hide Meaning, Walk;
    var e, p := NotExpr(AndExpr(args)), Walk(AndExpr(args)).value;
    if LosesNoRow(e) {
      forall k, env: Env | 0 <= k < |args| && Walk(args[k]).None? && Eval(args[k], env) == False ensures Meaning(p, env.cells) == False {
        assert Evals(args, env)[k] == False && !Loses(e, env);
        NotAnd(args, env);
      }
    }
    if FalseWhereDropped(args, p) {
      forall env: Env ensures !Loses(e, env) {
        NotAnd(args, env);
        if Eval(AndExpr(args), env) == False {
          var k :| 0 <= k < |args| && Evals(args, env)[k] == False;
          if Walk(args[k]).Some? {
            WalkSound(args[k], env);
            AndFalse(args, k, env);
          }
        }
      }
    }
  }

  lemma AndFalse(args: seq<PgExpr>, k: nat, env: Env)
    requires k < |args| && Walk(args[k]).Some? && Meaning(Walk(args[k]).value, env.cells) == False && Walk(AndExpr(args)).Some?
    ensures Meaning(Walk(AndExpr(args)).value, env.cells) == False
  {
    var children := Somes(Walks(args));
    var j := SomesIndex(Walks(args), k);
    var us := Meanings(children, env.cells);
    assert us[j] == False;
    if |children| == 1 {
      SingleTruth(us);
    }
  }

  lemma {:induction false} SomesIndex<T>(os: seq<Option<T>>, i: nat) returns (k: nat)
    requires i < |os| && os[i].Some?
    ensures k < |Somes(os)| && Somes(os)[k] == os[i].value
  {
    if i == 0 {
      k := 0;
    } else {
      var j := SomesIndex(os[1..], i - 1);
      k := if os[0].Some? then j + 1 else j;
    }
  }

  ghost predicate CanFailOn(e: PgExpr, cells: Row) {
    exists env: Env :: env.cells == cells && Eval(e, env) == False
  }

  /** A conjunct that can be FALSE on every row, by something the walker does not see into. */
  ghost predicate Falsifiable(e: PgExpr) {
    forall cells: Row :: CanFailOn(e, cells)
  }

  /** With such a conjunct dropped, it loses no row only if what is left is always FALSE. */
  lemma DropUnseenUnderNot(args: seq<PgExpr>, k: nat)
    requires k < |args| && Walk(args[k]).None? && Falsifiable(args[k]) && Walk(AndExpr(args)).Some?
    ensures LosesNoRow(NotExpr(AndExpr(args))) <==> NeverHolds(Walk(AndExpr(args)).value)
  {
    hide Meaning, Walk;
    var e, p := NotExpr(AndExpr(args)), Walk(AndExpr(args)).value;
    if LosesNoRow(e) {
      forall cells: Row ensures Meaning(p, cells) == False {
        assert CanFailOn(args[k], cells);
        var env: Env :| env.cells == cells && Eval(args[k], env) == False;
        assert Evals(args, env)[k] == False && !Loses(e, env);
        NotAnd(args, env);
      }
    }
    if NeverHolds(p) {
      forall env: Env ensures !Loses(e, env) {
        NotAnd(args, env);
      }
    }
  }

  /** `NOT (x IS TRUE)` is TRUE where `x` is null; its pushed form `x <> true` is not. */
  lemma IsTrueUnderNot(col: nat)
    ensures !LosesNoRow(NotExpr(BooleanTest(IsTrue, Var(col + 1, true, true))))
  {
    var test := BooleanTest(IsTrue, Var(col + 1, true, true));
    var env := Env(_ => Scalar.Null, _ => Scalar.Null, _ => Scalar.Null, _ => False, (_, _, _) => False);
    assert Walk(test) == Some(Leaf(PushedQual(col, Eq, Bool(true))));
    assert Walk(NotExpr(test)) == Some(Leaf(PushedQual(col, Ne, Bool(true))));
    assert Eval(test, env) == False;
    assert Loses(NotExpr(test), env);
  }
}
