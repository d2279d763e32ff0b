/**
 The order of merge keys (src/parquet_io/multifile.rs): nulls last, floats by their IEEE 754 total
 order (section 5.10 of IEEE 754-2008), keys compared column by column.
 */
module SortKey {
  import opened Numbers
  import opened Text

  /** A double by its 64-bit pattern. */
  const SIGN_BIT: nat := 0x8000_0000_0000_0000
  type Bits64 = b: nat | b < 2 * SIGN_BIT

  datatype SortKeyValue =
    | Null
    | I64(value: int)
    | F64(bits: Bits64)
    | Utf8(text: Bytes)
    | Date32(days: int)
    | TimestampMicros(micros: int)
  {
    function Discriminant(): nat {
      match this
      case I64(_) => 0
      case F64(_) => 1
      case Utf8(_) => 2
      case Date32(_) => 3
      case TimestampMicros(_) => 4
      case Null => 5
    }
  }

  type Key = seq<SortKeyValue>

  /** `f64::total_cmp`: the magnitude bits of a negative pattern are flipped before comparing as signed words. */
  function TotalRank(bits: Bits64): int {
    if bits < SIGN_BIT then bits else -1 - (bits - SIGN_BIT)
  }

  function CmpValue(a: SortKeyValue, b: SortKeyValue): int {
    if a.Discriminant() != b.Discriminant() then CmpInt(a.Discriminant(), b.Discriminant())
    else match (a, b)
      case (I64(x), I64(y)) => CmpInt(x, y)
      case (F64(x), F64(y)) => CmpInt(TotalRank(x), TotalRank(y))
      case (Utf8(x), Utf8(y)) => CmpBytes(x, y)
      case (Date32(x), Date32(y)) => CmpInt(x, y)
      case (TimestampMicros(x), TimestampMicros(y)) => CmpInt(x, y)
      case _ => 0
  }

  function CmpKey(a: Key, b: Key): int {
    if a == [] || b == [] then CmpInt(|a|, |b|)
    else if CmpValue(a[0], b[0]) != 0 then CmpValue(a[0], b[0])
    else CmpKey(a[1..], b[1..])
  }

  predicate Le(a: Key, b: Key) {
    CmpKey(a, b) <= 0
  }

  // ---------- a total order --------------------------------------------------

  lemma ValueOrder(a: SortKeyValue, b: SortKeyValue, c: SortKeyValue)
    ensures CmpValue(a, b) == 0 <==> a == b
    ensures CmpValue(a, b) == -CmpValue(b, a)
    ensures CmpValue(a, b) <= 0 && CmpValue(b, c) <= 0 ==> CmpValue(a, c) <= 0
    ensures CmpValue(a, Null) <= 0
  {
    if a.Utf8? && b.Utf8? {
      BytesOrder(a.text, b.text, if c.Utf8? then c.text else []);
    }
  }

  /** Key comparison is a total order whose equality is equality of keys. */
  lemma {:induction false} KeyOrder(a: Key, b: Key, c: Key)
    ensures CmpKey(a, b) == 0 <==> a == b
    ensures CmpKey(a, b) == -CmpKey(b, a)
    ensures CmpKey(a, b) <= 0 && CmpKey(b, c) <= 0 ==> CmpKey(a, c) <= 0
  {
    if a != [] && b != [] {
      KeyOrder(a[1..], b[1..], if c == [] then [] else c[1..]);
      assert a == [a[0]] + a[1..] && b == [b[0]] + b[1..];
      ValueOrder(a[0], b[0], if c == [] then Null else c[0]);
      if c != [] {
        ValueOrder(b[0], c[0], a[0]);
        ValueOrder(c[0], a[0], b[0]);
      }
    }
  }

  /** Two keys, so that callers need name no third. */
  lemma LeTotal(a: Key, b: Key)
    ensures Le(a, a) && (Le(a, b) || Le(b, a)) && (Le(a, b) && Le(b, a) ==> a == b)
  {
    KeyOrder(a, a, a);
    KeyOrder(a, b, a);
  }

  lemma LeTrans(a: Key, b: Key, c: Key)
    requires Le(a, b) && Le(b, c)
    ensures Le(a, c)
  {
    KeyOrder(a, b, c);
  }

  // ---------- what the order is ----------------------------------------------------

  /** Doubles by sign and magnitude: negatives first, and of two negatives the greater magnitude. */
  predicate DoubleBefore(x: Bits64, y: Bits64) {
    if x < SIGN_BIT then y < SIGN_BIT && x < y else y < SIGN_BIT || x > y
  }

  /** The order of values: by type as listed, within a type by value, and null after everything. */
  ghost predicate Before(a: SortKeyValue, b: SortKeyValue) {
    match a
    case I64(x) => if b.I64? then x < b.value else true
    case F64(x) => if b.F64? then DoubleBefore(x, b.bits) else !b.I64?
    case Utf8(x) => if b.Utf8? then TextBefore(x, b.text) else b.Date32? || b.TimestampMicros? || b.Null?
    case Date32(x) => if b.Date32? then x < b.days else b.TimestampMicros? || b.Null?
    case TimestampMicros(x) => if b.TimestampMicros? then x < b.micros else b.Null?
    case Null => false
  }

  lemma CmpValueMeans(a: SortKeyValue, b: SortKeyValue)
    ensures CmpValue(a, b) < 0 <==> Before(a, b)
  {
    if a.Utf8? && b.Utf8? {
      CmpBytesMeans(a.text, b.text);
    }
  }

  /** At `i` the keys differ for the first time, and there `a` has the earlier value. */
  ghost predicate EarlierAt(a: Key, b: Key, i: nat) {
    i < |a| && i < |b| && a[..i] == b[..i] && Before(a[i], b[i])
  }

  /** Keys of one length are in order exactly when they are equal or earlier at their first difference. */
  lemma {:induction false} LeMeans(a: Key, b: Key)
    requires |a| == |b|
    ensures Le(a, b) <==> a == b || exists i: nat :: EarlierAt(a, b, i)
  {
    if a != [] {
      CmpValueMeans(a[0], b[0]);
      ValueOrder(a[0], b[0], a[0]);
      assert a == [a[0]] + a[1..] && b == [b[0]] + b[1..];
      if a[0] == b[0] {
        LeMeans(a[1..], b[1..]);
        EarlierTail(a, b);
      } else {
        assert Before(a[0], b[0]) ==> EarlierAt(a, b, 0);
        assert forall i: nat | EarlierAt(a, b, i) :: i == 0 by {
          assert forall i: nat | 0 < i < |a| :: a[..i][0] == a[0] && b[..i][0] == b[0];
        }
      }
    }
  }

  lemma EarlierTail(a: Key, b: Key)
    requires |a| == |b| > 0 && a[0] == b[0]
    ensures (exists i: nat :: EarlierAt(a, b, i)) <==> exists i: nat :: EarlierAt(a[1..], b[1..], i)
  {
    BeforeSelf(a[0]);
    forall i: nat | 0 < i < |a| ensures EarlierAt(a, b, i) <==> EarlierAt(a[1..], b[1..], i - 1) {
      assert a[..i] == [a[0]] + a[1..][..i - 1] && b[..i] == [b[0]] + b[1..][..i - 1];
    }
    if i: nat :| EarlierAt(a, b, i) {
      assert EarlierAt(a[1..], b[1..], i - 1);
    }
    if i: nat :| EarlierAt(a[1..], b[1..], i) {
      assert EarlierAt(a, b, i + 1);
    }
  }

  lemma BeforeSelf(a: SortKeyValue)
    ensures !Before(a, a)
  {
    CmpValueMeans(a, a);
    ValueOrder(a, a, a);
  }
}
