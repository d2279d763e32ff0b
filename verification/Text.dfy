/** Text as bytes and its order, as `str` and `[u8]` compare. */
module Text {
  import opened Numbers

  type Byte = b: nat | b < 256
  type Bytes = seq<Byte>

  const PERCENT: Byte := '%' as int

  function CmpBytes(a: Bytes, b: Bytes): int {
    if a == [] || b == [] then CmpInt(|a|, |b|)
    else if a[0] != b[0] then CmpInt(a[0], b[0])
    else CmpBytes(a[1..], b[1..])
  }

  lemma {:induction false} BytesOrder(a: Bytes, b: Bytes, c: Bytes)
    ensures CmpBytes(a, b) == 0 <==> a == b
    ensures CmpBytes(a, b) == -CmpBytes(b, a)
    ensures CmpBytes(a, b) <= 0 && CmpBytes(b, c) <= 0 ==> CmpBytes(a, c) <= 0
    ensures CmpBytes(a, b) <= 0 && CmpBytes(b, c) <= 0 && (CmpBytes(a, b) < 0 || CmpBytes(b, c) < 0) ==> CmpBytes(a, c) < 0
  {
    if a != [] && b != [] {
      BytesOrder(a[1..], b[1..], if c == [] then [] else c[1..]);
      assert a == [a[0]] + a[1..] && b == [b[0]] + b[1..];
    }
  }

  /** `a` and `b` agree before `p`, and there `a` ends or has the smaller byte. */
  predicate SmallerAt(a: Bytes, b: Bytes, p: nat) {
    && p <= |a| && p < |b| && a[..p] == b[..p]
    && (p == |a| || a[p] < b[p])
  }

  /** The order of text: a proper prefix, or smaller at the first difference. */
  ghost predicate TextBefore(a: Bytes, b: Bytes) {
    exists p: nat :: SmallerAt(a, b, p)
  }

  /** Comparison answers the order of text. */
  lemma {:induction false} CmpBytesMeans(a: Bytes, b: Bytes)
    ensures CmpBytes(a, b) < 0 <==> TextBefore(a, b)
  {
    if b == [] || (a != [] && a[0] > b[0]) {
      assert forall p: nat :: !SmallerAt(a, b, p) by {
        assert forall p: nat | 0 < p <= |a| && p < |b| :: a[..p][0] == a[0] && b[..p][0] == b[0];
      }
    } else if a == [] || a[0] < b[0] {
      assert SmallerAt(a, b, 0);
    } else {
      CmpBytesMeans(a[1..], b[1..]);
      forall p: nat | p < |b| && p <= |a| && p > 0 ensures SmallerAt(a, b, p) <==> SmallerAt(a[1..], b[1..], p - 1) {
        assert a[..p] == [a[0]] + a[1..][..p - 1] && b[..p] == [b[0]] + b[1..][..p - 1];
      }
      TextBeforeTail(a, b);
    }
  }

  lemma TextBeforeTail(a: Bytes, b: Bytes)
    requires a != [] && b != [] && a[0] == b[0]
    requires forall p: nat | p < |b| && p <= |a| && p > 0 :: SmallerAt(a, b, p) <==> SmallerAt(a[1..], b[1..], p - 1)
    ensures TextBefore(a, b) <==> TextBefore(a[1..], b[1..])
  {
    if TextBefore(a, b) {
      var p: nat :| SmallerAt(a, b, p);
      assert SmallerAt(a[1..], b[1..], p - 1);
    }
    if TextBefore(a[1..], b[1..]) {
      var p: nat :| SmallerAt(a[1..], b[1..], p);
      assert SmallerAt(a, b, p + 1);
    }
  }
}
