/** `LIKE 'prefix%'` as a byte range (src/fdw/pushdown.rs, src/fdw/pushdown_walk.rs). */
module LikeRange {
  import opened Wrappers
  import opened Text
  import opened Pushdown

  const UNDERSCORE: Byte := '_' as int
  const BACKSLASH: Byte := '\\' as int

  // ---------- UTF-8 (section 4 of RFC 3629) --------------------------------------

  predicate Tail(s: Bytes, i: nat) {
    i < |s| && 0x80 <= s[i] <= 0xBF
  }

  /** Length of the well-formed character at the start, or zero. */
  function CharLen(s: Bytes): (n: nat)
    ensures n <= |s| && n <= 4
  {
    if s == [] then 0
    else if s[0] <= 0x7F then 1
    else if 0xC2 <= s[0] <= 0xDF && Tail(s, 1) then 2
    else if 0xE0 <= s[0] <= 0xEF && Tail(s, 1) && Tail(s, 2)
            && (s[0] == 0xE0 ==> s[1] >= 0xA0) && (s[0] == 0xED ==> s[1] <= 0x9F) then 3
    else if 0xF0 <= s[0] <= 0xF4 && Tail(s, 1) && Tail(s, 2) && Tail(s, 3)
            && (s[0] == 0xF0 ==> s[1] >= 0x90) && (s[0] == 0xF4 ==> s[1] <= 0x8F) then 4
    else 0
  }

  predicate ValidUtf8(s: Bytes)
    decreases |s|
  {
    s == [] || (CharLen(s) > 0 && ValidUtf8(s[CharLen(s)..]))
  }

  /** A Unicode scalar value: no surrogate. */
  predicate IsScalarValue(cp: nat) {
    cp <= 0x10FFFF && !(0xD800 <= cp <= 0xDFFF)
  }

  /** The bytes of a scalar value, as the table of section 3 lays out its bits. */
  function Encode(cp: nat): Bytes
    requires IsScalarValue(cp)
  {
    if cp < 0x80 then [cp]
    else if cp < 0x800 then [0xC0 + cp / 0x40, 0x80 + cp % 0x40]
    else if cp < 0x1_0000 then [0xE0 + cp / 0x40 / 0x40, 0x80 + cp / 0x40 % 0x40, 0x80 + cp % 0x40]
    else [0xF0 + cp / 0x40 / 0x40 / 0x40, 0x80 + cp / 0x40 / 0x40 % 0x40, 0x80 + cp / 0x40 % 0x40, 0x80 + cp % 0x40]
  }

  ghost predicate IsText(cps: seq<nat>) {
    forall i | 0 <= i < |cps| :: IsScalarValue(cps[i])
  }

  ghost function EncodeAll(cps: seq<nat>): Bytes
    requires IsText(cps)
  {
    if cps == [] then [] else Encode(cps[0]) + EncodeAll(cps[1..])
  }

  lemma EncodedChar(cp: nat, rest: Bytes)
    requires IsScalarValue(cp)
    ensures CharLen(Encode(cp) + rest) == |Encode(cp)| > 0
  {
  }

  lemma SixBits(hi: nat, lo: nat)
    requires lo < 0x40
    ensures (hi * 0x40 + lo) / 0x40 == hi && (hi * 0x40 + lo) % 0x40 == lo
  {
  }

  lemma CharEncodes(s: Bytes) returns (cp: nat)
    requires CharLen(s) > 0
    ensures IsScalarValue(cp) && Encode(cp) == s[..CharLen(s)]
  {
    var n := CharLen(s);
    if n == 1 {
      cp := s[0];
    } else {
      var first: int := s[0] - if n == 2 then 0xC0 else if n == 3 then 0xE0 else 0xF0;
      var b: int := s[1] - 0x80;
      var two: nat := first * 0x40 + b;
      SixBits(first, b);
      cp := two;
      if n > 2 {
        var c: int := s[2] - 0x80;
        var three: nat := two * 0x40 + c;
        SixBits(two, c);
        cp := three;
        if n > 3 {
          var d: int := s[3] - 0x80;
          SixBits(three, d);
          cp := three * 0x40 + d;
        }
      }
    }
  }

  lemma {:induction false} EncodedIsValid(cps: seq<nat>)
    requires IsText(cps)
    ensures ValidUtf8(EncodeAll(cps))
  {
    if cps != [] {
      EncodedIsValid(cps[1..]);
      EncodedChar(cps[0], EncodeAll(cps[1..]));
      var s := EncodeAll(cps);
      assert s[CharLen(s)..] == EncodeAll(cps[1..]);
    }
  }

  lemma EncodeCons(cp: nat, rest: seq<nat>)
    requires IsScalarValue(cp) && IsText(rest)
    ensures IsText([cp] + rest) && EncodeAll([cp] + rest) == Encode(cp) + EncodeAll(rest)
  {
    hide Encode, IsScalarValue;
    assert ([cp] + rest)[1..] == rest;
  }

  lemma {:induction false} ValidIsEncoded(s: Bytes) returns (cps: seq<nat>)
    requires ValidUtf8(s)
    ensures IsText(cps) && EncodeAll(cps) == s
    decreases |s|
  {
    hide CharLen, Encode, IsScalarValue;
    if s == [] {
      cps := [];
    } else {
      var cp := CharEncodes(s);
      var rest := ValidIsEncoded(s[CharLen(s)..]);
      EncodeCons(cp, rest);
      cps := [cp] + rest;
      assert s == s[..CharLen(s)] + s[CharLen(s)..];
    }
  }

  /** Valid text is exactly what scalar values are encoded to. */
  lemma ValidMeans(s: Bytes)
    ensures ValidUtf8(s) <==> exists cps :: IsText(cps) && EncodeAll(cps) == s
  {
    if ValidUtf8(s) {
      var cps := ValidIsEncoded(s);
    }
    if cps :| IsText(cps) && EncodeAll(cps) == s {
      EncodedIsValid(cps);
    }
  }

  lemma {:induction false} ValidHasNoFF(s: Bytes, i: nat)
    requires ValidUtf8(s) && i < |s|
    ensures s[i] < 0xFF
    decreases |s|
  {
    if i >= CharLen(s) {
      ValidHasNoFF(s[CharLen(s)..], i - CharLen(s));
    }
  }

  // ---------- the upper bound --------------------------------------------------------

  /** The least byte string above everything that starts with `prefix`. */
  function UpperBytes(prefix: Bytes): Option<Bytes> {
    if prefix == [] then None
    else
      var front, last := prefix[..|prefix| - 1], prefix[|prefix| - 1];
      if last < 0xFF then Some(front + [last + 1]) else UpperBytes(front)
  }

  /** That bound, if it is text. */
  function LexUpper(prefix: Bytes): Option<Bytes> {
    var u := UpperBytes(prefix);
    if u.Some? && ValidUtf8(u.value) then u else None
  }

  /** Increments the last byte that can be, dropping those after it; gives up if the result is not text. */
  method NextLexUpper(prefix: Bytes) returns (r: Option<Bytes>)
    ensures r == LexUpper(prefix)
  {
    var bytes := prefix;
    while bytes != []
      invariant UpperBytes(bytes) == UpperBytes(prefix)
      decreases |bytes|
    {
      var last := bytes[|bytes| - 1];
      if last < 0xFF {
        bytes := bytes[..|bytes| - 1] + [last + 1];
        return if ValidUtf8(bytes) then Some(bytes) else None;
      }
      bytes := bytes[..|bytes| - 1];
    }
    return None;
  }

  /** For text the loop never drops a byte. */
  lemma UpperOfText(prefix: Bytes)
    requires ValidUtf8(prefix) && prefix != []
    ensures prefix[|prefix| - 1] < 0xFF
    ensures UpperBytes(prefix) == Some(prefix[..|prefix| - 1] + [prefix[|prefix| - 1] + 1])
  {
    ValidHasNoFF(prefix, |prefix| - 1);
  }

  ghost predicate InRange(s: Bytes, lo: Bytes, hi: Bytes) {
    CmpBytes(lo, s) <= 0 && CmpBytes(s, hi) < 0
  }

  /** A byte string starts with the prefix exactly when it lies in the range. */
  lemma {:induction false} RangeIsPrefix(prefix: Bytes, s: Bytes)
    requires UpperBytes(prefix).Some?
    ensures prefix <= s <==> InRange(s, prefix, UpperBytes(prefix).value)
  {
    var front, last := prefix[..|prefix| - 1], prefix[|prefix| - 1];
    assert prefix == front + [last];
    if last < 0xFF {
      StepRange(front, last, s);
    } else {
      RangeIsPrefix(front, s);
      SnocAbove(front, last, s);
      PrefixBelow(front, prefix);
      BytesOrder(front, prefix, s);
    }
  }

  /** No smaller string is above everything that starts with the prefix. */
  lemma UpperIsLeast(prefix: Bytes, hi: Bytes)
    requires UpperBytes(prefix).Some? && forall s | prefix <= s :: CmpBytes(s, hi) < 0
    ensures CmpBytes(UpperBytes(prefix).value, hi) <= 0
  {
    var upper := UpperBytes(prefix).value;
    BytesOrder(upper, hi, hi);
    if CmpBytes(hi, upper) < 0 {
      assert CmpBytes(prefix, hi) < 0;
      RangeIsPrefix(prefix, hi);
      BytesOrder(hi, hi, hi);
      assert false;
    }
  }

  /** The range between two strings that differ by one in their last byte. */
  lemma {:induction false} StepRange(front: Bytes, last: Byte, s: Bytes)
    requires last < 0xFF
    ensures front + [last] <= s <==> InRange(s, front + [last], front + [last + 1])
  {
    var lo, hi := front + [last], front + [last + 1];
    if front != [] && s != [] {
      StepRange(front[1..], last, s[1..]);
      assert lo[1..] == front[1..] + [last] && hi[1..] == front[1..] + [last + 1];
      assert s == [s[0]] + s[1..];
      assert lo == [lo[0]] + lo[1..];
    } else if front == [] && s != [] {
      assert lo[1..] == [] && hi[1..] == [];
      assert lo <= s <==> s[0] == last;
      assert CmpBytes(lo, s) <= 0 <==> last <= s[0];
      assert CmpBytes(s, hi) < 0 <==> s[0] < last + 1;
    }
  }

  /** Above `front` followed by 0xFF, among strings that start with `front`. */
  lemma {:induction false} SnocAbove(front: Bytes, last: Byte, s: Bytes)
    requires last == 0xFF
    ensures front <= s ==> (front + [last] <= s <==> CmpBytes(front + [last], s) <= 0)
    ensures front + [last] <= s ==> CmpBytes(front + [last], s) <= 0
  {
    var lo := front + [last];
    if front != [] && s != [] {
      SnocAbove(front[1..], last, s[1..]);
      assert lo[1..] == front[1..] + [last];
      assert s == [s[0]] + s[1..] && front == [front[0]] + front[1..];
    } else if front == [] && s != [] {
      assert lo[1..] == [];
    }
  }

  lemma {:induction false} PrefixBelow(a: Bytes, b: Bytes)
    requires a <= b
    ensures CmpBytes(a, b) <= 0
  {
    if a != [] {
      PrefixBelow(a[1..], b[1..]);
    }
  }

  // ---------- LIKE ----------------------------------------------------------------------

  /** SQL's LIKE over bytes, with `_` for one character and backslash as the escape. */
  predicate LikeMatch(s: Bytes, pat: Bytes)
    decreases |pat| + |s|
  {
    if pat == [] then s == []
    else if pat[0] == PERCENT then LikeMatch(s, pat[1..]) || (s != [] && LikeMatch(s[1..], pat))
    else if pat[0] == UNDERSCORE then CharLen(s) > 0 && LikeMatch(s[CharLen(s)..], pat[1..])
    else if pat[0] == BACKSLASH then |pat| > 1 && s != [] && s[0] == pat[1] && LikeMatch(s[1..], pat[2..])
    else s != [] && s[0] == pat[0] && LikeMatch(s[1..], pat[1..])
  }

  predicate Plain(s: Bytes) {
    PERCENT !in s && UNDERSCORE !in s && BACKSLASH !in s
  }

  /** The prefix of a pattern that is plain text followed by one `%`. */
  function LikePrefixLiteral(pat: Bytes): Option<Bytes> {
    if pat == [] || pat[|pat| - 1] != PERCENT then None
    else
      var prefix := pat[..|pat| - 1];
      if !Plain(prefix) || prefix == [] then None else Some(prefix)
  }

  lemma {:induction false} PercentMatchesAll(s: Bytes)
    ensures LikeMatch(s, [PERCENT])
  {
    if s != [] {
      PercentMatchesAll(s[1..]);
    }
    assert [PERCENT][1..] == [];
  }

  lemma {:induction false} PlainPrefixMatch(prefix: Bytes, s: Bytes)
    requires Plain(prefix)
    ensures LikeMatch(s, prefix + [PERCENT]) <==> prefix <= s
  {
    var pat := prefix + [PERCENT];
    if prefix == [] {
      assert pat == [PERCENT];
      PercentMatchesAll(s);
    } else {
      assert pat[0] == prefix[0] && prefix[0] in prefix;
      if s != [] {
        PlainPrefixMatch(prefix[1..], s[1..]);
        assert pat[1..] == prefix[1..] + [PERCENT];
        assert s == [s[0]] + s[1..] && prefix == [prefix[0]] + prefix[1..];
      }
    }
  }

  /** A recognised pattern matches exactly the strings in its range, whenever it has one. */
  lemma LikeIsRange(pat: Bytes, s: Bytes)
    requires LikePrefixLiteral(pat).Some? && LexUpper(LikePrefixLiteral(pat).value).Some?
    ensures var prefix := LikePrefixLiteral(pat).value;
            LikeMatch(s, pat) <==> InRange(s, prefix, LexUpper(prefix).value)
  {
    var prefix := LikePrefixLiteral(pat).value;
    assert pat == prefix + [PERCENT];
    PlainPrefixMatch(prefix, s);
    RangeIsPrefix(prefix, s);
  }
}
