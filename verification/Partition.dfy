/**
 Hive-style partition paths: what INSERT generates and what a scan parses back
 (src/fdw/partition.rs, src/fdw/modify/insert.rs, src/azure/writer.rs). Text is a sequence of bytes.
 */
module Partition {
  import opened Wrappers
  import opened Text
  import opened Pushdown
  import Names

  const SLASH: Byte := '/' as int
  const EQUALS: Byte := '=' as int

  // ---------- splitting ---------------------------------------------------------------

  /** One more byte in front: a slash starts a new segment, anything else joins the first. */
  function Prepend(b: Byte, segments: seq<Bytes>): (r: seq<Bytes>)
    requires |segments| >= 1
    ensures |r| >= 1
  {
    if b == SLASH then [[]] + segments else [[b] + segments[0]] + segments[1..]
  }

  function Split(s: Bytes): (segments: seq<Bytes>)
    ensures |segments| >= 1
  {
    if s == [] then [[]] else Prepend(s[0], Split(s[1..]))
  }

  lemma PrependJoin(b: Byte, x: seq<Bytes>, y: seq<Bytes>)
    requires |x| >= 1
    ensures Prepend(b, x + y) == Prepend(b, x) + y
  {
    assert (x + y)[1..] == x[1..] + y;
  }

  lemma {:induction false} SplitJoin(a: Bytes, b: Bytes)
    ensures Split(a + [SLASH] + b) == Split(a) + Split(b)
  {
    hide Prepend;
    var s := a + [SLASH] + b;
    if a == [] {
      assert s[1..] == b;
      assert Prepend(SLASH, Split(b)) == [[]] + Split(b) by {
        PrependSlash(Split(b));
      }
    } else {
      SplitJoin(a[1..], b);
      assert s[1..] == a[1..] + [SLASH] + b;
      PrependJoin(a[0], Split(a[1..]), Split(b));
    }
  }

  lemma PrependSlash(segments: seq<Bytes>)
    requires |segments| >= 1
    ensures Prepend(SLASH, segments) == [[]] + segments
  {
  }

  lemma {:induction false} SplitPlain(s: Bytes)
    requires SLASH !in s
    ensures Split(s) == [s]
  {
    if s != [] {
      SplitPlain(s[1..]);
      assert [s[0]] + s[1..] == s;
    }
  }

  function JoinSegments(segments: seq<Bytes>): Bytes {
    if segments == [] then []
    else if |segments| == 1 then segments[0]
    else segments[0] + (['/' as int] + JoinSegments(segments[1..]))
  }

  lemma JoinCons(x: Bytes, rest: seq<Bytes>)
    requires rest != []
    ensures JoinSegments([x] + rest) == x + (['/' as int] + JoinSegments(rest))
  {
    assert ([x] + rest)[1..] == rest;
  }

  lemma JoinPrepend(b: Byte, segments: seq<Bytes>)
    requires |segments| >= 1
    ensures JoinSegments(Prepend(b, segments)) == [b] + JoinSegments(segments)
  {
    var first, rest := segments[0], segments[1..];
    assert segments == [first] + rest;
    if b == SLASH {
      JoinCons([], segments);
    } else if rest == [] {
      assert Prepend(b, segments) == [[b] + first];
    } else {
      hide JoinSegments;
      JoinCons(first, rest);
      JoinCons([b] + first, rest);
      Associates(b, first, ['/' as int] + JoinSegments(rest));
    }
  }

  lemma Associates(b: Byte, x: Bytes, y: Bytes)
    ensures ([b] + x) + y == [b] + (x + y)
  {
  }

  /** Splitting cuts at every slash and nowhere else. */
  lemma {:induction false} SplitMeans(s: Bytes)
    ensures JoinSegments(Split(s)) == s
    ensures forall k | 0 <= k < |Split(s)| :: '/' as int !in Split(s)[k]
  {
    hide JoinSegments;
    if s == [] {
      JoinNothing();
    } else {
      SplitMeans(s[1..]);
      JoinPrepend(s[0], Split(s[1..]));
      assert s == [s[0]] + s[1..];
    }
  }

  lemma JoinNothing()
    ensures JoinSegments([[]]) == []
  {
  }

  /** The parts around the first `=`. */
  function SplitOnce(s: Bytes): Option<(Bytes, Bytes)> {
    if s == [] then None
    else if s[0] == EQUALS then Some(([], s[1..]))
    else
      var rest := SplitOnce(s[1..]);
      if rest.None? then None else Some(([s[0]] + rest.value.0, rest.value.1))
  }

  lemma {:induction false} SplitOncePair(name: Bytes, value: Bytes)
    requires EQUALS !in name
    ensures SplitOnce(name + [EQUALS] + value) == Some((name, value))
  {
    var s := name + [EQUALS] + value;
    if name == [] {
      assert s[1..] == value;
    } else {
      SplitOncePair(name[1..], value);
      assert s[1..] == name[1..] + [EQUALS] + value;
      assert [name[0]] + name[1..] == name;
    }
  }

  lemma {:induction false} SplitOnceNone(s: Bytes)
    requires EQUALS !in s
    ensures SplitOnce(s).None?
  {
    if s != [] {
      SplitOnceNone(s[1..]);
    }
  }

  // ---------- parsing --------------------------------------------------------------------

  function Lower(b: Byte): Byte {
    if 0x41 <= b <= 0x5A then b + 0x20 else b
  }

  predicate SameIdentifier(a: Bytes, b: Bytes) {
    |a| == |b| && forall i | 0 <= i < |a| :: Lower(a[i]) == Lower(b[i])
  }

  /** The two bytes are one, or an ASCII letter in its two cases. */
  predicate SameLetter(a: Byte, b: Byte) {
    || a == b
    || ('A' as int <= a <= 'Z' as int && b == a + ('a' as int - 'A' as int))
    || ('A' as int <= b <= 'Z' as int && a == b + ('a' as int - 'A' as int))
  }

  /** Identifiers match exactly when they differ in ASCII case at most. */
  lemma SameIdentifierMeans(a: Bytes, b: Bytes)
    ensures SameIdentifier(a, b) <==> |a| == |b| && forall i | 0 <= i < |a| :: SameLetter(a[i], b[i])
  {
    assert forall x: Byte, y: Byte :: Lower(x) == Lower(y) <==> SameLetter(x, y);
  }

  /** The first declared name that matches is the one found, in its declared spelling. */
  lemma {:induction false} DeclaredMeans(names: seq<Bytes>, key: Bytes)
    ensures Declared(names, key).None? <==> forall i | 0 <= i < |names| :: !SameIdentifier(names[i], key)
    ensures forall i | 0 <= i < |names| && SameIdentifier(names[i], key) && (forall j | 0 <= j < i :: !SameIdentifier(names[j], key)) ::
              Declared(names, key) == Some(names[i])
  {
    hide SameIdentifier;
    if names != [] && !SameIdentifier(names[0], key) {
      DeclaredMeans(names[1..], key);
      assert forall i | 0 < i < |names| :: names[1..][i - 1] == names[i];
      forall i | 0 <= i < |names| && SameIdentifier(names[i], key) && (forall j | 0 <= j < i :: !SameIdentifier(names[j], key))
        ensures Declared(names, key) == Some(names[i])
      {
        assert forall j | 0 <= j < i - 1 :: names[1..][j] == names[j + 1];
      }
    }
  }

  /** The first declared name that matches, case-insensitively. */
  function Declared(names: seq<Bytes>, key: Bytes): Option<Bytes> {
    if names == [] then None
    else if SameIdentifier(names[0], key) then Some(names[0])
    else Declared(names[1..], key)
  }

  /** One path segment: ignored, refused, or one more value. */
  function Absorb(names: seq<Bytes>, segment: Bytes, found: map<Bytes, Bytes>): Result<map<Bytes, Bytes>> {
    var pair := SplitOnce(segment);
    if pair.None? then Success(found)
    else
      var (key, value) := pair.value;
      var name := Declared(names, key);
      if name.None? then Success(found)
      else if value == [] || PERCENT in value || name.value in found then Failure(SchemaMismatch)
      else Success(found[name.value := value])
  }

  /** The segments up to the `n`-th. */
  ghost function AbsorbAll(names: seq<Bytes>, segments: seq<Bytes>, n: nat): Result<map<Bytes, Bytes>>
    requires n <= |segments|
  {
    if n == 0 then Success(map[])
    else
      var before := AbsorbAll(names, segments, n - 1);
      if before.Failure? then before else Absorb(names, segments[n - 1], before.value)
  }

  ghost function Parsed(names: seq<Bytes>, path: Bytes): Result<map<Bytes, Bytes>> {
    var found := AbsorbAll(names, Split(path), |Split(path)|);
    if found.Success? && forall i | 0 <= i < |names| :: names[i] in found.value then found else Failure(SchemaMismatch)
  }

  lemma {:induction false} AbsorbFails(names: seq<Bytes>, segments: seq<Bytes>, n: nat, m: nat)
    requires n <= m <= |segments| && AbsorbAll(names, segments, n).Failure?
    ensures AbsorbAll(names, segments, m).Failure? && AbsorbAll(names, segments, m).error == SchemaMismatch
    decreases m
  {
    if m > 0 {
      if n < m {
        AbsorbFails(names, segments, n, m - 1);
      } else if AbsorbAll(names, segments, m - 1).Failure? {
        AbsorbFails(names, segments, m - 1, m - 1);
      }
    }
  }

  method PartitionValuesFromPath(names: seq<Bytes>, path: Bytes) returns (r: Result<map<Bytes, Bytes>>)
    ensures r == Parsed(names, path)
  {
    var segments := Split(path);
    var found: map<Bytes, Bytes> := map[];
    for n := 0 to |segments|
      invariant AbsorbAll(names, segments, n) == Success(found)
    {
      var next := Absorb(names, segments[n], found);
      if next.Failure? {
        AbsorbFails(names, segments, n + 1, |segments|);
        return Failure(SchemaMismatch);
      }
      found := next.value;
    }
    for i := 0 to |names|
      invariant forall k | 0 <= k < i :: names[k] in found
    {
      if names[i] !in found {
        return Failure(SchemaMismatch);
      }
    }
    return Success(found);
  }

  // ---------- what parsing finds ----------------------------------------------------------

  lemma {:induction false} SplitOnceMeans(s: Bytes)
    ensures SplitOnce(s).None? <==> '=' as int !in s
    ensures SplitOnce(s).Some? ==>
              var (key, value) := SplitOnce(s).value; '=' as int !in key && s == key + ['=' as int] + value
  {
    if s != [] && s[0] != EQUALS {
      SplitOnceMeans(s[1..]);
      assert s == [s[0]] + s[1..];
      if SplitOnce(s[1..]).Some? {
        var (key, value) := SplitOnce(s[1..]).value;
        assert [s[0]] + (key + [EQUALS] + value) == [s[0]] + key + [EQUALS] + value;
      }
    }
  }

  /** The declared name a segment gives a value to, and that value. */
  ghost function Hit(names: seq<Bytes>, segment: Bytes): Option<(Bytes, Bytes)> {
    var pair := SplitOnce(segment);
    if pair.None? || Declared(names, pair.value.0).None? then None else Some((Declared(names, pair.value.0).value, pair.value.1))
  }

  /** The segment is `key=value` with a key that is a spelling of a declared name. */
  ghost predicate Gives(names: seq<Bytes>, segment: Bytes, name: Bytes, value: Bytes) {
    exists key: Bytes :: '=' as int !in key && segment == key + ['=' as int] + value && Declared(names, key) == Some(name)
  }

  lemma HitMeans(names: seq<Bytes>, segment: Bytes, name: Bytes, value: Bytes)
    ensures Hit(names, segment) == Some((name, value)) <==> Gives(names, segment, name, value)
  {
    SplitOnceMeans(segment);
    if key: Bytes :| EQUALS !in key && segment == key + [EQUALS] + value && Declared(names, key) == Some(name) {
      SplitOncePair(key, value);
    }
  }

  /** No value of the first `n` segments is empty or holds a percent sign, and none is given twice. */
  ghost predicate Clean(names: seq<Bytes>, segments: seq<Bytes>, n: nat)
    requires n <= |segments|
  {
    && (forall i | 0 <= i < n && Hit(names, segments[i]).Some? ::
          var value := Hit(names, segments[i]).value.1; value != [] && '%' as int !in value)
    && (forall i, j | 0 <= i < j < n && Hit(names, segments[i]).Some? && Hit(names, segments[j]).Some? ::
          Hit(names, segments[i]).value.0 != Hit(names, segments[j]).value.0)
  }

  /** `found` holds exactly what the first `n` segments give. */
  ghost predicate Holds(found: map<Bytes, Bytes>, names: seq<Bytes>, segments: seq<Bytes>, n: nat)
    requires n <= |segments|
  {
    && (forall i | 0 <= i < n && Hit(names, segments[i]).Some? ::
          var (name, value) := Hit(names, segments[i]).value; name in found && found[name] == value)
    && (forall name | name in found :: Given(names, segments, n, name))
  }

  /** One of the first `n` segments gives `name` a value. */
  ghost predicate Given(names: seq<Bytes>, segments: seq<Bytes>, n: nat, name: Bytes)
    requires n <= |segments|
  {
    exists i | 0 <= i < n :: Hit(names, segments[i]).Some? && Hit(names, segments[i]).value.0 == name
  }

  /** What one segment does to what was found before. */
  lemma AbsorbHit(names: seq<Bytes>, segment: Bytes, found: map<Bytes, Bytes>)
    ensures Hit(names, segment).None? ==> Absorb(names, segment, found) == Success(found)
    ensures Hit(names, segment).Some? ==>
              var (name, value) := Hit(names, segment).value;
              Absorb(names, segment, found) ==
                if value == [] || '%' as int in value || name in found then Failure(SchemaMismatch) else Success(found[name := value])
  {
  }

  lemma CleanStep(names: seq<Bytes>, segments: seq<Bytes>, n: nat)
    requires n < |segments|
    ensures Clean(names, segments, n + 1) <==>
            && Clean(names, segments, n)
            && var hit := Hit(names, segments[n]);
               hit.Some? ==> hit.value.1 != [] && '%' as int !in hit.value.1 && !Given(names, segments, n, hit.value.0)
  {
    hide Hit;
  }

  lemma HoldsStep(found: map<Bytes, Bytes>, names: seq<Bytes>, segments: seq<Bytes>, n: nat)
    requires n < |segments| && Holds(found, names, segments, n)
    ensures Hit(names, segments[n]).None? ==> Holds(found, names, segments, n + 1)
    ensures Hit(names, segments[n]).Some? ==>
              var (name, value) := Hit(names, segments[n]).value;
              && (name in found <==> Given(names, segments, n, name))
              && (name !in found ==> Holds(found[name := value], names, segments, n + 1))
  {
    hide Hit;
    forall name | Given(names, segments, n, name) ensures Given(names, segments, n + 1, name) {
      var i :| 0 <= i < n && Hit(names, segments[i]).Some? && Hit(names, segments[i]).value.0 == name;
    }
  }

  lemma AbsorbNothing(names: seq<Bytes>, segments: seq<Bytes>)
    ensures Clean(names, segments, 0) && Holds(map[], names, segments, 0)
  {
  }

  lemma {:induction false} AbsorbMeans(names: seq<Bytes>, segments: seq<Bytes>, n: nat)
    requires n <= |segments|
    ensures AbsorbAll(names, segments, n).Success? <==> Clean(names, segments, n)
    ensures AbsorbAll(names, segments, n).Success? ==> Holds(AbsorbAll(names, segments, n).value, names, segments, n)
  {
    hide Absorb, Hit, Clean, Holds, Given;
    if n == 0 {
      AbsorbNothing(names, segments);
    } else {
      AbsorbMeans(names, segments, n - 1);
      CleanStep(names, segments, n - 1);
      var before := AbsorbAll(names, segments, n - 1);
      if before.Success? {
        AbsorbHit(names, segments[n - 1], before.value);
        HoldsStep(before.value, names, segments, n - 1);
      }
    }
  }

  /**
   A path parses exactly when every declared name is given a value by one segment, none by two, and no value is
   empty or holds a percent sign; and then to those values.
   */
  lemma ParsedMeans(names: seq<Bytes>, path: Bytes)
    ensures var segments, r := Split(path), Parsed(names, path);
            && (r.Success? <==>
                  && Clean(names, segments, |segments|)
                  && forall k | 0 <= k < |names| :: Given(names, segments, |segments|, names[k]))
            && (r.Success? ==> Holds(r.value, names, segments, |segments|))
            && (r.Failure? ==> r.error == SchemaMismatch)
  {
    hide Split, Hit, AbsorbAll;
    var segments := Split(path);
    AbsorbMeans(names, segments, |segments|);
    var found := AbsorbAll(names, segments, |segments|);
    if found.Success? {
      forall name ensures name in found.value <==> Given(names, segments, |segments|, name) {
      }
    }
  }

  // ---------- generating --------------------------------------------------------------------

  function Pair(name: Bytes, value: Bytes): Bytes {
    name + [EQUALS] + value
  }

  /** `path`, ready for another segment. */
  function Open(path: Bytes): Bytes {
    if path != [] && path[|path| - 1] != SLASH then path + [SLASH] else path
  }

  ghost function PathUpTo(base: Bytes, names: seq<Bytes>, values: seq<Bytes>, n: nat): Bytes
    requires n <= |values| <= |names|
  {
    if n == 0 then base else Open(PathUpTo(base, names, values, n - 1)) + Pair(names[n - 1], values[n - 1])
  }

  lemma PathStart(base: Bytes, names: seq<Bytes>, values: seq<Bytes>)
    requires |values| <= |names|
    ensures PathUpTo(base, names, values, 0) == base
  {
  }

  lemma PathStep(base: Bytes, names: seq<Bytes>, values: seq<Bytes>, i: nat)
    requires i < |values| <= |names|
    ensures PathUpTo(base, names, values, i + 1) == Open(PathUpTo(base, names, values, i)) + Pair(names[i], values[i])
  {
  }

  function TrimSlashes(s: Bytes): Bytes {
    if s != [] && s[|s| - 1] == SLASH then TrimSlashes(s[..|s| - 1]) else s
  }

  /** `unique` stands for the timestamp, the random part and the extension. */
  function GenerateBlobName(prefix: Bytes, unique: Bytes): Bytes {
    var trimmed := TrimSlashes(prefix);
    if trimmed == [] then unique else trimmed + [SLASH] + unique
  }

  lemma {:induction false} TrimMeans(s: Bytes)
    ensures var t := TrimSlashes(s); t <= s && (t == [] || t[|t| - 1] != '/' as int) && forall i | |t| <= i < |s| :: s[i] == '/' as int
  {
    if s != [] && s[|s| - 1] == SLASH {
      TrimMeans(s[..|s| - 1]);
    }
  }

  /** A generated name is the unique part under the prefix, with one slash for whatever slashes end the prefix. */
  lemma GenerateMeans(prefix: Bytes, unique: Bytes, slashes: nat)
    requires prefix == [] || prefix[|prefix| - 1] != '/' as int
    ensures GenerateBlobName(prefix + Slashes(slashes), unique) == if prefix == [] then unique else prefix + ['/' as int] + unique
  {
    var s := prefix + Slashes(slashes);
    TrimMeans(s);
    var t := TrimSlashes(s);
    TrimNotShorter(s, t, prefix);
    TrimNotShorter(s, prefix, t);
    assert t == prefix;
  }

  lemma TrimNotShorter(s: Bytes, t: Bytes, p: Bytes)
    requires t <= s && p <= s && (p == [] || p[|p| - 1] != SLASH) && forall i | |t| <= i < |s| :: s[i] == SLASH
    ensures |p| <= |t|
  {
    if p != [] {
      assert s[|p| - 1] == p[|p| - 1];
    }
  }

  function Slashes(n: nat): Bytes {
    seq(n, _ => '/' as int)
  }

  /** The blob a partition tuple is written to; without partition columns, the literal file name if there is one. */
  ghost function NameFor(base: Bytes, legacy: Option<Bytes>, names: seq<Bytes>, values: seq<Bytes>, unique: Bytes): Bytes
    requires |values| == |names|
  {
    if values == [] && legacy.Some? then legacy.value else TargetName(base, names, values, unique)
  }

  method ComputeTargetName(base: Bytes, legacy: Option<Bytes>, names: seq<Bytes>, values: seq<Bytes>, unique: Bytes)
    returns (name: Bytes)
    requires |values| == |names|
    ensures name == NameFor(base, legacy, names, values, unique)
  {
    if values == [] {
      return if legacy.Some? then legacy.value else GenerateBlobName(base, unique);
    }
    hide PathUpTo, GenerateBlobName, Open, Pair;
    var path := base;
    PathStart(base, names, values);
    for i := 0 to |values|
      invariant path == PathUpTo(base, names, values, i)
    {
      PathStep(base, names, values, i);
      path := Open(path) + Pair(names[i], values[i]);
    }
    name := GenerateBlobName(path, unique);
  }

  // ---------- names the listing drops ---------------------------------------------------------------

  /** The infix `.tmp.` of staging names, in bytes. */
  const TMP_INFIX: Bytes := [0x2E, 0x74, 0x6D, 0x70, 0x2E]

  lemma InfixIsText()
    ensures |TMP_INFIX| == |".tmp."| && forall i | 0 <= i < |TMP_INFIX| :: TMP_INFIX[i] == ".tmp."[i] as int
  {
  }

  /** The listing takes the blob for a staging blob and drops it. */
  predicate LooksStaged(name: Bytes) {
    Names.Contains(name, TMP_INFIX)
  }

  lemma OccursLeft(a: Bytes, b: Bytes, i: nat)
    requires Names.OccursAt(a, TMP_INFIX, i)
    ensures Names.OccursAt(a + b, TMP_INFIX, i)
  {
    assert (a + b)[i..i + 5] == a[i..i + 5];
  }

  lemma OccursRight(a: Bytes, b: Bytes, i: nat)
    requires Names.OccursAt(b, TMP_INFIX, i)
    ensures Names.OccursAt(a + b, TMP_INFIX, |a| + i)
  {
    assert (a + b)[|a| + i..|a| + i + 5] == b[i..i + 5];
  }

  /** An infix without the separator lies on one side of it. */
  lemma StagedParts(a: Bytes, c: Byte, b: Bytes)
    requires c == SLASH || c == EQUALS
    ensures LooksStaged(a + [c] + b) <==> LooksStaged(a) || LooksStaged(b)
  {
    var s := a + [c] + b;
    if LooksStaged(a) {
      var i :| 0 <= i <= |a| - 5 && Names.OccursAt(a, TMP_INFIX, i);
      OccursLeft(a, [c] + b, i);
      assert s == a + ([c] + b);
    }
    if LooksStaged(b) {
      var i :| 0 <= i <= |b| - 5 && Names.OccursAt(b, TMP_INFIX, i);
      OccursRight(a + [c], b, i);
    }
    if LooksStaged(s) {
      var i :| 0 <= i <= |s| - 5 && Names.OccursAt(s, TMP_INFIX, i);
      OccursApart(a, c, b, i);
    }
  }

  lemma InfixByte(s: Bytes, i: nat, d: nat)
    requires Names.OccursAt(s, TMP_INFIX, i) && d < 5
    ensures s[i + d] == TMP_INFIX[d]
  {
    assert s[i..i + 5][d] == s[i + d];
  }

  lemma SeparatorOutside(s: Bytes, c: Byte, at: nat, i: nat)
    requires (c == SLASH || c == EQUALS) && at < |s| && s[at] == c && Names.OccursAt(s, TMP_INFIX, i)
    ensures at < i || i + 5 <= at
  {
    if i <= at < i + 5 {
      InfixByte(s, i, at - i);
      assert false;
    }
  }

  lemma OccursApart(a: Bytes, c: Byte, b: Bytes, i: nat)
    requires (c == SLASH || c == EQUALS) && Names.OccursAt(a + [c] + b, TMP_INFIX, i)
    ensures LooksStaged(a) || LooksStaged(b)
  {
    var s := a + [c] + b;
    SeparatorOutside(s, c, |a|, i);
    if i + 5 <= |a| {
      assert a[i..i + 5] == s[i..i + 5];
      assert Names.OccursAt(a, TMP_INFIX, i);
    } else {
      assert b[i - |a| - 1..i - |a| + 4] == s[i..i + 5];
      assert Names.OccursAt(b, TMP_INFIX, i - |a| - 1);
    }
  }

  lemma StagedOpen(path: Bytes, seg: Bytes)
    ensures LooksStaged(Open(path) + seg) <==> LooksStaged(path) || LooksStaged(seg)
  {
    hide LooksStaged;
    NothingStaged();
    if path == [] {
      assert Open(path) + seg == seg;
    } else if path[|path| - 1] == SLASH {
      var front := path[..|path| - 1];
      assert path == front + [SLASH] + [] && Open(path) + seg == front + [SLASH] + seg;
      StagedParts(front, SLASH, seg);
      StagedParts(front, SLASH, []);
    } else {
      StagedParts(path, SLASH, seg);
    }
  }

  lemma NothingStaged()
    ensures !LooksStaged([])
  {
  }

  lemma {:induction false} StagedTrim(path: Bytes)
    ensures LooksStaged(TrimSlashes(path)) <==> LooksStaged(path)
  {
    hide LooksStaged;
    if path != [] && path[|path| - 1] == SLASH {
      var front := path[..|path| - 1];
      StagedTrim(front);
      NothingStaged();
      assert path == front + [SLASH] + [];
      StagedParts(front, SLASH, []);
    }
  }

  ghost predicate PairStaged(names: seq<Bytes>, values: seq<Bytes>, n: nat)
    requires n <= |values| <= |names|
  {
    exists i | 0 <= i < n :: LooksStaged(names[i]) || LooksStaged(values[i])
  }

  lemma {:induction false} StagedPath(base: Bytes, names: seq<Bytes>, values: seq<Bytes>, n: nat)
    requires n <= |values| <= |names|
    ensures LooksStaged(PathUpTo(base, names, values, n)) <==> LooksStaged(base) || PairStaged(names, values, n)
  {
    hide LooksStaged, Open;
    if n > 0 {
      StagedPath(base, names, values, n - 1);
      StagedOpen(PathUpTo(base, names, values, n - 1), Pair(names[n - 1], values[n - 1]));
      StagedParts(names[n - 1], EQUALS, values[n - 1]);
    }
  }

  /** What of a tuple's layout makes its blob look staged. */
  ghost predicate StagedBy(base: Bytes, legacy: Option<Bytes>, names: seq<Bytes>, values: seq<Bytes>)
    requires |values| == |names|
  {
    if values == [] && legacy.Some? then LooksStaged(legacy.value) else LooksStaged(base) || PairStaged(names, values, |values|)
  }

  /** The listing drops a generated name if and only if the base, a key or a value holds the infix, or the literal name does. */
  lemma DroppedIff(base: Bytes, legacy: Option<Bytes>, names: seq<Bytes>, values: seq<Bytes>, unique: Bytes)
    requires |values| == |names| && !LooksStaged(unique)
    ensures LooksStaged(NameFor(base, legacy, names, values, unique)) <==> StagedBy(base, legacy, names, values)
  {
    hide LooksStaged, PathUpTo;
    var path := PathUpTo(base, names, values, |values|);
    StagedPath(base, names, values, |values|);
    StagedTrim(path);
    NothingStaged();
    StagedParts(TrimSlashes(path), SLASH, unique);
  }

  // ---------- different tuples, different blobs ---------------------------------------------------

  lemma CutWithin(a: Bytes, x: Bytes, b: Bytes, y: Bytes, c: Byte)
    requires a + [c] + x == b + [c] + y && |a| < |b|
    ensures c in x
  {
    assert (b + [c] + y)[|b|] == c && (a + [c] + x)[|b|] == x[|b| - |a| - 1];
  }

  /** The text before and after the last `c` is determined. */
  lemma LastCut(a: Bytes, x: Bytes, b: Bytes, y: Bytes, c: Byte)
    requires a + [c] + x == b + [c] + y && c !in x && c !in y
    ensures a == b && x == y
  {
    var s, t := a + [c] + x, b + [c] + y;
    if |a| < |b| {
      CutWithin(a, x, b, y, c);
      assert false;
    }
    if |b| < |a| {
      CutWithin(b, y, a, x, c);
      assert false;
    }
    assert a == s[..|a|] && b == t[..|b|];
    assert x == s[|a| + 1..] && y == t[|b| + 1..];
  }

  ghost predicate AllAccepted(values: seq<Bytes>) {
    forall i | 0 <= i < |values| :: Accepted(values[i])
  }

  lemma PathEnd(base: Bytes, names: seq<Bytes>, values: seq<Bytes>, n: nat)
    requires 0 < n <= |values| <= |names| && AllAccepted(values)
    ensures var path := PathUpTo(base, names, values, n); path != [] && path[|path| - 1] != SLASH
  {
    var value := values[n - 1];
    assert value[|value| - 1] in value;
    var path := PathUpTo(base, names, values, n);
    assert path[|path| - 1] == value[|value| - 1];
  }

  /** The last pair of a path is determined, and so is the path before it. */
  lemma StepDetermines(p: Bytes, q: Bytes, name: Bytes, v: Bytes, w: Bytes)
    requires Open(p) + Pair(name, v) == Open(q) + Pair(name, w) && EQUALS !in v && EQUALS !in w
    ensures Open(p) == Open(q) && v == w
  {
    hide Open;
    assert Open(p) + Pair(name, v) == (Open(p) + name) + [EQUALS] + v;
    assert Open(q) + Pair(name, w) == (Open(q) + name) + [EQUALS] + w;
    LastCut(Open(p) + name, v, Open(q) + name, w, EQUALS);
    SameFront(Open(p), Open(q), name);
  }

  lemma {:induction false} PathDetermines(base: Bytes, names: seq<Bytes>, v: seq<Bytes>, w: seq<Bytes>, n: nat)
    requires n <= |v| == |w| <= |names| && AllAccepted(v) && AllAccepted(w)
    requires PathUpTo(base, names, v, n) == PathUpTo(base, names, w, n)
    ensures v[..n] == w[..n]
  {
    hide PathUpTo, Pair, Open;
    if n > 0 {
      PathStep(base, names, v, n - 1);
      PathStep(base, names, w, n - 1);
      StepDetermines(PathUpTo(base, names, v, n - 1), PathUpTo(base, names, w, n - 1), names[n - 1], v[n - 1], w[n - 1]);
      SameBefore(base, names, v, w, n - 1);
      PathDetermines(base, names, v, w, n - 1);
      assert v[..n] == v[..n - 1] + [v[n - 1]] && w[..n] == w[..n - 1] + [w[n - 1]];
    }
  }

  lemma SameBefore(base: Bytes, names: seq<Bytes>, v: seq<Bytes>, w: seq<Bytes>, n: nat)
    requires n <= |v| == |w| <= |names| && AllAccepted(v) && AllAccepted(w)
    requires Open(PathUpTo(base, names, v, n)) == Open(PathUpTo(base, names, w, n))
    ensures PathUpTo(base, names, v, n) == PathUpTo(base, names, w, n)
  {
    hide PathUpTo, AllAccepted;
    if n == 0 {
      PathStart(base, names, v);
      PathStart(base, names, w);
    } else {
      PathEnd(base, names, v, n);
      PathEnd(base, names, w, n);
      SameFront(PathUpTo(base, names, v, n), PathUpTo(base, names, w, n), [SLASH]);
    }
  }

  lemma SameFront(a: Bytes, b: Bytes, tail: Bytes)
    requires a + tail == b + tail
    ensures a == b
  {
    assert a == (a + tail)[..|a|] && b == (b + tail)[..|b|];
  }

  /** A name tells its tuple, whatever the declared keys are called and whatever makes the name unique. */
  lemma TargetDetermines(base: Bytes, names: seq<Bytes>, v: seq<Bytes>, w: seq<Bytes>, unique: Bytes, other: Bytes)
    requires 0 < |v| == |w| == |names| && AllAccepted(v) && AllAccepted(w) && SLASH !in unique && SLASH !in other
    requires TargetName(base, names, v, unique) == TargetName(base, names, w, other)
    ensures v == w && unique == other
  {
    hide PathUpTo;
    PathEnd(base, names, v, |v|);
    PathEnd(base, names, w, |w|);
    var p, q := PathUpTo(base, names, v, |v|), PathUpTo(base, names, w, |w|);
    assert TargetName(base, names, v, unique) == p + [SLASH] + unique;
    assert TargetName(base, names, w, other) == q + [SLASH] + other;
    LastCut(p, unique, q, other, SLASH);
    PathDetermines(base, names, v, w, |v|);
    assert v[..|v|] == v && w[..|w|] == w;
  }

  // ---------- the round trip --------------------------------------------------------------------

  /** What INSERT accepts as a text value, `..` aside. */
  predicate Accepted(value: Bytes) {
    value != [] && SLASH !in value && EQUALS !in value
  }

  predicate PlainName(name: Bytes) {
    SLASH !in name && EQUALS !in name
  }

  /** The segments of the base prefix. */
  function BaseSegments(base: Bytes): seq<Bytes> {
    if base == [] then []
    else if base[|base| - 1] == SLASH then Split(base[..|base| - 1])
    else Split(base)
  }

  ghost function Pairs(names: seq<Bytes>, values: seq<Bytes>, n: nat): (ps: seq<Bytes>)
    requires n <= |values| <= |names|
    ensures |ps| == n
  {
    seq(n, i requires 0 <= i < n => Pair(names[i], values[i]))
  }

  lemma OpenSplits(path: Bytes, seg: Bytes)
    requires SLASH !in seg
    ensures Split(Open(path) + seg) == BaseSegments(path) + [seg]
  {
    SplitPlain(seg);
    if path == [] {
      assert Open(path) + seg == seg;
    } else if path[|path| - 1] == SLASH {
      assert Open(path) + seg == path[..|path| - 1] + [SLASH] + seg;
      SplitJoin(path[..|path| - 1], seg);
    } else {
      SplitJoin(path, seg);
    }
  }

  lemma PairPlain(name: Bytes, value: Bytes)
    requires PlainName(name) && Accepted(value)
    ensures SLASH !in Pair(name, value) && Pair(name, value) != [] && Pair(name, value)[|Pair(name, value)| - 1] != SLASH
  {
    assert value[|value| - 1] in value;
  }

  /** The segments of a partition path: the base, then one pair per key. */
  lemma {:induction false} PathSegments(base: Bytes, names: seq<Bytes>, values: seq<Bytes>, n: nat)
    requires 0 < n <= |values| <= |names|
    requires forall i | 0 <= i < |values| :: PlainName(names[i]) && Accepted(values[i])
    ensures var path := PathUpTo(base, names, values, n);
            && path != [] && path[|path| - 1] != SLASH
            && Split(path) == BaseSegments(base) + Pairs(names, values, n)
  {
    hide Split, Pair, Open, PathUpTo, Accepted, PlainName;
    var seg := Pair(names[n - 1], values[n - 1]);
    var before := PathUpTo(base, names, values, n - 1);
    PathStart(base, names, values);
    PathStep(base, names, values, n - 1);
    PairPlain(names[n - 1], values[n - 1]);
    OpenSplits(before, seg);
    if n == 1 {
      assert Pairs(names, values, 1) == [seg];
    } else {
      PathSegments(base, names, values, n - 1);
      assert Pairs(names, values, n) == Pairs(names, values, n - 1) + [seg];
      assert BaseSegments(base) + Pairs(names, values, n - 1) + [seg] == BaseSegments(base) + (Pairs(names, values, n - 1) + [seg]);
    }
  }

  ghost function Tuple(names: seq<Bytes>, values: seq<Bytes>, n: nat): map<Bytes, Bytes>
    requires n <= |values| <= |names|
  {
    if n == 0 then map[] else Tuple(names, values, n - 1)[names[n - 1] := values[n - 1]]
  }

  lemma {:induction false} TupleAt(names: seq<Bytes>, values: seq<Bytes>, n: nat, i: nat)
    requires i < n <= |values| <= |names| && DistinctKeys(names)
    ensures names[i] in Tuple(names, values, n) && Tuple(names, values, n)[names[i]] == values[i]
  {
    if i < n - 1 {
      TupleAt(names, values, n - 1, i);
      assert !SameIdentifier(names[i], names[n - 1]);
    }
  }

  lemma {:induction false} TupleKeys(names: seq<Bytes>, values: seq<Bytes>, n: nat, k: Bytes)
    requires n <= |values| <= |names|
    ensures k in Tuple(names, values, n) <==> exists i | 0 <= i < n :: names[i] == k
  {
    if n > 0 {
      TupleKeys(names, values, n - 1, k);
    }
  }

  ghost predicate DistinctKeys(names: seq<Bytes>) {
    forall i, j | 0 <= i < j < |names| :: !SameIdentifier(names[i], names[j])
  }

  lemma {:induction false} DeclaredSelf(names: seq<Bytes>, i: nat)
    requires DistinctKeys(names) && i < |names|
    ensures Declared(names, names[i]) == Some(names[i])
  {
    if i > 0 {
      assert !SameIdentifier(names[0], names[i]);
      assert DistinctKeys(names[1..]) by {
        forall a, b | 0 <= a < b < |names[1..]| ensures !SameIdentifier(names[1..][a], names[1..][b]) {
          assert !SameIdentifier(names[a + 1], names[b + 1]);
        }
      }
      DeclaredSelf(names[1..], i - 1);
    }
  }

  /** A segment that is no declared key. */
  predicate Ignored(names: seq<Bytes>, segment: Bytes) {
    var pair := SplitOnce(segment);
    pair.None? || Declared(names, pair.value.0).None?
  }

  /** The setting of the round trip: one value per declared key, and nothing else in the path that is one. */
  ghost predicate Routable(base: Bytes, names: seq<Bytes>, values: seq<Bytes>, unique: Bytes) {
    && 0 < |values| == |names| && DistinctKeys(names)
    && (forall i | 0 <= i < |values| :: PlainName(names[i]) && Accepted(values[i]))
    && (forall k | 0 <= k < |BaseSegments(base)| :: Ignored(names, BaseSegments(base)[k]))
    && SLASH !in unique && EQUALS !in unique
  }

  ghost function TargetName(base: Bytes, names: seq<Bytes>, values: seq<Bytes>, unique: Bytes): Bytes
    requires |values| == |names|
  {
    GenerateBlobName(PathUpTo(base, names, values, |values|), unique)
  }

  lemma NameSegments(base: Bytes, names: seq<Bytes>, values: seq<Bytes>, unique: Bytes)
    requires Routable(base, names, values, unique)
    ensures Split(TargetName(base, names, values, unique)) == BaseSegments(base) + Pairs(names, values, |values|) + [unique]
  {
    var path := PathUpTo(base, names, values, |values|);
    PathSegments(base, names, values, |values|);
    SplitJoin(path, unique);
    SplitPlain(unique);
  }

  /** The base's segments leave nothing. */
  lemma {:induction false} BaseAbsorbed(names: seq<Bytes>, segments: seq<Bytes>, n: nat)
    requires n <= |segments| && forall k | 0 <= k < n :: Ignored(names, segments[k])
    ensures AbsorbAll(names, segments, n) == Success(map[])
  {
    if n > 0 {
      BaseAbsorbed(names, segments, n - 1);
      assert Ignored(names, segments[n - 1]);
    }
  }

  predicate Readable(value: Bytes) {
    PERCENT !in value
  }

  /** The pairs leave the tuple, until a value that cannot be read back. */
  lemma {:induction false} PairsAbsorbed(base: Bytes, names: seq<Bytes>, values: seq<Bytes>, unique: Bytes, segments: seq<Bytes>, n: nat)
    requires Routable(base, names, values, unique) && n <= |values|
    requires segments == BaseSegments(base) + Pairs(names, values, |values|) + [unique]
    ensures AbsorbAll(names, segments, |BaseSegments(base)| + n) ==
            if forall i | 0 <= i < n :: Readable(values[i]) then Success(Tuple(names, values, n)) else Failure(SchemaMismatch)
  {
    hide Split, SplitOnce, SameIdentifier, Declared, BaseSegments, Absorb;
    var b := |BaseSegments(base)|;
    if n == 0 {
      forall k | 0 <= k < b ensures Ignored(names, segments[k]) {
        assert segments[k] == BaseSegments(base)[k];
      }
      BaseAbsorbed(names, segments, b);
    } else {
      PairsAbsorbed(base, names, values, unique, segments, n - 1);
      assert segments[b + n - 1] == Pair(names[n - 1], values[n - 1]);
      SplitOncePair(names[n - 1], values[n - 1]);
      DeclaredSelf(names, n - 1);
      TupleKeys(names, values, n - 1, names[n - 1]);
      forall i | 0 <= i < n - 1 ensures names[i] != names[n - 1] {
        SelfSame(names[n - 1]);
        assert !SameIdentifier(names[i], names[n - 1]);
      }
      PairAbsorbed(names, Tuple(names, values, n - 1), names[n - 1], values[n - 1]);
    }
  }

  lemma SelfSame(name: Bytes)
    ensures SameIdentifier(name, name)
  {
  }

  /** What one pair adds. */
  lemma PairAbsorbed(names: seq<Bytes>, found: map<Bytes, Bytes>, name: Bytes, value: Bytes)
    requires SplitOnce(Pair(name, value)) == Some((name, value)) && Declared(names, name) == Some(name)
    requires value != [] && name !in found
    ensures Absorb(names, Pair(name, value), found) ==
            if Readable(value) then Success(found[name := value]) else Failure(SchemaMismatch)
  {
  }

  /** A segment without `=` changes nothing. */
  lemma PlainAbsorbed(names: seq<Bytes>, segments: seq<Bytes>, m: nat)
    requires m < |segments| && EQUALS !in segments[m]
    ensures AbsorbAll(names, segments, m + 1) == AbsorbAll(names, segments, m)
  {
    SplitOnceNone(segments[m]);
  }

  /** A generated path parses back to its tuple exactly when no value contains a percent sign. */
  lemma PathRoundTrip(base: Bytes, names: seq<Bytes>, values: seq<Bytes>, unique: Bytes)
    requires Routable(base, names, values, unique)
    ensures Parsed(names, TargetName(base, names, values, unique)) ==
            if forall i | 0 <= i < |values| :: Readable(values[i]) then Success(Tuple(names, values, |values|))
            else Failure(SchemaMismatch)
  {
    hide Split, SplitOnce, Tuple, TargetName, AbsorbAll, BaseSegments, Readable;
    var segments := Split(TargetName(base, names, values, unique));
    NameSegments(base, names, values, unique);
    PairsAbsorbed(base, names, values, unique, segments, |values|);
    var m := |BaseSegments(base)| + |values|;
    assert segments[m] == unique && |segments| == m + 1;
    PlainAbsorbed(names, segments, m);
    if forall i | 0 <= i < |values| :: Readable(values[i]) {
      forall i | 0 <= i < |names| ensures names[i] in Tuple(names, values, |values|) {
        TupleAt(names, values, |values|, i);
      }
    }
  }
}
