/** Blob names: the staging convention and who can see it (src/azure/mod.rs, src/fdw/modify/coordinator.rs). */
module Names {

  type Name = string
  type Etag = nat

  /** True if `sub` occurs in `s`. */
  predicate Contains<T(==)>(s: seq<T>, sub: seq<T>) {
    exists i | 0 <= i <= |s| - |sub| :: OccursAt(s, sub, i)
  }

  predicate OccursAt<T(==)>(s: seq<T>, sub: seq<T>, i: nat) {
    i + |sub| <= |s| && s[i..i + |sub|] == sub
  }

  predicate IsStagingName(name: Name) {
    Contains(name, ".tmp.")
  }

  const SUFFIX := ".parquet"

  function Stem(original: Name): Name {
    if |SUFFIX| <= |original| && original[|original| - |SUFFIX|..] == SUFFIX
    then original[..|original| - |SUFFIX|] else original
  }

  /** The staging name of a blob; `uuid` stands for the random part. */
  function MakeStagingName(original: Name, uuid: string): (s: Name)
    ensures IsStagingName(s)
  {
    var s := Stem(original) + ".tmp." + uuid + SUFFIX;
    assert OccursAt(s, ".tmp.", |Stem(original)|);
    s
  }

  /** The random part goes between the stem and the suffix, which an original without it gains. */
  lemma StagingNameMeans(stem: string, uuid: string)
    ensures MakeStagingName(stem + ".parquet", uuid) == stem + ".tmp." + uuid + ".parquet"
    ensures !(|stem| >= 8 && stem[|stem| - 8..] == ".parquet") ==> MakeStagingName(stem, uuid) == stem + ".tmp." + uuid + ".parquet"
  {
    var original := stem + ".parquet";
    assert original[|original| - 8..] == ".parquet" && original[..|original| - 8] == stem;
  }

  /** For one original, different random parts give different staging names. */
  lemma StagingNamesDiffer(original: Name, u: string, v: string)
    ensures MakeStagingName(original, u) == MakeStagingName(original, v) <==> u == v
  {
    var prefix := Stem(original) + ".tmp.";
    var a, b := MakeStagingName(original, u), MakeStagingName(original, v);
    assert a == prefix + u + SUFFIX && b == prefix + v + SUFFIX;
    assert a[|prefix|..|a| - |SUFFIX|] == u && b[|prefix|..|b| - |SUFFIX|] == v;
  }

  /** Random parts of one length never collide, whatever the originals. */
  lemma StagingNamesApart(a: Name, b: Name, u: string, v: string)
    requires |u| == |v| && u != v
    ensures MakeStagingName(a, u) != MakeStagingName(b, v)
  {
    var x, y := MakeStagingName(a, u), MakeStagingName(b, v);
    assert x[|x| - |SUFFIX| - |u|..|x| - |SUFFIX|] == u;
    assert y[|y| - |SUFFIX| - |v|..|y| - |SUFFIX|] == v;
  }
}
