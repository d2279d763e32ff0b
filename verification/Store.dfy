/**
 The container client (src/azure/mod.rs): conditional GET, PUT and DELETE on a shared store.

 Everything outside the caller is a script: before each request any outside writes may happen, and
 the request may be refused or its reply lost. A proof that holds for every script holds in every
 environment. The history is the store's state in the protocol's terms.
 */
module Store {
  import opened Wrappers
  import opened Rows
  import opened Names
  import opened Protocol

  type Body = b: seq<Batch> | ValidBatches(b) witness []

  /** The rows of a body, counted batch by batch. */
  function TotalRows(body: Body): (n: nat)
    ensures n == |AllRows(body)|
  {
    if body == [] then 0 else body[0].numRows + TotalRows(body[1..])
  }

  datatype Version = Version(body: Body, etag: Etag)

  datatype OutsideWrite = WriteBlob(name: Name, body: Body) | DeleteBlob(name: Name)

  /** What becomes of one request: nothing special, an error before it took effect, or after. */
  datatype Fault = NoFault | Refused | LostReply

  datatype Weather = Weather(before: seq<OutsideWrite>, fault: Fault)

  /** Requests of the script that will fail of themselves. */
  function Faults(script: seq<Weather>): nat {
    if script == [] then 0 else Faults(script[1..]) + if script[0].fault.NoFault? then 0 else 1
  }

  /** Soft cap on the names one listing returns. */
  const MAX_LIST_RESULTS := 100_000

  /** The blobs are the current versions of the history. */
  ghost predicate Mirrors(h: History, blobs: map<Name, Version>) {
    && (forall n | n in blobs ::
          && Live(h, n) == Some(blobs[n].etag)
          && blobs[n].etag < |h| && h[blobs[n].etag].Put?
          && h[blobs[n].etag].rows == AllRows(blobs[n].body))
    && (forall n | Live(h, n).Some? :: n in blobs)
  }

  lemma MirrorsPut(h: History, blobs: map<Name, Version>, n: Name, body: Body, author: Author)
    requires Mirrors(h, blobs)
    ensures Mirrors(h + [Put(n, AllRows(body), author)], blobs[n := Version(body, |h|)])
  {
    var e := Put(n, AllRows(body), author);
    var after := blobs[n := Version(body, |h|)];
    forall m | m in after ensures Live(h + [e], m) == Some(after[m].etag) {
      LiveSnoc(h, e, m);
    }
    forall m | Live(h + [e], m).Some? ensures m in after {
      LiveSnoc(h, e, m);
    }
  }

  lemma MirrorsRemove(h: History, blobs: map<Name, Version>, n: Name, author: Author)
    requires Mirrors(h, blobs)
    ensures Mirrors(h + [Remove(n, author)], blobs - {n})
  {
    var e := Remove(n, author);
    forall m | m in blobs - {n} ensures Live(h + [e], m) == Some((blobs - {n})[m].etag) {
      LiveSnoc(h, e, m);
    }
    forall m | Live(h + [e], m).Some? ensures m in blobs - {n} {
      LiveSnoc(h, e, m);
    }
  }

  /** `mid` extends `h` by outside writes only. */
  ghost predicate OutsideOnly(h: History, mid: History) {
    h <= mid && forall i | |h| <= i < |mid| :: mid[i].author == Outsider
  }

  class Container {
    var blobs: map<Name, Version>
    var clock: nat
    var script: seq<Weather>
    ghost var history: History

    ghost predicate Valid()
      reads this
    {
      clock == |history| && Mirrors(history, blobs)
    }

    /** Outside writes up to the next request, and that request's fate. */
    method Elapse() returns (fault: Fault)
      requires Valid()
      modifies this
      ensures Valid() && OutsideOnly(old(history), history)
      ensures Faults(old(script)) == Faults(script) + if fault.NoFault? then 0 else 1
      ensures old(script) == [] ==> script == [] && fault.NoFault? && history == old(history) && blobs == old(blobs)
    {
      if script == [] {
        return NoFault;
      }
      var now := script[0];
      script := script[1..];
      for i := 0 to |now.before|
        invariant Valid() && OutsideOnly(old(history), history) && script == old(script)[1..]
      {
        match now.before[i] {
          case WriteBlob(n, body) => Write(n, body, Outsider);
          case DeleteBlob(n) => Erase(n, Outsider);
        }
      }
      return now.fault;
    }

    method Write(n: Name, body: Body, ghost author: Author)
      requires Valid()
      modifies this`blobs, this`clock, this`history
      ensures Valid() && history == old(history) + [Put(n, AllRows(body), author)]
      ensures blobs == old(blobs)[n := Version(body, |old(history)|)] && script == old(script)
    {
      MirrorsPut(history, blobs, n, body, author);
      blobs := blobs[n := Version(body, clock)];
      history := history + [Put(n, AllRows(body), author)];
      clock := clock + 1;
    }

    method Erase(n: Name, ghost author: Author)
      requires Valid()
      modifies this`blobs, this`clock, this`history
      ensures Valid() && history == old(history) + [Remove(n, author)] && script == old(script)
    {
      MirrorsRemove(history, blobs, n, author);
      blobs := blobs - {n};
      history := history + [Remove(n, author)];
      clock := clock + 1;
    }

    /** GET with If-Match: the body of exactly the version that etag names, or an error. */
    method GetBodyIfMatch(n: Name, etag: Etag) returns (r: Result<Body>)
      requires Valid()
      modifies this
      ensures Valid() && OutsideOnly(old(history), history)
      ensures r.Success? ==> Live(history, n) == Some(etag) && etag < |history| && history[etag].Put?
                             && AllRows(r.value) == history[etag].rows
      ensures old(script) == [] ==> script == [] && history == old(history) && blobs == old(blobs)
      ensures Faults(script) <= Faults(old(script))
      ensures Faults(old(script)) == Faults(script) ==> (r.Success? <==> n in blobs && blobs[n].etag == etag)
      ensures old(script) == [] ==> (r.Success? <==> Live(history, n) == Some(etag))
      ensures r.Success? ==> n in blobs && r.value == blobs[n].body
    {
      var fault := Elapse();
      if !fault.NoFault? {
        return Failure(Azure);
      }
      if n !in blobs || blobs[n].etag != etag {
        return Failure(ConcurrentUpdate);
      }
      return Success(blobs[n].body);
    }

    /** The row count in the footer of whatever version is there now. */
    method RowCount(n: Name) returns (r: Result<nat>)
      requires Valid()
      modifies this
      ensures Valid() && OutsideOnly(old(history), history)
      ensures r.Success? ==> n in blobs && r.value == |AllRows(blobs[n].body)|
      ensures old(script) == [] ==> script == [] && history == old(history) && blobs == old(blobs)
      ensures Faults(script) <= Faults(old(script))
      ensures Faults(old(script)) == Faults(script) ==> (r.Success? <==> n in blobs)
    {
      var fault := Elapse();
      if !fault.NoFault? || n !in blobs {
        return Failure(Azure);
      }
      return Success(TotalRows(blobs[n].body));
    }

    /** PUT with If-Match: replaces the named version and no other. */
    method PutIfMatch(n: Name, body: Body, etag: Etag, ghost author: Author) returns (r: Result<Etag>, ghost mid: History)
      requires Valid()
      modifies this
      ensures Valid() && OutsideOnly(old(history), mid)
      ensures r.Success? ==> r.value == |mid|
      ensures if Live(mid, n) == Some(etag) && (r.Success? || history != mid)
              then history == mid + [Put(n, AllRows(body), author)]
              else r.Failure? && history == mid
      ensures old(script) == [] ==> script == [] && mid == old(history)
      ensures Faults(script) <= Faults(old(script))
      ensures Faults(old(script)) == Faults(script) ==> (r.Success? <==> Live(mid, n) == Some(etag))
      ensures Faults(old(script)) == Faults(script) && r.Failure? ==> !(n in blobs && blobs[n].etag == etag)
    {
      var fault := Elapse();
      mid := history;
      if fault.Refused? {
        return Failure(Azure), mid;
      }
      if n !in blobs || blobs[n].etag != etag {
        return Failure(ConcurrentUpdate), mid;
      }
      var issued := clock;
      Write(n, body, author);
      r := if fault.LostReply? then Failure(Azure) else Success(issued);
    }

    /** PUT with If-None-Match: * — creates the blob and never overwrites one. */
    method PutIfNoneMatch(n: Name, body: Body, ghost author: Author) returns (r: Result<Etag>, ghost mid: History)
      requires Valid()
      modifies this
      ensures Valid() && OutsideOnly(old(history), mid)
      ensures r.Success? ==> r.value == |mid|
      ensures if Live(mid, n).None? && (r.Success? || history != mid)
              then history == mid + [Put(n, AllRows(body), author)]
              else r.Failure? && history == mid
      ensures old(script) == [] ==> script == [] && mid == old(history)
      ensures Faults(script) <= Faults(old(script))
      ensures Faults(old(script)) == Faults(script) ==> (r.Success? <==> Live(mid, n).None?)
      ensures Faults(old(script)) == Faults(script) && r.Failure? ==> n in blobs
      ensures old(script) == [] ==> blobs - {n} == old(blobs) - {n}
    {
      var fault := Elapse();
      mid := history;
      if fault.Refused? {
        return Failure(Azure), mid;
      }
      if n in blobs {
        return Failure(ConcurrentUpdate), mid;
      }
      var issued := clock;
      Write(n, body, author);
      r := if fault.LostReply? then Failure(Azure) else Success(issued);
    }

    /** DELETE with If-Match: removes the named version and no other; a missing blob is an error. */
    method DeleteIfMatch(n: Name, etag: Etag, ghost author: Author) returns (r: Result<()>, ghost mid: History)
      requires Valid()
      modifies this
      ensures Valid() && OutsideOnly(old(history), mid)
      ensures if Live(mid, n) == Some(etag) && (r.Success? || history != mid)
              then history == mid + [Remove(n, author)]
              else r.Failure? && history == mid
      ensures old(script) == [] ==> script == [] && mid == old(history)
      ensures Faults(script) <= Faults(old(script))
      ensures Faults(old(script)) == Faults(script) ==> (r.Success? <==> Live(mid, n) == Some(etag))
      ensures Faults(old(script)) == Faults(script) && r.Failure? ==> !(n in blobs && blobs[n].etag == etag)
    {
      var fault := Elapse();
      mid := history;
      if fault.Refused? {
        return Failure(Azure), mid;
      }
      if n !in blobs || blobs[n].etag != etag {
        return Failure(ConcurrentUpdate), mid;
      }
      Erase(n, author);
      r := if fault.LostReply? then Failure(Azure) else Success(());
    }

    /** Best-effort DELETE: a missing blob counts as success. */
    method DeleteUnconditional(n: Name, ghost author: Author) returns (r: Result<()>, ghost mid: History)
      requires Valid()
      modifies this
      ensures Valid() && OutsideOnly(old(history), mid)
      ensures r.Success? ==> Live(history, n).None?
      ensures history == mid || (Live(mid, n).Some? && history == mid + [Remove(n, author)])
      ensures Live(mid, n).Some? && r.Success? ==> history == mid + [Remove(n, author)]
      ensures Faults(old(script)) == Faults(script) + if r.Success? then 0 else 1
      ensures old(script) == [] ==> script == [] && mid == old(history) && r.Success?
    {
      var fault := Elapse();
      mid := history;
      if fault.Refused? {
        return Failure(Azure), mid;
      }
      if n in blobs {
        Erase(n, author);
        LiveSnoc(mid, Remove(n, author), n);
      }
      r := if fault.LostReply? then Failure(Azure) else Success(());
    }

    /**
     The listing of a prefix with etags: every listable blob once, under its current etag, and no
     staging name; refused when there are more than the cap. Staging blobs do not count.
     */
    method ListWithPrefixEtags(prefix: string) returns (r: Result<seq<(Name, Etag)>>)
      requires Valid()
      ensures r.Failure? <==> |(set n | n in blobs && prefix <= n && !Contains(n, ".tmp."))| > 100_000
      ensures r.Success? ==> ListsExactly(r.value, set n | n in blobs && prefix <= n && !Contains(n, ".tmp."))
      ensures r.Success? ==> forall i | 0 <= i < |r.value| ::
                !IsStagingName(r.value[i].0) && Live(history, r.value[i].0) == Some(r.value[i].1)
    {
      assert ListableUnder(blobs, prefix) == set n | n in blobs && prefix <= n && !Contains(n, ".tmp.");
      r := ListPages(blobs, prefix);
    }
  }

  /** The pager loop over one view of the container; pages come in any order. */
  method ListPages(blobs: map<Name, Version>, prefix: string) returns (r: Result<seq<(Name, Etag)>>)
    ensures r.Failure? <==> |ListableUnder(blobs, prefix)| > MAX_LIST_RESULTS
    ensures r.Success? ==> ListsExactly(r.value, ListableUnder(blobs, prefix))
    ensures r.Success? ==> forall i | 0 <= i < |r.value| :: r.value[i].0 in blobs && blobs[r.value[i].0].etag == r.value[i].1
  {
    var out: seq<(Name, Etag)> := [];
    var todo := blobs.Keys;
    ghost var all := ListableUnder(blobs, prefix);
    ghost var done: set<Name> := {};
    while todo != {}
      invariant todo <= blobs.Keys && done == all - todo
      invariant ListsExactly(out, done) && |out| <= MAX_LIST_RESULTS
      invariant forall i | 0 <= i < |out| :: out[i].0 in blobs && blobs[out[i].0].etag == out[i].1
      decreases todo
    {
      var n :| n in todo;
      todo := todo - {n};
      if Listable(n, prefix) {
        assert n in all && n !in done;
        if |out| >= MAX_LIST_RESULTS {
          SubsetSize(done + {n}, all);
          return Failure(Azure);
        }
        ListsOneMore(out, done, n, blobs[n].etag);
        out := out + [(n, blobs[n].etag)];
        done := done + {n};
      } else {
        assert n !in all;
      }
    }
    return Success(out);
  }

  lemma ListsOneMore(out: seq<(Name, Etag)>, names: set<Name>, n: Name, etag: Etag)
    requires ListsExactly(out, names) && n !in names
    ensures ListsExactly(out + [(n, etag)], names + {n})
  {
  }

  predicate Listable(n: Name, prefix: string) {
    prefix <= n && !IsStagingName(n)
  }

  function ListableUnder(blobs: map<Name, Version>, prefix: string): set<Name> {
    set n | n in blobs && Listable(n, prefix)
  }

  /** The listing names each element of `names` once. */
  ghost predicate ListsExactly(out: seq<(Name, Etag)>, names: set<Name>) {
    && |out| == |names|
    && (forall i | 0 <= i < |out| :: out[i].0 in names)
    && (forall i, j | 0 <= i < j < |out| :: out[i].0 != out[j].0)
  }

  lemma {:induction false} SubsetSize(a: set<Name>, b: set<Name>)
    requires a <= b
    ensures |a| <= |b|
  {
    if a != {} {
      var x :| x in a;
      SubsetSize(a - {x}, b - {x});
    }
  }
}
