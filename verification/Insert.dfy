/**
 INSERT routing (src/fdw/modify/insert.rs): rows are grouped by partition tuple, buffered, flushed to a
 writer per group every 8,192 rows, and uploaded as one blob per group at the end.
 */
module Insert {
  import opened Numbers
  import opened Wrappers
  import opened Text
  import opened Pushdown
  import opened Partition
  import opened PartitionQuals
  import opened Attributes
  import Names

  const BATCH_ROWS: nat := 8192

  /** A value of an inserted row; `Other` stands for types that cannot be partition values. */
  datatype Value = NullValue | IntValue(n: int) | DateValue(days: int) | TextValue(s: Bytes) | Other(id: nat)

  type Slot = seq<Value>
  type Key = seq<Bytes>

  const DOT: Byte := '.' as int

  predicate ContainsDots(s: Bytes) {
    exists i | 0 <= i < |s| - 1 :: s[i] == DOT && s[i + 1] == DOT
  }

  /** A partition value as path text; `dates` prints a date, or refuses one out of range. */
  function PartitionText(v: Value, dates: int -> Option<Bytes>): Result<Bytes> {
    match v
    case NullValue => Failure(SchemaMismatch)
    case IntValue(n) => if n < 0 then Failure(SchemaMismatch) else Success(ShowInt(n))
    case DateValue(d) => if dates(d).None? then Failure(SchemaMismatch) else Success(dates(d).value)
    case TextValue(s) => if !Accepted(s) || ContainsDots(s) then Failure(SchemaMismatch) else Success(s)
    case Other(_) => Failure(SchemaMismatch)
  }

  /** The partition tuple of a row, or the refusal of its first bad value. */
  ghost predicate KeyIs(slot: Slot, attnums: seq<nat>, dates: int -> Option<Bytes>, key: Key) {
    |key| == |attnums| && forall p | 0 <= p < |attnums| ::
      attnums[p] < |slot| && PartitionText(slot[attnums[p]], dates) == Success(key[p])
  }

  ghost predicate HasKey(slot: Slot, attnums: seq<nat>, dates: int -> Option<Bytes>) {
    forall p | 0 <= p < |attnums| :: attnums[p] < |slot| && PartitionText(slot[attnums[p]], dates).Success?
  }

  method DeriveKey(slot: Slot, attnums: seq<nat>, dates: int -> Option<Bytes>) returns (r: Result<Key>)
    requires forall p | 0 <= p < |attnums| :: attnums[p] < |slot|
    ensures r.Success? <==> HasKey(slot, attnums, dates)
    ensures r.Success? ==> KeyIs(slot, attnums, dates, r.value)
  {
    var key: Key := [];
    for p := 0 to |attnums|
      invariant |key| == p && forall k | 0 <= k < p :: PartitionText(slot[attnums[k]], dates) == Success(key[k])
    {
      var t := PartitionText(slot[attnums[p]], dates);
      if t.Failure? {
        return Failure(t.error);
      }
      key := key + [t.value];
    }
    r := Success(key);
  }

  /** Printed dates are non-empty and break no path. */
  ghost predicate PlainDates(dates: int -> Option<Bytes>) {
    forall d: int :: dates(d).Some? ==> Accepted(dates(d).value)
  }

  lemma {:induction false} DigitsOnly(n: nat)
    ensures Show(n) != [] && forall i | 0 <= i < |Show(n)| :: IsDigit(Show(n)[i])
  {
    if n >= 10 {
      DigitsOnly(n / 10);
    }
  }

  /** Whatever INSERT accepts can stand in a path, and an integer can always be read back. */
  lemma TextIsAccepted(v: Value, dates: int -> Option<Bytes>)
    requires PlainDates(dates) && PartitionText(v, dates).Success?
    ensures Accepted(PartitionText(v, dates).value)
    ensures v.IntValue? ==> Readable(PartitionText(v, dates).value)
  {
    if v.IntValue? {
      DigitsOnly(v.n);
    }
  }

  /** The path of an inserted row reads back as its tuple, unless a value contains a percent sign. */
  lemma InsertedPathReadsBack(slot: Slot, attnums: seq<nat>, dates: int -> Option<Bytes>, key: Key,
                              base: Bytes, names: seq<Bytes>, unique: Bytes)
    requires KeyIs(slot, attnums, dates, key) && PlainDates(dates) && 0 < |attnums| == |names|
    requires DistinctKeys(names) && forall i | 0 <= i < |names| :: PlainName(names[i])
    requires forall k | 0 <= k < |BaseSegments(base)| :: Ignored(names, BaseSegments(base)[k])
    requires SLASH !in unique && EQUALS !in unique
    ensures Parsed(names, TargetName(base, names, key, unique)) ==
            if forall i | 0 <= i < |key| :: Readable(key[i]) then Success(Tuple(names, key, |key|))
            else Failure(SchemaMismatch)
  {
    hide Parsed, TargetName, Tuple, BaseSegments, Ignored, DistinctKeys, Readable;
    forall p | 0 <= p < |key| ensures Accepted(key[p]) {
      TextIsAccepted(slot[attnums[p]], dates);
    }
    PathRoundTrip(base, names, key, unique);
  }

  /** The stored columns of a row, in order. */
  function StoredValues(slot: Slot, attnums: seq<nat>): Slot {
    if slot == [] then []
    else
      var last := |slot| - 1;
      StoredValues(slot[..last], attnums) + if last in attnums then [] else [slot[last]]
  }

  /** Every stored attribute of the row is in the file column that a scan reads it from, and nothing else is there. */
  ghost predicate StoredAs(slot: Slot, attnums: seq<nat>, row: Slot) {
    && |row| == StoredBelow(attnums, |slot|)
    && forall i | 0 <= i < |slot| && FileColumn(attnums, i).Some? ::
         FileColumn(attnums, i).value < |row| && row[FileColumn(attnums, i).value] == slot[i]
  }

  lemma {:induction false} StoredMeans(slot: Slot, attnums: seq<nat>)
    ensures StoredAs(slot, attnums, StoredValues(slot, attnums))
  {
    if slot != [] {
      var last := |slot| - 1;
      StoredMeans(slot[..last], attnums);
      forall i | 0 <= i < |slot| && FileColumn(attnums, i).Some?
        ensures FileColumn(attnums, i).value < |StoredValues(slot, attnums)|
        ensures StoredValues(slot, attnums)[FileColumn(attnums, i).value] == slot[i]
      {
        if i < last {
          assert slot[..last][i] == slot[i];
        }
      }
    }
  }

  /** The text stands for the value: decimal digits, the text itself, or the printed date. */
  ghost predicate Denotes(text: Bytes, v: Value, dates: int -> Option<Bytes>) {
    match v
    case IntValue(n) => n >= 0 && DigitsValue(text) == Some(n)
    case TextValue(s) => text == s
    case DateValue(d) => dates(d) == Some(text)
    case _ => false
  }

  /** Values that have no path text: nulls, negatives, unprintable dates, text that is empty or breaks a path. */
  ghost predicate Refused(v: Value, dates: int -> Option<Bytes>) {
    match v
    case NullValue => true
    case IntValue(n) => n < 0
    case DateValue(d) => dates(d).None?
    case TextValue(s) => s == [] || ('/' as int) in s || ('=' as int) in s || exists i | 0 < i < |s| :: s[i - 1] == s[i] == '.' as int
    case Other(_) => true
  }

  lemma PartitionTextMeans(v: Value, dates: int -> Option<Bytes>)
    ensures PartitionText(v, dates).Failure? <==> Refused(v, dates)
    ensures PartitionText(v, dates).Success? ==> Denotes(PartitionText(v, dates).value, v, dates)
  {
    match v {
      case IntValue(n) =>
        if n >= 0 {
          ShowDigits(n);
        }
      case TextValue(s) =>
        if ContainsDots(s) {
          var i :| 0 <= i < |s| - 1 && s[i] == DOT && s[i + 1] == DOT;
          assert s[i + 1 - 1] == s[i + 1] == DOT;
        }
        if i :| 0 < i < |s| && s[i - 1] == s[i] == DOT {
          assert s[i - 1] == DOT && s[i - 1 + 1] == DOT;
        }
      case _ =>
    }
  }

  /** The tuple stands for the partition values of the row. */
  ghost predicate KeyDenotes(key: Key, slot: Slot, attnums: seq<nat>, dates: int -> Option<Bytes>) {
    |key| == |attnums| && forall p | 0 <= p < |attnums| :: attnums[p] < |slot| && Denotes(key[p], slot[attnums[p]], dates)
  }

  lemma KeyMeans(slot: Slot, attnums: seq<nat>, dates: int -> Option<Bytes>, key: Key)
    requires KeyIs(slot, attnums, dates, key)
    ensures KeyDenotes(key, slot, attnums, dates)
  {
    hide PartitionText, Denotes;
    forall p | 0 <= p < |attnums| ensures attnums[p] < |slot| && Denotes(key[p], slot[attnums[p]], dates) {
      PartitionTextMeans(slot[attnums[p]], dates);
    }
  }

  /** Walks the columns, skipping those that live in the path. */
  method StorageRow(slot: Slot, attnums: seq<nat>) returns (row: Slot)
    ensures row == StoredValues(slot, attnums)
  {
    row := [];
    for i := 0 to |slot|
      invariant row == StoredValues(slot[..i], attnums)
    {
      assert slot[..i + 1][..i] == slot[..i];
      if i !in attnums {
        row := row + [slot[i]];
      }
    }
    assert slot[..|slot|] == slot;
  }

  /** A row as routed. */
  datatype Routed = Routed(key: Key, row: Slot)

  /** The rows of one key, in arrival order. */
  ghost function RowsFor(log: seq<Routed>, key: Key): seq<Slot> {
    if log == [] then []
    else
      var last := log[|log| - 1];
      RowsFor(log[..|log| - 1], key) + if last.key == key then [last.row] else []
  }

  /** How many of the first `n` rows went to `key`. */
  ghost function CountFor(log: seq<Routed>, key: Key, n: nat): nat
    requires n <= |log|
  {
    if n == 0 then 0 else CountFor(log, key, n - 1) + if log[n - 1].key == key then 1 else 0
  }

  /** `rows` are the rows of one key, each at its place in arrival order. */
  ghost predicate InArrivalOrder(rows: seq<Slot>, log: seq<Routed>, key: Key) {
    && |rows| == CountFor(log, key, |log|)
    && forall i | 0 <= i < |log| && log[i].key == key :: CountFor(log, key, i) < |rows| && rows[CountFor(log, key, i)] == log[i].row
  }

  lemma {:induction false} CountForPrefix(log: seq<Routed>, key: Key, m: nat, n: nat)
    requires n <= m <= |log|
    ensures CountFor(log[..m], key, n) == CountFor(log, key, n)
  {
    if n > 0 {
      CountForPrefix(log, key, m, n - 1);
    }
  }

  lemma ArrivalSnoc(rows: seq<Slot>, log: seq<Routed>, key: Key)
    requires log != [] && InArrivalOrder(rows, log[..|log| - 1], key)
    ensures InArrivalOrder(rows + if log[|log| - 1].key == key then [log[|log| - 1].row] else [], log, key)
  {
    hide CountFor;
    var n := |log| - 1;
    CountForStep(log, key, n);
    forall i | 0 <= i <= n ensures CountFor(log[..n], key, i) == CountFor(log, key, i) {
      CountForPrefix(log, key, n, i);
    }
    assert forall i | 0 <= i < n :: log[..n][i] == log[i];
  }

  lemma CountForStep(log: seq<Routed>, key: Key, n: nat)
    requires n < |log|
    ensures CountFor(log, key, n + 1) == CountFor(log, key, n) + if log[n].key == key then 1 else 0
  {
  }

  lemma {:induction false} RowsForMeans(log: seq<Routed>, key: Key)
    ensures InArrivalOrder(RowsFor(log, key), log, key)
  {
    if log != [] {
      hide InArrivalOrder, CountFor;
      RowsForMeans(log[..|log| - 1], key);
      ArrivalSnoc(RowsFor(log[..|log| - 1], key), log, key);
    }
  }

  lemma RowsForSnoc(log: seq<Routed>, r: Routed, key: Key)
    ensures RowsFor(log + [r], key) == RowsFor(log, key) + if r.key == key then [r.row] else []
  {
    assert (log + [r])[..|log|] == log;
  }

  /** A map from group to rows, empty where the group is missing. */
  function RowsUnder(m: map<Key, seq<Slot>>, key: Key): seq<Slot> {
    if key in m then m[key] else []
  }

  /** What is written and what is buffered make up what arrived. */
  ghost predicate Conserves(log: seq<Routed>, builders: map<Key, seq<Slot>>, writers: map<Key, seq<Slot>>) {
    && (forall k :: RowsUnder(writers, k) + RowsUnder(builders, k) == RowsFor(log, k))
    && (forall k | k in builders :: RowsFor(log, k) != [])
    && (forall k | k in writers :: k in builders && writers[k] != [])
  }

  ghost predicate Counted(counts: map<Key, nat>, builders: map<Key, seq<Slot>>) {
    counts.Keys == builders.Keys && forall k | k in builders :: counts[k] == |builders[k]|
  }

  function CountIn(counts: map<Key, nat>, key: Key): nat {
    if key in counts then counts[key] else 0
  }

  /** No count has reached the batch size, except perhaps that of `k`. */
  ghost predicate BelowBut(counts: map<Key, nat>, k: Key) {
    forall j | j in counts && j != k :: counts[j] < BATCH_ROWS
  }

  ghost predicate AllBelow(counts: map<Key, nat>) {
    forall j | j in counts :: counts[j] < BATCH_ROWS
  }

  lemma AppendConserves(log: seq<Routed>, builders: map<Key, seq<Slot>>, writers: map<Key, seq<Slot>>, r: Routed)
    requires Conserves(log, builders, writers)
    ensures Conserves(log + [r], builders[r.key := RowsUnder(builders, r.key) + [r.row]], writers)
  {
    hide RowsFor;
    var after := builders[r.key := RowsUnder(builders, r.key) + [r.row]];
    forall k ensures RowsUnder(writers, k) + RowsUnder(after, k) == RowsFor(log + [r], k)
    {
      RowsForSnoc(log, r, k);
      if k == r.key {
        assert RowsUnder(writers, k) + (RowsUnder(builders, k) + [r.row]) == RowsUnder(writers, k) + RowsUnder(builders, k) + [r.row];
      }
    }
    forall k | k in after ensures RowsFor(log + [r], k) != [] {
      RowsForSnoc(log, r, k);
    }
  }

  lemma FlushConserves(log: seq<Routed>, builders: map<Key, seq<Slot>>, writers: map<Key, seq<Slot>>, key: Key)
    requires Conserves(log, builders, writers) && key in builders && builders[key] != []
    ensures Conserves(log, builders[key := []], writers[key := RowsUnder(writers, key) + builders[key]])
  {
    var b, w := builders[key := []], writers[key := RowsUnder(writers, key) + builders[key]];
    forall k ensures RowsUnder(w, k) + RowsUnder(b, k) == RowsFor(log, k) {
      assert RowsUnder(writers, k) + RowsUnder(builders, k) == RowsFor(log, k);
      if k == key {
        assert RowsUnder(w, k) + [] == RowsUnder(writers, k) + RowsUnder(builders, k);
      }
    }
  }

  /** The whole state, as values; `n` is the number of partition columns. */
  ghost predicate Books(log: seq<Routed>, builders: map<Key, seq<Slot>>, writers: map<Key, seq<Slot>>,
                        targetNames: map<Key, Bytes>, counts: map<Key, nat>, n: nat) {
    && Conserves(log, builders, writers) && Counted(counts, builders)
    && targetNames.Keys == builders.Keys && forall k | k in builders :: |k| == n
  }

  lemma BooksKeys(log: seq<Routed>, builders: map<Key, seq<Slot>>, writers: map<Key, seq<Slot>>,
                  targetNames: map<Key, Bytes>, counts: map<Key, nat>, n: nat)
    requires Books(log, builders, writers, targetNames, counts, n)
    ensures Conserves(log, builders, writers)
    ensures counts.Keys == builders.Keys == targetNames.Keys && writers.Keys <= builders.Keys
    ensures forall k | k in builders :: counts[k] == |builders[k]|
  {
  }

  lemma BooksAppend(log: seq<Routed>, builders: map<Key, seq<Slot>>, writers: map<Key, seq<Slot>>,
                    targetNames: map<Key, Bytes>, counts: map<Key, nat>, n: nat, r: Routed, name: Bytes)
    requires Books(log, builders, writers, targetNames, counts, n) && |r.key| == n && AllBelow(counts)
    requires r.key in targetNames ==> name == targetNames[r.key]
    ensures var count := counts[r.key := CountIn(counts, r.key) + 1];
            && Books(log + [r], builders[r.key := RowsUnder(builders, r.key) + [r.row]], writers, targetNames[r.key := name], count, n)
            && BelowBut(count, r.key)
  {
    hide Conserves;
    AppendConserves(log, builders, writers, r);
  }

  lemma BooksFlush(log: seq<Routed>, builders: map<Key, seq<Slot>>, writers: map<Key, seq<Slot>>,
                   targetNames: map<Key, Bytes>, counts: map<Key, nat>, n: nat, key: Key)
    requires Books(log, builders, writers, targetNames, counts, n) && key in builders && builders[key] != []
    ensures Books(log, builders[key := []], writers[key := RowsUnder(writers, key) + builders[key]], targetNames, counts[key := 0], n)
  {
    hide Conserves;
    FlushConserves(log, builders, writers, key);
  }

  // ---------- the order of uploads ---------------------------------------------------------

  function CmpTuple(a: Key, b: Key): int {
    if a == [] || b == [] then CmpInt(|a|, |b|)
    else if CmpBytes(a[0], b[0]) != 0 then CmpBytes(a[0], b[0])
    else CmpTuple(a[1..], b[1..])
  }

  lemma {:induction false} TupleOrder(a: Key, b: Key, c: Key)
    ensures CmpTuple(a, b) == 0 <==> a == b
    ensures CmpTuple(a, b) == -CmpTuple(b, a)
    ensures CmpTuple(a, b) <= 0 && CmpTuple(b, c) <= 0 ==> CmpTuple(a, c) <= 0
  {
    if a != [] && b != [] {
      TupleOrder(a[1..], b[1..], if c == [] then [] else c[1..]);
      assert a == [a[0]] + a[1..] && b == [b[0]] + b[1..];
      BytesOrder(a[0], b[0], if c == [] then [] else c[0]);
      if c != [] {
        BytesOrder(b[0], c[0], a[0]);
      }
    }
  }

  /** At `i` the tuples differ for the first time, and there `a` has the smaller text. */
  ghost predicate TupleBeforeAt(a: Key, b: Key, i: nat) {
    i < |a| && i < |b| && a[..i] == b[..i] && TextBefore(a[i], b[i])
  }

  /** Tuples of one length are ordered by their first difference. */
  lemma {:induction false} TupleMeans(a: Key, b: Key)
    requires |a| == |b|
    ensures CmpTuple(a, b) < 0 <==> exists i: nat :: TupleBeforeAt(a, b, i)
  {
    hide TextBefore, CmpBytes;
    if a != [] {
      CmpBytesMeans(a[0], b[0]);
      BytesOrder(a[0], b[0], a[0]);
      if a[0] == b[0] {
        TupleMeans(a[1..], b[1..]);
        TupleBeforeTail(a, b);
      } else {
        assert TextBefore(a[0], b[0]) ==> TupleBeforeAt(a, b, 0);
        assert forall i: nat | TupleBeforeAt(a, b, i) :: i == 0 by {
          assert forall i: nat | 0 < i < |a| :: a[..i][0] == a[0] && b[..i][0] == b[0];
        }
      }
    }
  }

  lemma TupleBeforeTail(a: Key, b: Key)
    requires |a| == |b| > 0 && a[0] == b[0]
    ensures (exists i: nat :: TupleBeforeAt(a, b, i)) <==> exists i: nat :: TupleBeforeAt(a[1..], b[1..], i)
  {
    hide TextBefore;
    CmpBytesMeans(a[0], a[0]);
    BytesOrder(a[0], a[0], a[0]);
    forall i: nat | 0 < i < |a| ensures TupleBeforeAt(a, b, i) <==> TupleBeforeAt(a[1..], b[1..], i - 1) {
      assert a[..i] == [a[0]] + a[1..][..i - 1] && b[..i] == [b[0]] + b[1..][..i - 1];
    }
    if i: nat :| TupleBeforeAt(a, b, i) {
      assert TupleBeforeAt(a[1..], b[1..], i - 1);
    }
    if i: nat :| TupleBeforeAt(a[1..], b[1..], i) {
      assert TupleBeforeAt(a, b, i + 1);
    }
  }

  /** No key is below `least`. */
  predicate IsLeastKey(keys: set<Key>, least: Key) {
    forall k | k in keys :: CmpTuple(least, k) <= 0
  }

  lemma {:induction false} LeastKey(keys: set<Key>) returns (least: Key)
    requires keys != {}
    ensures least in keys && IsLeastKey(keys, least)
    decreases |keys|
  {
    hide CmpTuple;
    var any :| any in keys;
    TupleOrder(any, any, any);
    if keys == {any} {
      least := any;
    } else {
      var other := LeastKey(keys - {any});
      TupleOrder(any, other, any);
      least := if CmpTuple(any, other) <= 0 then any else other;
      forall k | k in keys ensures CmpTuple(least, k) <= 0 {
        if k != any {
          TupleOrder(least, other, k);
        }
      }
    }
  }

  lemma BelowAll(keys: set<Key>, least: Key, k: Key)
    requires IsLeastKey(keys, least) && k in keys && k != least
    ensures CmpTuple(least, k) < 0
  {
    TupleOrder(least, k, k);
  }

  ghost predicate KeysAscend(ks: seq<Key>) {
    forall i, j | 0 <= i < j < |ks| :: CmpTuple(ks[i], ks[j]) < 0
  }

  /** The keys in ascending order. */
  method SortKeys(keys: set<Key>) returns (sorted: seq<Key>)
    ensures KeysAscend(sorted) && forall k :: k in sorted <==> k in keys
  {
    hide CmpTuple;
    var todo := keys;
    sorted := [];
    while todo != {}
      invariant todo <= keys && KeysAscend(sorted) && forall k :: k in sorted <==> k in keys - todo
      invariant forall k, j | k in todo && 0 <= j < |sorted| :: CmpTuple(sorted[j], k) < 0
      decreases todo
    {
      ghost var _ := LeastKey(todo);
      var least :| least in todo && IsLeastKey(todo, least);
      forall k | k in todo - {least} ensures CmpTuple(least, k) < 0 {
        BelowAll(todo, least, k);
      }
      sorted := sorted + [least];
      todo := todo - {least};
    }
  }

  /** One uploaded blob. */
  datatype Upload = Upload(key: Key, name: Bytes, rows: seq<Slot>)

  /** Blob names to rows. */
  type Blobs = map<Bytes, seq<Slot>>

  /** What the container holds after the uploads, each replacing whatever has its name. */
  ghost function Puts(before: Blobs, uploads: seq<Upload>): Blobs {
    if uploads == [] then before
    else
      var last := uploads[|uploads| - 1];
      Puts(before, uploads[..|uploads| - 1])[last.name := last.rows]
  }

  ghost predicate NamesDiffer(uploads: seq<Upload>) {
    forall i, j | 0 <= i < j < |uploads| :: uploads[i].name != uploads[j].name
  }

  ghost predicate NameTaken(uploads: seq<Upload>, name: Bytes) {
    exists i | 0 <= i < |uploads| :: uploads[i].name == name
  }

  /** Every upload is there, and nothing else has changed. */
  ghost predicate Lands(before: Blobs, uploads: seq<Upload>, after: Blobs) {
    && (forall i | 0 <= i < |uploads| :: uploads[i].name in after && after[uploads[i].name] == uploads[i].rows)
    && (forall n | !NameTaken(uploads, n) :: (n in after <==> n in before) && (n in after ==> after[n] == before[n]))
  }

  /** No upload replaces another when no two have the same name. */
  lemma {:induction false} PutsLand(before: Blobs, uploads: seq<Upload>)
    requires NamesDiffer(uploads)
    ensures Lands(before, uploads, Puts(before, uploads))
  {
    if uploads != [] {
      var n := |uploads| - 1;
      var front := uploads[..n];
      PutsLand(before, front);
      forall i | 0 <= i < n ensures uploads[i].name in Puts(before, uploads) && Puts(before, uploads)[uploads[i].name] == uploads[i].rows {
        assert front[i] == uploads[i] && uploads[i].name != uploads[n].name;
      }
      forall m | !NameTaken(uploads, m) ensures !NameTaken(front, m) && m != uploads[n].name {
        assert forall i | 0 <= i < n :: front[i] == uploads[i];
      }
    }
  }

  /** Every name is that of its tuple, with the unique part that came with the tuple's first row. */
  ghost predicate Named(targetNames: map<Key, Bytes>, uniques: map<Key, Bytes>, base: Bytes, legacy: Option<Bytes>, names: seq<Bytes>) {
    targetNames.Keys == uniques.Keys && forall k | k in targetNames ::
      |k| == |names| && targetNames[k] == NameFor(base, legacy, names, k, uniques[k])
  }

  lemma NamedAppend(targetNames: map<Key, Bytes>, uniques: map<Key, Bytes>, base: Bytes, legacy: Option<Bytes>, names: seq<Bytes>,
                    key: Key, name: Bytes, unique: Bytes)
    requires Named(targetNames, uniques, base, legacy, names) && |key| == |names|
    requires name == if key in targetNames then targetNames[key] else NameFor(base, legacy, names, key, unique)
    ensures Named(targetNames[key := name], if key in uniques then uniques else uniques[key := unique], base, legacy, names)
  {
    hide NameFor;
  }

  class InsertState {
    const attnums: seq<nat>                 // partition columns
    const names: seq<Bytes>                 // declared partition keys
    const base: Bytes
    const legacy: Option<Bytes>
    const dates: int -> Option<Bytes>
    var builders: map<Key, seq<Slot>>
    var writers: map<Key, seq<Slot>>
    var targetNames: map<Key, Bytes>
    var counts: map<Key, nat>
    ghost var log: seq<Routed>
    ghost var uniques: map<Key, Bytes>

    ghost predicate Valid()
      reads this
    {
      && |names| == |attnums| && Books(log, builders, writers, targetNames, counts, |names|)
      && Named(targetNames, uniques, base, legacy, names)
    }

    constructor (attnums: seq<nat>, names: seq<Bytes>, base: Bytes, legacy: Option<Bytes>, dates: int -> Option<Bytes>)
      requires |names| == |attnums|
      ensures Valid() && AllBelow(counts) && log == [] && uniques == map[]
      ensures this.attnums == attnums && this.names == names && this.base == base && this.legacy == legacy && this.dates == dates
    {
      this.attnums, this.names, this.base, this.legacy, this.dates := attnums, names, base, legacy, dates;
      builders, writers, targetNames, counts, log, uniques := map[], map[], map[], map[], [], map[];
    }

    /** Routes one row into its group's builder; a bad partition value leaves everything as it was. */
    method AppendSlot(slot: Slot, unique: Bytes) returns (r: Result<()>, ghost key: Key)
      requires Valid() && AllBelow(counts) && forall p | 0 <= p < |attnums| :: attnums[p] < |slot|
      modifies this
      ensures Valid()
      ensures r.Success? <==> HasKey(slot, attnums, dates)
      ensures r.Failure? ==> unchanged(this)
      ensures r.Success? ==>
                && KeyIs(slot, attnums, dates, key) && log == old(log) + [Routed(key, StoredValues(slot, attnums))]
                && BelowBut(counts, key) && counts == old(counts)[key := CountIn(old(counts), key) + 1]
                && uniques == if key in old(uniques) then old(uniques) else old(uniques)[key := unique]
    {
      hide Books, Conserves, Counted, StoredValues, KeyIs, AllBelow, BelowBut, NameFor, Named, RowsUnder, CountIn;
      var k := DeriveKey(slot, attnums, dates);
      key := [];
      if k.Failure? {
        return Failure(k.error), key;
      }
      key := k.value;
      BooksKeys(log, builders, writers, targetNames, counts, |names|);
      var name;
      if k.value in targetNames {
        name := targetNames[k.value];
      } else {
        name := ComputeTargetName(base, legacy, names, k.value, unique);
      }
      var row := StorageRow(slot, attnums);
      BooksAppend(log, builders, writers, targetNames, counts, |names|, Routed(key, row), name);
      NamedAppend(targetNames, uniques, base, legacy, names, key, name, unique);
      uniques := if key in uniques then uniques else uniques[key := unique];
      targetNames := targetNames[k.value := name];
      counts := counts[k.value := CountIn(counts, k.value) + 1];
      builders := builders[k.value := RowsUnder(builders, k.value) + [row]];
      log := log + [Routed(key, row)];
      r := Success(());
    }

    /** Moves a group's buffered rows to its writer. */
    method FlushGroup(key: Key)
      requires Valid() && key in builders
      modifies this`builders, this`writers, this`counts
      ensures Valid() && builders == old(builders)[key := []] && counts == old(counts)[key := 0]
    {
      hide Books, Conserves, Named, RowsUnder;
      BooksKeys(log, builders, writers, targetNames, counts, |names|);
      if counts[key] == 0 {
        assert counts[key := 0] == counts && builders[key := []] == builders;
        return;
      }
      BooksFlush(log, builders, writers, targetNames, counts, |names|, key);
      writers := writers[key := RowsUnder(writers, key) + builders[key]];
      builders := builders[key := []];
      counts := counts[key := 0];
    }

    /** Inserts one row, then flushes every group that has reached the batch size. */
    method Insert(slot: Slot, unique: Bytes) returns (r: Result<()>, ghost key: Key)
      requires Valid() && AllBelow(counts) && forall p | 0 <= p < |attnums| :: attnums[p] < |slot|
      modifies this
      ensures Valid() && AllBelow(counts)
      ensures r.Success? <==> HasKey(slot, attnums, dates)
      ensures r.Failure? ==> unchanged(this)
      ensures r.Success? ==>
                && KeyIs(slot, attnums, dates, key) && log == old(log) + [Routed(key, StoredValues(slot, attnums))]
                && uniques == (if key in old(uniques) then old(uniques) else old(uniques)[key := unique])
                && var n := CountIn(old(counts), key) + 1; counts == old(counts)[key := if n == 8192 then 0 else n]
    {
      hide Books, Conserves, StoredValues, HasKey, KeyIs, Named;
      r, key := AppendSlot(slot, unique);
      if r.Failure? {
        return;
      }
      BooksKeys(log, builders, writers, targetNames, counts, |names|);
      ghost var appended := counts;
      var full := set k | k in counts && counts[k] >= BATCH_ROWS;
      while full != {}
        invariant Valid() && (forall k | k in counts :: counts[k] >= BATCH_ROWS ==> k in full)
        invariant forall k | k in full :: k in builders && k == key && counts == appended
        invariant full == {} ==> counts == if appended[key] >= BATCH_ROWS then appended[key := 0] else appended
        invariant log == old(log) + [Routed(key, StoredValues(slot, attnums))]
        invariant uniques == if key in old(uniques) then old(uniques) else old(uniques)[key := unique]
        decreases full
      {
        var k :| k in full;
        FlushGroup(k);
        full := full - {k};
      }
    }

    /** The tail flush of every group. */
    method FlushTails()
      requires Valid()
      modifies this`builders, this`writers, this`counts
      ensures Valid() && forall k | k in builders :: builders[k] == []
    {
      hide Books, Named;
      var todo := builders.Keys;
      while todo != {}
        invariant Valid() && todo <= builders.Keys
        invariant forall k | k in builders && k !in todo :: builders[k] == []
        decreases todo
      {
        var k :| k in todo;
        FlushGroup(k);
        todo := todo - {k};
      }
    }

    /** Flushes every tail, then uploads one blob per group that received a row, in key order, until one fails. */
    method FinalizeAndUpload(before: Blobs, faults: nat -> UploadFault) returns (r: Result<()>, uploads: seq<Upload>, after: Blobs)
      requires Valid()
      modifies this`builders, this`writers, this`counts
      ensures InKeyOrder(uploads) && after == Puts(before, uploads)
      ensures forall i | 0 <= i < |uploads| :: uploads[i].rows == RowsFor(log, uploads[i].key) != []
      ensures NamedUploads(uploads, uniques, base, legacy, names)
      ensures r.Success? ==> (forall i | 0 <= i < |uploads| :: faults(i).NoFault?) && forall k | RowsFor(log, k) != [] :: Uploaded(uploads, k)
      ensures r.Failure? ==> StoppedBy(faults, |uploads|) && forall k | RowsFor(log, k) != [] :: Uploaded(uploads, k) || AfterAll(uploads, k)
    {
      hide Books, RowsFor, InKeyOrder, Conserves, RowsUnder, NameFor, Puts, Named, NamedUploads, Uploaded, AfterAll, StoppedBy;
      FlushTails();
      BooksKeys(log, builders, writers, targetNames, counts, |names|);
      AllWritten(log, builders, writers);
      r, uploads, after := Drain(writers, targetNames, before, faults);
      UploadsNamed(uploads, targetNames, uniques, base, legacy, names);
    }
  }

  ghost predicate InKeyOrder(uploads: seq<Upload>) {
    forall i, j | 0 <= i < j < |uploads| :: CmpTuple(uploads[i].key, uploads[j].key) < 0
  }

  ghost predicate NamedUploads(uploads: seq<Upload>, uniques: map<Key, Bytes>, base: Bytes, legacy: Option<Bytes>, names: seq<Bytes>) {
    forall i | 0 <= i < |uploads| ::
      && |uploads[i].key| == |names| && uploads[i].key in uniques
      && uploads[i].name == NameFor(base, legacy, names, uploads[i].key, uniques[uploads[i].key])
  }

  lemma UploadsNamed(uploads: seq<Upload>, targetNames: map<Key, Bytes>, uniques: map<Key, Bytes>, base: Bytes, legacy: Option<Bytes>, names: seq<Bytes>)
    requires Named(targetNames, uniques, base, legacy, names)
    requires forall i | 0 <= i < |uploads| :: uploads[i].key in targetNames && uploads[i].name == targetNames[uploads[i].key]
    ensures NamedUploads(uploads, uniques, base, legacy, names)
  {
  }

  ghost predicate Uploaded(uploads: seq<Upload>, k: Key) {
    exists i | 0 <= i < |uploads| :: uploads[i].key == k
  }

  /** What becomes of an upload request: a failed one may have been applied all the same. */
  datatype UploadFault = NoFault | Refused | ReplyLost

  /** With `n` blobs written, the next request was refused or the reply to the last one was lost. */
  ghost predicate StoppedBy(faults: nat -> UploadFault, n: nat) {
    || (faults(n).Refused? && forall i | 0 <= i < n :: faults(i).NoFault?)
    || (n > 0 && faults(n - 1).ReplyLost? && forall i | 0 <= i < n - 1 :: faults(i).NoFault?)
  }

  /** The key comes after all those uploaded. */
  ghost predicate AfterAll(uploads: seq<Upload>, k: Key) {
    forall i | 0 <= i < |uploads| :: CmpTuple(uploads[i].key, k) < 0
  }

  /** The uploads of the first keys, as the groups have them. */
  ghost predicate FirstOf(uploads: seq<Upload>, sorted: seq<Key>, writers: map<Key, seq<Slot>>, targetNames: map<Key, Bytes>) {
    |uploads| <= |sorted| && forall j | 0 <= j < |uploads| ::
      && sorted[j] in writers && sorted[j] in targetNames
      && uploads[j] == Upload(sorted[j], targetNames[sorted[j]], writers[sorted[j]])
  }

  lemma FirstInOrder(uploads: seq<Upload>, sorted: seq<Key>, writers: map<Key, seq<Slot>>, targetNames: map<Key, Bytes>)
    requires FirstOf(uploads, sorted, writers, targetNames) && KeysAscend(sorted) && forall k :: k in sorted <==> k in writers
    ensures InKeyOrder(uploads) && forall k | k in writers :: Uploaded(uploads, k) || (|uploads| < |sorted| && AfterAll(uploads, k))
  {
    hide CmpTuple;
    forall k | k in writers ensures Uploaded(uploads, k) || (|uploads| < |sorted| && AfterAll(uploads, k)) {
      assert k in sorted;
      var i :| 0 <= i < |sorted| && sorted[i] == k;
      if i < |uploads| {
        assert uploads[i].key == k;
      }
    }
  }

  /** One upload per writer, ascending, until one fails. */
  method Drain(writers: map<Key, seq<Slot>>, targetNames: map<Key, Bytes>, before: Blobs, faults: nat -> UploadFault)
    returns (r: Result<()>, uploads: seq<Upload>, after: Blobs)
    requires writers.Keys <= targetNames.Keys
    ensures InKeyOrder(uploads) && after == Puts(before, uploads)
    ensures forall i | 0 <= i < |uploads| ::
              && uploads[i].key in writers && uploads[i].rows == writers[uploads[i].key]
              && uploads[i].key in targetNames && uploads[i].name == targetNames[uploads[i].key]
    ensures r.Success? ==> (forall i | 0 <= i < |uploads| :: faults(i).NoFault?) && forall k | k in writers :: Uploaded(uploads, k)
    ensures r.Failure? ==> StoppedBy(faults, |uploads|) && forall k | k in writers :: Uploaded(uploads, k) || AfterAll(uploads, k)
  {
    hide CmpTuple, InKeyOrder, Uploaded, AfterAll, KeysAscend;
    var sorted := SortKeys(writers.Keys);
    uploads, after := [], before;
    for i := 0 to |sorted|
      invariant after == Puts(before, uploads) && |uploads| == i && FirstOf(uploads, sorted, writers, targetNames)
      invariant forall j | 0 <= j < i :: faults(j).NoFault?
    {
      assert sorted[i] in writers.Keys;
      if faults(i).Refused? {
        FirstInOrder(uploads, sorted, writers, targetNames);
        return Failure(Azure), uploads, after;
      }
      var one := Upload(sorted[i], targetNames[sorted[i]], writers[sorted[i]]);
      assert (uploads + [one])[..i] == uploads;
      uploads := uploads + [one];
      after := after[one.name := one.rows];
      if faults(i).ReplyLost? {
        FirstInOrder(uploads, sorted, writers, targetNames);
        return Failure(Azure), uploads, after;
      }
    }
    FirstInOrder(uploads, sorted, writers, targetNames);
    r := Success(());
  }

  /** With every buffer empty, the writers hold all that arrived. */
  lemma AllWritten(log: seq<Routed>, builders: map<Key, seq<Slot>>, writers: map<Key, seq<Slot>>)
    requires Conserves(log, builders, writers) && forall k | k in builders :: builders[k] == []
    ensures forall k | k in writers :: writers[k] == RowsFor(log, k) != []
    ensures forall k | RowsFor(log, k) != [] :: k in writers
  {
    forall k ensures RowsUnder(writers, k) == RowsFor(log, k) {
      assert RowsUnder(writers, k) + [] == RowsFor(log, k);
    }
  }

  // ---------- a whole statement --------------------------------------------------------------

  /** Row `i` of the statement went to its own partition tuple. */
  ghost predicate RoutedAs(log: seq<Routed>, slots: seq<Slot>, attnums: seq<nat>, dates: int -> Option<Bytes>) {
    |log| == |slots| && forall i | 0 <= i < |slots| ::
      KeyIs(slots[i], attnums, dates, log[i].key) && log[i].row == StoredValues(slots[i], attnums)
  }

  /** Row `i` of the statement was split into the values of its file columns and a tuple for the others. */
  ghost predicate SplitAs(log: seq<Routed>, slots: seq<Slot>, attnums: seq<nat>, dates: int -> Option<Bytes>) {
    |log| == |slots| && forall i | 0 <= i < |slots| ::
      StoredAs(slots[i], attnums, log[i].row) && KeyDenotes(log[i].key, slots[i], attnums, dates)
  }

  lemma RoutedIsSplit(log: seq<Routed>, slots: seq<Slot>, attnums: seq<nat>, dates: int -> Option<Bytes>)
    requires RoutedAs(log, slots, attnums, dates)
    ensures SplitAs(log, slots, attnums, dates)
  {
    hide StoredValues, StoredAs, KeyIs, KeyDenotes;
    forall i | 0 <= i < |slots| ensures StoredAs(slots[i], attnums, log[i].row) && KeyDenotes(log[i].key, slots[i], attnums, dates) {
      StoredMeans(slots[i], attnums);
      KeyMeans(slots[i], attnums, dates, log[i].key);
    }
  }

  lemma {:induction false} RowsForFrom(log: seq<Routed>, key: Key) returns (i: nat)
    requires RowsFor(log, key) != []
    ensures i < |log| && log[i].key == key
  {
    i := |log| - 1;
    if log[i].key != key {
      i := RowsForFrom(log[..i], key);
    }
  }

  lemma RoutedAccepted(log: seq<Routed>, slots: seq<Slot>, attnums: seq<nat>, dates: int -> Option<Bytes>, key: Key)
    requires RoutedAs(log, slots, attnums, dates) && PlainDates(dates) && RowsFor(log, key) != []
    ensures |key| == |attnums| && AllAccepted(key)
  {
    hide StoredValues, PartitionText, PlainDates, Accepted;
    var i := RowsForFrom(log, key);
    forall p | 0 <= p < |key| ensures Accepted(key[p]) {
      TextIsAccepted(slots[i][attnums[p]], dates);
    }
  }

  /** Timestamps and random identifiers contain neither slash nor equals sign nor the staging infix. */
  predicate PlainUnique(unique: Bytes) {
    SLASH !in unique && EQUALS !in unique && !LooksStaged(unique)
  }

  ghost predicate PlainUniques(uniques: map<Key, Bytes>) {
    forall k | k in uniques :: PlainUnique(uniques[k])
  }

  /** No two groups are uploaded under one name. */
  lemma UploadNamesDiffer(uploads: seq<Upload>, uniques: map<Key, Bytes>, base: Bytes, legacy: Option<Bytes>, names: seq<Bytes>)
    requires NamedUploads(uploads, uniques, base, legacy, names) && InKeyOrder(uploads) && PlainUniques(uniques)
    requires forall i | 0 <= i < |uploads| :: AllAccepted(uploads[i].key)
    ensures NamesDiffer(uploads)
  {
    hide TargetName, AllAccepted, CmpTuple;
    forall i, j | 0 <= i < j < |uploads| ensures uploads[i].name != uploads[j].name {
      var k, l := uploads[i].key, uploads[j].key;
      TupleOrder(k, l, l);
      assert k != l && names != [];
      if uploads[i].name == uploads[j].name {
        TargetDetermines(base, names, k, l, uniques[k], uniques[l]);
      }
    }
  }

  /** The declared keys can be told apart, and the base holds none of them. */
  ghost predicate ReadableLayout(base: Bytes, names: seq<Bytes>) {
    && DistinctKeys(names) && (forall i | 0 <= i < |names| :: PlainName(names[i]))
    && (forall k | 0 <= k < |BaseSegments(base)| :: Ignored(names, BaseSegments(base)[k]))
  }

  /** The name parses back to the blob's own tuple, or is refused when that contains a percent sign. */
  ghost predicate ReadsBack(names: seq<Bytes>, upload: Upload)
    requires |upload.key| == |names|
  {
    Parsed(names, upload.name) ==
      if forall i | 0 <= i < |names| :: Readable(upload.key[i]) then Success(Tuple(names, upload.key, |names|)) else Failure(SchemaMismatch)
  }

  lemma UploadReadsBack(uploads: seq<Upload>, uniques: map<Key, Bytes>, base: Bytes, legacy: Option<Bytes>, names: seq<Bytes>, i: nat)
    requires NamedUploads(uploads, uniques, base, legacy, names) && PlainUniques(uniques) && i < |uploads|
    requires names != [] && ReadableLayout(base, names) && AllAccepted(uploads[i].key)
    ensures ReadsBack(names, uploads[i])
  {
    hide Parsed, Tuple, TargetName, DistinctKeys, PlainName, Accepted, Ignored, BaseSegments, Readable;
    PathRoundTrip(base, names, uploads[i].key, uniques[uploads[i].key]);
  }

  lemma UploadDroppedIff(uploads: seq<Upload>, uniques: map<Key, Bytes>, base: Bytes, legacy: Option<Bytes>, names: seq<Bytes>, i: nat)
    requires NamedUploads(uploads, uniques, base, legacy, names) && PlainUniques(uniques) && i < |uploads|
    ensures LooksStaged(uploads[i].name) <==> StagedBy(base, legacy, names, uploads[i].key)
  {
    hide LooksStaged, NameFor, StagedBy;
    DroppedIff(base, legacy, names, uploads[i].key, uniques[uploads[i].key]);
  }

  const TMP_VALUE: Bytes := [0x61] + TMP_INFIX + [0x62]

  lemma TmpValueStaged(dates: int -> Option<Bytes>)
    ensures LooksStaged(TMP_VALUE) && PartitionText(TextValue(TMP_VALUE), dates) == Success(TMP_VALUE) && Readable(TMP_VALUE)
  {
    assert TMP_VALUE[1..6] == TMP_INFIX;
    assert Names.OccursAt(TMP_VALUE, TMP_INFIX, 1);
    TmpAccepted();
  }

  lemma TmpAccepted()
    ensures Accepted(TMP_VALUE) && !ContainsDots(TMP_VALUE) && Readable(TMP_VALUE)
  {
    assert TMP_VALUE == [0x61, 0x2E, 0x74, 0x6D, 0x70, 0x2E, 0x62];
  }

  /** INSERT accepts the text value `a.tmp.b`, and no listing ever shows the blob of a tuple that holds it. */
  lemma TmpValueNeverListed(base: Bytes, legacy: Option<Bytes>, names: seq<Bytes>, key: Key, unique: Bytes, dates: int -> Option<Bytes>)
    requires |key| == |names| && TMP_VALUE in key && PlainUnique(unique)
    ensures PartitionText(TextValue(TMP_VALUE), dates) == Success(TMP_VALUE) && Readable(TMP_VALUE)
    ensures LooksStaged(NameFor(base, legacy, names, key, unique))
  {
    hide LooksStaged, NameFor, PartitionText;
    TmpValueStaged(dates);
    var p :| 0 <= p < |key| && key[p] == TMP_VALUE;
    assert PairStaged(names, key, |key|);
    DroppedIff(base, legacy, names, key, unique);
  }

  /**
   Every upload holds its tuple's rows in arrival order, under a name of its own that reads back as the tuple
   and that the listing shows unless the base, a key or a value holds the staging infix. Nothing else changed.
   */
  ghost predicate Placed(uploads: seq<Upload>, log: seq<Routed>, before: Blobs, after: Blobs, base: Bytes, legacy: Option<Bytes>,
                         names: seq<Bytes>) {
    && InKeyOrder(uploads) && NamesDiffer(uploads) && Lands(before, uploads, after)
    && (forall i | 0 <= i < |uploads| ::
          && InArrivalOrder(uploads[i].rows, log, uploads[i].key) && uploads[i].rows != [] && |uploads[i].key| == |names|
          && (names != [] && ReadableLayout(base, names) ==> ReadsBack(names, uploads[i]))
          && (LooksStaged(uploads[i].name) <==> StagedBy(base, legacy, names, uploads[i].key)))
  }

  lemma PlacedAll(uploads: seq<Upload>, log: seq<Routed>, before: Blobs, uniques: map<Key, Bytes>, base: Bytes, legacy: Option<Bytes>,
                  names: seq<Bytes>, slots: seq<Slot>, attnums: seq<nat>, dates: int -> Option<Bytes>)
    requires RoutedAs(log, slots, attnums, dates) && PlainDates(dates) && PlainUniques(uniques)
    requires NamedUploads(uploads, uniques, base, legacy, names) && InKeyOrder(uploads)
    requires forall i | 0 <= i < |uploads| :: uploads[i].rows == RowsFor(log, uploads[i].key) != []
    ensures Placed(uploads, log, before, Puts(before, uploads), base, legacy, names)
  {
    hide RoutedAs, PlainDates, PlainUniques, InKeyOrder, NamesDiffer, Lands, ReadableLayout, ReadsBack, RowsFor, AllAccepted, NameFor, LooksStaged, StagedBy, InArrivalOrder;
    forall i | 0 <= i < |uploads| ensures AllAccepted(uploads[i].key) {
      RoutedAccepted(log, slots, attnums, dates, uploads[i].key);
    }
    UploadNamesDiffer(uploads, uniques, base, legacy, names);
    PutsLand(before, uploads);
    forall i | 0 <= i < |uploads| ensures InArrivalOrder(uploads[i].rows, log, uploads[i].key) {
      RowsForMeans(log, uploads[i].key);
    }
    forall i | 0 <= i < |uploads| && names != [] && ReadableLayout(base, names) ensures ReadsBack(names, uploads[i]) {
      UploadReadsBack(uploads, uniques, base, legacy, names, i);
    }
    forall i | 0 <= i < |uploads| ensures LooksStaged(uploads[i].name) <==> StagedBy(base, legacy, names, uploads[i].key) {
      UploadDroppedIff(uploads, uniques, base, legacy, names, i);
    }
  }

  ghost predicate AllHaveKeys(slots: seq<Slot>, attnums: seq<nat>, dates: int -> Option<Bytes>) {
    forall i | 0 <= i < |slots| :: HasKey(slots[i], attnums, dates)
  }

  /**
   Inserts all rows and finalizes. A row with a value no path can hold fails the statement before anything is
   written. Otherwise every tuple that received a row gets its own blob, in key order, unless an upload
   fails; the blobs written before that stay.
   */
  method InsertAll(state: InsertState, slots: seq<Slot>, uniques: seq<Bytes>, before: Blobs, faults: nat -> UploadFault)
    returns (r: Result<()>, uploads: seq<Upload>, ghost log: seq<Routed>, after: Blobs)
    requires state.Valid() && state.log == [] && state.uniques == map[] && AllBelow(state.counts) && |uniques| == |slots|
    requires forall i, p | 0 <= i < |slots| && 0 <= p < |state.attnums| :: state.attnums[p] < |slots[i]|
    requires PlainDates(state.dates) && forall i | 0 <= i < |uniques| :: PlainUnique(uniques[i])
    modifies state
    ensures !AllHaveKeys(slots, state.attnums, state.dates) ==> r.Failure? && uploads == [] && after == before
    ensures AllHaveKeys(slots, state.attnums, state.dates) ==>
              && SplitAs(log, slots, state.attnums, state.dates)
              && Placed(uploads, log, before, after, state.base, state.legacy, state.names)
              && (r.Success? ==> (forall i | 0 <= i < |uploads| :: faults(i).NoFault?) && forall i | 0 <= i < |log| :: Uploaded(uploads, log[i].key))
              && (r.Failure? ==> StoppedBy(faults, |uploads|) && forall i | 0 <= i < |log| :: Uploaded(uploads, log[i].key) || AfterAll(uploads, log[i].key))
  {
    hide Books, HasKey, KeyIs, StoredValues, RowsFor, Named, NamedUploads, PlainDates, StoppedBy, Uploaded, AfterAll, Placed, SplitAs;
    uploads, log, after := [], [], before;
    for i := 0 to |slots|
      invariant state.Valid() && AllBelow(state.counts) && state.log == log && PlainUniques(state.uniques)
      invariant RoutedAs(log, slots[..i], state.attnums, state.dates)
      invariant forall k | 0 <= k < i :: HasKey(slots[k], state.attnums, state.dates)
    {
      var one, _ := state.Insert(slots[i], uniques[i]);
      if one.Failure? {
        return Failure(one.error), [], log, before;
      }
      log := state.log;
    }
    assert slots[..|slots|] == slots;
    r, uploads, after := state.FinalizeAndUpload(before, faults);
    PlacedAll(uploads, log, before, state.uniques, state.base, state.legacy, state.names, slots, state.attnums, state.dates);
    RoutedIsSplit(log, slots, state.attnums, state.dates);
    forall i | 0 <= i < |log| ensures RowsFor(log, log[i].key) != [] {
      ArrivedSomewhere(log, i);
    }
  }

  lemma ArrivedSomewhere(log: seq<Routed>, i: nat)
    requires i < |log|
    ensures RowsFor(log, log[i].key) != []
  {
    RowsForMeans(log, log[i].key);
  }

  /** A failed upload leaves nothing behind if and only if it was refused and no group came before it. */
  lemma FailedInsertIsClean(uploads: seq<Upload>, log: seq<Routed>, before: Blobs, after: Blobs, base: Bytes, legacy: Option<Bytes>,
                            names: seq<Bytes>, faults: nat -> UploadFault)
    requires Placed(uploads, log, before, after, base, legacy, names) && StoppedBy(faults, |uploads|)
    requires forall i | 0 <= i < |uploads| :: uploads[i].name !in before
    ensures after == before <==> faults(0).Refused?
  {
    if uploads == [] {
      assert forall n :: !NameTaken(uploads, n);
      assert after == before by {
        assert after.Keys == before.Keys;
      }
    } else {
      assert uploads[0].name in after;
    }
  }
}
