/**
 * The board view's grouper (obsidian-projects/src/components/views/Board/board.ts):
 * one bucket of records per distinct non-empty string value of the status field,
 * plus the reserved "no status" bucket. The localised label of that bucket is a
 * parameter, `noStatus`.
 */
module Board {
  import opened Records
  import opened Seqs

  /** A JavaScript value that may also be `null` or `undefined`. */
  datatype Nullable<T> = Null | Undefined | Present(value: T)

  /** `notEmpty`: the value is neither `null` nor `undefined`. */
  function NotEmpty<T>(v: Nullable<T>): (b: bool)
    ensures b <==> !v.Null? && !v.Undefined?
    ensures b ==> v == Present(v.value)
  {
    match v
    case Present(_) => true
    case _ => false
  }

  /**
   * `value && isString(value) ? value : null`: a field value is a bucket key when it
   * is a non-empty string (the empty string is falsy).
   */
  function AsKey(v: Value): (k: Nullable<string>)
    ensures !k.Undefined?
    ensures NotEmpty(k) <==> v.Str? && v.s != ""
    ensures k.Present? ==> v == Str(k.value)
  {
    if v.Str? && v.s != "" then Present(v.s) else Null
  }

  /**
   * The list `unique` builds its set from: each record's value mapped to a key or
   * null, the nulls filtered out with `notEmpty`, in record order.
   */
  function Keys(records: seq<DataRecord>, field: string): (ks: seq<string>)
    ensures forall s :: s in ks <==> exists i :: 0 <= i < |records| && AsKey(Lookup(records[i], field)) == Present(s)
    ensures "" !in ks
  {
    if records == [] then []
    else
      var k := AsKey(Lookup(records[0], field));
      var rest := Keys(records[1..], field);
      assert forall s :: s in rest ==> exists i :: 0 <= i < |records| && AsKey(Lookup(records[i], field)) == Present(s) by {
        forall s | s in rest
          ensures exists i :: 0 <= i < |records| && AsKey(Lookup(records[i], field)) == Present(s)
        {
          var j :| 0 <= j < |records| - 1 && AsKey(Lookup(records[1..][j], field)) == Present(s);
          assert records[1..][j] == records[j + 1];
        }
      }
      assert forall i :: 1 <= i < |records| ==> records[i] == records[1..][i - 1];
      (if NotEmpty(k) then [k.value] else []) + rest
  }

  ghost predicate NoDuplicates<T>(s: seq<T>)
  {
    forall i, j :: 0 <= i < j < |s| ==> s[i] != s[j]
  }

  /** `[...new Set(s)]`: each element once, in the order it was first inserted. */
  function Distinct(s: seq<string>): (d: seq<string>)
    ensures NoDuplicates(d)
    ensures forall x :: x in d <==> x in s
  {
    if s == [] then []
    else
      var p := s[..|s| - 1];
      var x := s[|s| - 1];
      assert s == p + [x];
      var dp := Distinct(p);
      if x in dp then dp else dp + [x]
  }

  /** Position of the first occurrence of `x` in `s`. */
  function FirstIndex(s: seq<string>, x: string): (i: nat)
    requires x in s
    ensures i < |s| && s[i] == x && x !in s[..i]
  {
    if s[0] == x then 0 else 1 + FirstIndex(s[1..], x)
  }

  lemma {:induction false} FirstIndexExtend(p: seq<string>, x: string, y: string)
    requires y in p
    ensures FirstIndex(p + [x], y) == FirstIndex(p, y)
  {
    if p[0] != y {
      assert (p + [x])[1..] == p[1..] + [x];
      FirstIndexExtend(p[1..], x, y);
    }
  }

  lemma FirstIndexLast(p: seq<string>, x: string)
    requires x !in p
    ensures FirstIndex(p + [x], x) == |p|
  {
  }

  /** `Distinct` lists the elements in the order of their first occurrence. */
  lemma {:induction false} DistinctFirstOccurrenceOrder(s: seq<string>)
    ensures forall i, j :: 0 <= i < j < |Distinct(s)| ==> FirstIndex(s, Distinct(s)[i]) < FirstIndex(s, Distinct(s)[j])
  {
    if s != [] {
      var p := s[..|s| - 1];
      var x := s[|s| - 1];
      assert s == p + [x];
      var dp := Distinct(p);
      DistinctFirstOccurrenceOrder(p);
      forall y | y in p
        ensures FirstIndex(s, y) == FirstIndex(p, y)
      {
        FirstIndexExtend(p, x, y);
      }
      if x !in dp {
        FirstIndexLast(p, x);
      }
    }
  }

  /** Index of the first record whose value is the key `s`. */
  function FirstRecord(records: seq<DataRecord>, field: string, s: string): (i: nat)
    requires s in Keys(records, field)
    ensures i < |records| && AsKey(Lookup(records[i], field)) == Present(s)
    ensures forall j :: 0 <= j < i ==> AsKey(Lookup(records[j], field)) != Present(s)
  {
    if AsKey(Lookup(records[0], field)) == Present(s) then 0
    else
      KeyOfRest(records, field, s);
      1 + FirstRecord(records[1..], field, s)
  }

  /** Skipping a prefix that does not hold `x` shifts its first position by the prefix length. */
  lemma FirstIndexSkip(h: seq<string>, t: seq<string>, x: string)
    requires |h| <= 1 && x !in h && x in t
    ensures FirstIndex(h + t, x) == |h| + FirstIndex(t, x)
  {
    if h != [] {
      assert (h + t)[0] == h[0] != x;
      assert (h + t)[1..] == t;
    } else {
      assert h + t == t;
    }
  }

  /** A key not held by the first record is a key of the remaining records. */
  lemma KeyOfRest(records: seq<DataRecord>, field: string, s: string)
    requires s in Keys(records, field) && AsKey(Lookup(records[0], field)) != Present(s)
    ensures s in Keys(records[1..], field)
  {
    var i :| 0 <= i < |records| && AsKey(Lookup(records[i], field)) == Present(s);
    assert records[1..][i - 1] == records[i];
  }

  /** Keys come first in `Keys` exactly when their first record comes first. */
  lemma {:induction false} KeysFollowRecords(records: seq<DataRecord>, field: string, a: string, b: string)
    requires a in Keys(records, field) && b in Keys(records, field)
    ensures FirstIndex(Keys(records, field), a) < FirstIndex(Keys(records, field), b)
        <==> FirstRecord(records, field, a) < FirstRecord(records, field, b)
  {
    var k := AsKey(Lookup(records[0], field));
    var rest := records[1..];
    var h: seq<string> := if NotEmpty(k) then [k.value] else [];
    var ks := Keys(records, field);
    assert ks == h + Keys(rest, field);
    if k == Present(a) {
      assert FirstRecord(records, field, a) == 0;
      assert FirstIndex(ks, a) == 0 by { assert ks[0] == a; }
    } else if k == Present(b) {
      assert FirstRecord(records, field, b) == 0;
      assert FirstIndex(ks, b) == 0 by { assert ks[0] == b; }
    } else {
      KeyOfRest(records, field, a);
      KeyOfRest(records, field, b);
      FirstIndexSkip(h, Keys(rest, field), a);
      FirstIndexSkip(h, Keys(rest, field), b);
      assert FirstRecord(records, field, a) == 1 + FirstRecord(rest, field, a);
      assert FirstRecord(records, field, b) == 1 + FirstRecord(rest, field, b);
      KeysFollowRecords(rest, field, a, b);
    }
  }

  /**
   * `unique`: the distinct non-empty string values of the field, each once, in the
   * order of their first occurrence among the records.
   */
  function Unique(records: seq<DataRecord>, field: string): (u: seq<string>)
    ensures NoDuplicates(u)
    ensures forall s :: s in u <==> exists i :: 0 <= i < |records| && AsKey(Lookup(records[i], field)) == Present(s)
    ensures "" !in u
    ensures forall i, j :: 0 <= i < j < |u| ==>
      FirstIndex(Keys(records, field), u[i]) < FirstIndex(Keys(records, field), u[j])
    ensures forall i, j :: 0 <= i < j < |u| ==>
      FirstRecord(records, field, u[i]) < FirstRecord(records, field, u[j])
  {
    DistinctFirstOccurrenceOrder(Keys(records, field));
    var u := Distinct(Keys(records, field));
    forall i, j | 0 <= i < j < |u|
      ensures FirstRecord(records, field, u[i]) < FirstRecord(records, field, u[j])
    {
      KeysFollowRecords(records, field, u[i], u[j]);
    }
    Distinct(Keys(records, field))
  }

  /** The bucket a record goes to: its non-empty string value, or the reserved label. */
  function BucketOf(r: DataRecord, field: string, noStatus: string): (b: string)
    ensures Lookup(r, field).Str? && Lookup(r, field).s != "" ==> b == Lookup(r, field).s
    ensures !(Lookup(r, field).Str? && Lookup(r, field).s != "") ==> b == noStatus
  {
    match AsKey(Lookup(r, field))
    case Present(s) => s
    case _ => noStatus
  }

  /** The test for "belongs in bucket `key`". */
  function InBucket(field: string, noStatus: string, key: string): DataRecord -> bool
  {
    r => BucketOf(r, field, noStatus) == key
  }

  /** The `for...of` loop over the keys: an empty bucket per key, besides the reserved one. */
  method InitBuckets(keys: seq<string>, noStatus: string) returns (res: map<string, seq<DataRecord>>)
    ensures res.Keys == (set k | k in keys) + {noStatus}
    ensures forall k :: k in res ==> res[k] == []
  {
    res := map[noStatus := []];
    for j := 0 to |keys|
      invariant res.Keys == (set k | k in keys[..j]) + {noStatus}
      invariant forall k :: k in res ==> res[k] == []
    {
      assert keys[..j + 1] == keys[..j] + [keys[j]];
      res := res[keys[j] := []];
    }
    assert keys[..|keys|] == keys;
  }

  /**
   * The body of the `forEach` callback: appends the record to its bucket, when that
   * bucket exists (`res[key]?.push`), and changes nothing else.
   */
  method FileRecord(res: map<string, seq<DataRecord>>, record: DataRecord, field: string, noStatus: string)
    returns (res': map<string, seq<DataRecord>>)
    ensures res'.Keys == res.Keys
    ensures forall k :: k in res' ==>
      res'[k] == res[k] + (if InBucket(field, noStatus, k)(record) then [record] else [])
  {
    res' := res;
    var value := Lookup(record, field);
    if value.Str? && value.s != "" {
      if value.s in res' {
        res' := res'[value.s := res'[value.s] + [record]];
      }
    } else {
      if noStatus in res' {
        res' := res'[noStatus := res'[noStatus] + [record]];
      }
    }
  }

  /** The `forEach` over the records, filling the buckets `res0` starts with. */
  method FillBuckets(records: seq<DataRecord>, field: string, noStatus: string, res0: map<string, seq<DataRecord>>)
    returns (res: map<string, seq<DataRecord>>)
    requires forall k :: k in res0 ==> res0[k] == []
    ensures res.Keys == res0.Keys
    ensures forall k :: k in res ==> res[k] == Filter(records, InBucket(field, noStatus, k))
  {
    res := res0;
    var i := 0;
    while i < |records|
      invariant 0 <= i <= |records|
      invariant res.Keys == res0.Keys
      invariant forall k :: k in res ==> res[k] == Filter(records[..i], InBucket(field, noStatus, k))
    {
      var record := records[i];
      res := FileRecord(res, record, field, noStatus);
      assert records[..i + 1] == records[..i] + [record];
      forall k | k in res
        ensures res[k] == Filter(records[..i + 1], InBucket(field, noStatus, k))
      {
        FilterAppend(records[..i], [record], InBucket(field, noStatus, k));
        FilterSingleton(record, InBucket(field, noStatus, k));
      }
      i := i + 1;
    }
    assert records[..i] == records;
  }

  /**
   * `groupRecordsByField` (board). Without a field every record is in the one
   * reserved bucket, in order. With a field the keys are the field's distinct
   * non-empty string values and the reserved label, and each bucket holds the
   * records that belong in it, in input order.
   */
  method GroupRecordsByField(records: seq<DataRecord>, fieldName: Option<string>, noStatus: string)
    returns (res: map<string, seq<DataRecord>>)
    ensures fieldName.None? || fieldName.value == "" ==> res == map[noStatus := records]
    ensures fieldName.Some? && fieldName.value != "" ==>
      res.Keys == (set k | k in Unique(records, fieldName.value)) + {noStatus}
    ensures fieldName.Some? && fieldName.value != "" ==>
      forall k :: k in res ==> res[k] == Filter(records, InBucket(fieldName.value, noStatus, k))
  {
    if fieldName.None? || fieldName.value == "" {
      return map[noStatus := records];
    }
    var keys := Unique(records, fieldName.value);
    res := InitBuckets(keys, noStatus);
    res := FillBuckets(records, fieldName.value, noStatus, res);
  }

  /** Every record's bucket is one of the keys `GroupRecordsByField` creates. */
  lemma BucketIsAKey(records: seq<DataRecord>, field: string, noStatus: string, i: nat)
    requires i < |records|
    ensures BucketOf(records[i], field, noStatus) in Unique(records, field) + [noStatus]
  {
    match AsKey(Lookup(records[i], field))
    case Present(s) =>
      assert exists j :: 0 <= j < |records| && AsKey(Lookup(records[j], field)) == Present(s);
    case _ =>
  }

  /**
   * Partition: a record sits in its own bucket as often as it occurs in the input,
   * and in no other bucket.
   */
  lemma Partition(records: seq<DataRecord>, field: string, noStatus: string, x: DataRecord, k: string)
    ensures multiset(Filter(records, InBucket(field, noStatus, k)))[x]
      == if k == BucketOf(x, field, noStatus) then multiset(records)[x] else 0
  {
    FilterCount(records, InBucket(field, noStatus, k), x);
  }

  /**
   * Label collision: a record whose value is the reserved label itself shares the
   * reserved bucket with the records that have no value, and the label is then also
   * one of the field's values.
   */
  lemma LabelCollision(records: seq<DataRecord>, field: string, noStatus: string, i: nat, j: nat)
    requires i < |records| && j < |records|
    requires Lookup(records[i], field) == Str(noStatus) && noStatus != ""
    requires !Lookup(records[j], field).Str?
    ensures noStatus in Unique(records, field)
    ensures records[i] in Filter(records, InBucket(field, noStatus, noStatus))
    ensures records[j] in Filter(records, InBucket(field, noStatus, noStatus))
  {
    assert AsKey(Lookup(records[i], field)) == Present(noStatus);
    FilterCount(records, InBucket(field, noStatus, noStatus), records[i]);
    FilterCount(records, InBucket(field, noStatus, noStatus), records[j]);
    assert records[i] in multiset(records) && records[j] in multiset(records);
  }

  /** Total size of the buckets named by `keys`. */
  function SizeSum(records: seq<DataRecord>, field: string, noStatus: string, keys: seq<string>): nat
  {
    if keys == [] then 0
    else |Filter(records, InBucket(field, noStatus, keys[0]))| + SizeSum(records, field, noStatus, keys[1..])
  }

  function Occurrences(keys: seq<string>, b: string): nat
  {
    if keys == [] then 0 else (if keys[0] == b then 1 else 0) + Occurrences(keys[1..], b)
  }

  lemma {:induction false} OccursNot(keys: seq<string>, b: string)
    requires b !in keys
    ensures Occurrences(keys, b) == 0
  {
    if keys != [] {
      OccursNot(keys[1..], b);
    }
  }

  lemma {:induction false} OccursOnce(keys: seq<string>, b: string)
    requires NoDuplicates(keys) && b in keys
    ensures Occurrences(keys, b) == 1
  {
    if keys[0] == b {
      assert forall i :: 1 <= i < |keys| ==> keys[i] != b;
      OccursNot(keys[1..], b);
    } else {
      OccursOnce(keys[1..], b);
    }
  }

  lemma {:induction false} SizeSumStep(x: DataRecord, rest: seq<DataRecord>, field: string, noStatus: string, keys: seq<string>)
    ensures SizeSum([x] + rest, field, noStatus, keys)
      == Occurrences(keys, BucketOf(x, field, noStatus)) + SizeSum(rest, field, noStatus, keys)
  {
    if keys != [] {
      assert ([x] + rest)[0] == x && ([x] + rest)[1..] == rest;
      SizeSumStep(x, rest, field, noStatus, keys[1..]);
    }
  }

  lemma {:induction false} SizeSumCovers(records: seq<DataRecord>, field: string, noStatus: string, keys: seq<string>)
    requires NoDuplicates(keys)
    requires forall i :: 0 <= i < |records| ==> BucketOf(records[i], field, noStatus) in keys
    ensures SizeSum(records, field, noStatus, keys) == |records|
  {
    if records == [] {
      if keys != [] {
        SizeSumCovers(records, field, noStatus, keys[1..]);
      }
    } else {
      var x, rest := records[0], records[1..];
      assert records == [x] + rest;
      SizeSumStep(x, rest, field, noStatus, keys);
      OccursOnce(keys, BucketOf(x, field, noStatus));
      assert forall i :: 0 <= i < |rest| ==> rest[i] == records[i + 1];
      SizeSumCovers(rest, field, noStatus, keys);
    }
  }

  /** The bucket sizes add up to the number of records: nothing is lost or duplicated. */
  lemma BucketSizesSum(records: seq<DataRecord>, field: string, noStatus: string, keys: seq<string>)
    requires NoDuplicates(keys)
    requires (set k | k in keys) == (set k | k in Unique(records, field)) + {noStatus}
    ensures SizeSum(records, field, noStatus, keys) == |records|
  {
    forall i | 0 <= i < |records|
      ensures BucketOf(records[i], field, noStatus) in keys
    {
      BucketIsAKey(records, field, noStatus, i);
      var b := BucketOf(records[i], field, noStatus);
      assert b in (set k | k in Unique(records, field)) + {noStatus};
      assert b in (set k | k in keys);
    }
    SizeSumCovers(records, field, noStatus, keys);
  }
}
