/** The meaning of Csv.Distinct (csv/csv.go): the records are folded, in
    input order, into a map from unique-key value to the best record seen so
    far; a later record replaces the stored one only when its sort field is
    strictly greater. This module defines that fold as a function, gives an
    independent description of its result (IsBest, Deduplicated) and of the
    inputs on which the Go code panics (Faults), and proves the two agree. */
module Dedup {
  import opened StringOrder

  datatype Option<T> = None | Some(value: T)

  /** A row of the table: its fields, positionally aligned with the header. */
  type Record = seq<string>

  /** Field idx can be read from rec without a Go index-out-of-range panic. */
  predicate HasField(rec: Record, idx: int) {
    0 <= idx < |rec|
  }

  /** One pass of the loop body of Distinct: None where Go panics. A new key
      never fails and is added; an existing key fails exactly when either
      record lacks the sort field, and otherwise the new record replaces the
      stored one exactly when its sort field is strictly greater. No other
      entry changes. */
  function Insert(m: map<string, Record>, rec: Record, pk: int, sort: int): (r: Option<map<string, Record>>)
    ensures HasField(rec, pk) && rec[pk] !in m ==> r.Some?
    ensures r.None? ==>
      !HasField(rec, pk) || (rec[pk] in m && (!HasField(rec, sort) || !HasField(m[rec[pk]], sort)))
    ensures r.Some? ==> HasField(rec, pk) && r.value.Keys == m.Keys + {rec[pk]}
    ensures r.Some? ==> forall k :: k in m && k != rec[pk] ==> r.value[k] == m[k]
    ensures r.Some? ==> r.value[rec[pk]] == rec || (rec[pk] in m && r.value[rec[pk]] == m[rec[pk]])
    ensures HasField(rec, pk) && rec[pk] in m && (!HasField(rec, sort) || !HasField(m[rec[pk]], sort)) ==> r.None?
    ensures HasField(rec, pk) && rec[pk] in m && HasField(rec, sort) && HasField(m[rec[pk]], sort) ==>
      r == Some(if Greater(rec[sort], m[rec[pk]][sort]) then m[rec[pk] := rec] else m)
  {
    if !HasField(rec, pk) then None
    else if rec[pk] !in m then Some(m[rec[pk] := rec])
    else if !HasField(rec, sort) || !HasField(m[rec[pk]], sort) then None
    else if Compare(rec[sort], m[rec[pk]][sort]) == 1 then Some(m[rec[pk] := rec])
    else Some(m)
  }

  /** The whole loop of Distinct, starting from the empty map. */
  function Reduce(records: seq<Record>, pk: int, sort: int): (r: Option<map<string, Record>>)
    decreases |records|
  {
    if records == [] then Some(map[])
    else
      match Reduce(records[..|records| - 1], pk, sort)
      case None => None
      case Some(m) => Insert(m, records[|records| - 1], pk, sort)
  }

  /** The unique-key values that occur in records. */
  function KeySet(records: seq<Record>, pk: int): (keys: set<string>)
  {
    set i | 0 <= i < |records| && HasField(records[i], pk) :: records[i][pk]
  }

  /** The inputs on which Distinct panics: some record has no unique-key
      field, or some record whose key occurs more than once has no sort
      field (so the comparison of a collision cannot be made). */
  ghost predicate Faults(records: seq<Record>, pk: int, sort: int) {
    (exists i :: 0 <= i < |records| && !HasField(records[i], pk)) ||
    (exists i, j ::
       && 0 <= i < |records| && 0 <= j < |records| && i != j
       && HasField(records[i], pk) && HasField(records[j], pk)
       && records[i][pk] == records[j][pk]
       && !HasField(records[i], sort))
  }

  /** records[j] is the record kept for its key: no record with the same key
      has a strictly greater sort field, and every earlier one has a strictly
      smaller one (the earliest of the maximal records wins). */
  ghost predicate IsBest(records: seq<Record>, pk: int, sort: int, j: int) {
    && 0 <= j < |records| && HasField(records[j], pk)
    && forall i ::
         0 <= i < |records| && i != j && HasField(records[i], pk) && records[i][pk] == records[j][pk] ==>
           && HasField(records[i], sort) && HasField(records[j], sort)
           && !Greater(records[i][sort], records[j][sort])
           && (i < j ==> Greater(records[j][sort], records[i][sort]))
  }

  /** x is the record kept for its key: the best record at some position. */
  ghost predicate IsBestRecord(records: seq<Record>, pk: int, sort: int, x: Record) {
    exists j :: IsBest(records, pk, sort, j) && records[j] == x
  }

  /** Every record has a unique-key field and no two share its value. */
  ghost predicate DistinctKeys(records: seq<Record>, pk: int) {
    && (forall i :: 0 <= i < |records| ==> HasField(records[i], pk))
    && (forall i, j ::
          0 <= i < j < |records| && HasField(records[i], pk) && HasField(records[j], pk) ==>
            records[i][pk] != records[j][pk])
  }

  /** output is a correct result of deduplicating input: it is made of the
      best records of input, one per key, and every key of input is kept. */
  ghost predicate Deduplicated(input: seq<Record>, output: seq<Record>, pk: int, sort: int) {
    && (forall r :: 0 <= r < |output| ==> IsBestRecord(input, pk, sort, output[r]))
    && DistinctKeys(output, pk)
    && KeySet(output, pk) == KeySet(input, pk)
  }

  /** out lists the values of m, the key of out[i] being keys[i]: one element
      per entry of m, in some order. */
  ghost predicate IsListing(m: map<string, Record>, out: seq<Record>, keys: seq<string>) {
    && |keys| == |out|
    && (forall i :: 0 <= i < |keys| ==> keys[i] in m && out[i] == m[keys[i]])
    && (forall i, j :: 0 <= i < j < |keys| ==> keys[i] != keys[j])
    && (forall k :: k in m ==> k in keys)
  }

  /** m holds, for every key of records, its best record. */
  ghost predicate BestMap(records: seq<Record>, pk: int, sort: int, m: map<string, Record>) {
    && (forall i :: 0 <= i < |records| ==> HasField(records[i], pk))
    && m.Keys == KeySet(records, pk)
    && forall k :: k in m ==> exists j :: IsBest(records, pk, sort, j) && records[j][pk] == k && m[k] == records[j]
  }

  // ---------------------------------------------------------------------
  // Small facts about appending one record

  lemma KeySetSnoc(records: seq<Record>, rec: Record, pk: int)
    ensures KeySet(records + [rec], pk) == KeySet(records, pk) + (if HasField(rec, pk) then {rec[pk]} else {})
  {
    var s := records + [rec];
    forall x | x in KeySet(s, pk) ensures x in KeySet(records, pk) + (if HasField(rec, pk) then {rec[pk]} else {}) {
      var i :| 0 <= i < |s| && HasField(s[i], pk) && s[i][pk] == x;
      if i < |records| {
        assert s[i] == records[i];
      }
    }
    forall x | x in KeySet(records, pk) ensures x in KeySet(s, pk) {
      var i :| 0 <= i < |records| && HasField(records[i], pk) && records[i][pk] == x;
      assert s[i] == records[i];
    }
    if HasField(rec, pk) {
      assert s[|records|] == rec;
    }
  }

  /** A best record stays best when a record of another key is appended. */
  lemma BestOtherKey(prefix: seq<Record>, rec: Record, pk: int, sort: int, j: int)
    requires IsBest(prefix, pk, sort, j)
    requires HasField(rec, pk) && rec[pk] != prefix[j][pk]
    ensures IsBest(prefix + [rec], pk, sort, j)
  {
    var s := prefix + [rec];
    forall i | 0 <= i < |prefix| ensures s[i] == prefix[i] {}
  }

  /** A best record stays best when a same-key record that is not strictly
      greater is appended. */
  lemma BestKept(prefix: seq<Record>, rec: Record, pk: int, sort: int, j: int)
    requires IsBest(prefix, pk, sort, j)
    requires HasField(rec, pk) && rec[pk] == prefix[j][pk]
    requires HasField(rec, sort) && HasField(prefix[j], sort)
    requires !Greater(rec[sort], prefix[j][sort])
    ensures IsBest(prefix + [rec], pk, sort, j)
  {
    var s := prefix + [rec];
    forall i | 0 <= i < |prefix| ensures s[i] == prefix[i] {}
  }

  /** An appended record strictly greater than the best of its key becomes
      the new best. */
  lemma BestReplaced(prefix: seq<Record>, rec: Record, pk: int, sort: int, j: int)
    requires IsBest(prefix, pk, sort, j)
    requires HasField(rec, pk) && rec[pk] == prefix[j][pk]
    requires HasField(rec, sort) && HasField(prefix[j], sort)
    requires Greater(rec[sort], prefix[j][sort])
    ensures IsBest(prefix + [rec], pk, sort, |prefix|)
  {
    var s, n := prefix + [rec], |prefix|;
    forall i | 0 <= i < |s| && i != n && HasField(s[i], pk) && s[i][pk] == s[n][pk]
      ensures HasField(s[i], sort) && !Greater(s[i][sort], s[n][sort]) && Greater(s[n][sort], s[i][sort])
    {
      assert s[i] == prefix[i];
      if i == j {
        CompareAntisymmetric(rec[sort], prefix[j][sort]);
      } else {
        NotGreaterThenGreater(prefix[i][sort], prefix[j][sort], rec[sort]);
      }
    }
  }

  /** An appended record whose key is new is the best of its key. */
  lemma BestFirst(prefix: seq<Record>, rec: Record, pk: int, sort: int)
    requires HasField(rec, pk) && rec[pk] !in KeySet(prefix, pk)
    ensures IsBest(prefix + [rec], pk, sort, |prefix|)
  {
    var s, n := prefix + [rec], |prefix|;
    forall i | 0 <= i < |s| && i != n && HasField(s[i], pk) ensures s[i][pk] != s[n][pk] {
      assert s[i] == prefix[i];
    }
  }

  // ---------------------------------------------------------------------
  // The fold computes the best records

  /** The entry for k after one more pass of the loop body is the best
      record of k in the longer table. */
  lemma InsertBestEntry(prefix: seq<Record>, rec: Record, pk: int, sort: int, m0: map<string, Record>, k: string)
    requires BestMap(prefix, pk, sort, m0)
    requires Insert(m0, rec, pk, sort).Some?
    requires k in Insert(m0, rec, pk, sort).value
    ensures var m := Insert(m0, rec, pk, sort).value;
      exists j :: IsBest(prefix + [rec], pk, sort, j) && (prefix + [rec])[j][pk] == k && m[k] == (prefix + [rec])[j]
  {
    var records, m := prefix + [rec], Insert(m0, rec, pk, sort).value;
    var key := rec[pk];
    if k != key {
      var j :| IsBest(prefix, pk, sort, j) && prefix[j][pk] == k && m0[k] == prefix[j];
      BestOtherKey(prefix, rec, pk, sort, j);
      assert records[j] == prefix[j];
    } else if key !in m0 {
      BestFirst(prefix, rec, pk, sort);
      assert records[|prefix|] == rec;
    } else {
      var j :| IsBest(prefix, pk, sort, j) && prefix[j][pk] == key && m0[key] == prefix[j];
      if Greater(rec[sort], m0[key][sort]) {
        BestReplaced(prefix, rec, pk, sort, j);
        assert records[|prefix|] == rec;
      } else {
        BestKept(prefix, rec, pk, sort, j);
        assert records[j] == prefix[j];
      }
    }
  }

  /** One more pass of the loop body keeps the map holding the best record
      of every key. */
  lemma InsertKeepsBestMap(prefix: seq<Record>, rec: Record, pk: int, sort: int, m0: map<string, Record>)
    requires BestMap(prefix, pk, sort, m0)
    requires Insert(m0, rec, pk, sort).Some?
    ensures BestMap(prefix + [rec], pk, sort, Insert(m0, rec, pk, sort).value)
  {
    var records, m := prefix + [rec], Insert(m0, rec, pk, sort).value;
    forall i | 0 <= i < |records| ensures HasField(records[i], pk) {
      if i < |prefix| {
        assert records[i] == prefix[i];
      }
    }
    KeySetSnoc(prefix, rec, pk);
    assert m.Keys == m0.Keys + {rec[pk]};
    forall k | k in m
      ensures exists j :: IsBest(records, pk, sort, j) && records[j][pk] == k && m[k] == records[j]
    {
      InsertBestEntry(prefix, rec, pk, sort, m0, k);
    }
  }

  /** When Distinct's loop completes, its map holds exactly the keys of the
      input, each mapped to the best record of that key. */
  lemma {:induction false} ReduceBest(records: seq<Record>, pk: int, sort: int)
    requires Reduce(records, pk, sort).Some?
    ensures BestMap(records, pk, sort, Reduce(records, pk, sort).value)
    decreases |records|
  {
    if records != [] {
      var n := |records| - 1;
      var prefix, rec := records[..n], records[n];
      assert records == prefix + [rec];
      ReduceBest(prefix, pk, sort);
      InsertKeepsBestMap(prefix, rec, pk, sort, Reduce(prefix, pk, sort).value);
    }
  }

  /** A table whose best records are known has no faulting record. */
  lemma BestMapNoFaults(records: seq<Record>, pk: int, sort: int, m: map<string, Record>)
    requires BestMap(records, pk, sort, m)
    ensures !Faults(records, pk, sort)
  {
    forall i, i' |
      && 0 <= i < |records| && 0 <= i' < |records| && i != i'
      && HasField(records[i], pk) && HasField(records[i'], pk)
      && records[i][pk] == records[i'][pk]
      ensures HasField(records[i], sort)
    {
      var k := records[i][pk];
      assert k in KeySet(records, pk);
      var j :| IsBest(records, pk, sort, j) && records[j][pk] == k && m[k] == records[j];
    }
  }

  /** Faults(records[..n]) implies Faults(records). */
  lemma FaultsPrefix(records: seq<Record>, n: nat, pk: int, sort: int)
    requires n <= |records|
    requires Faults(records[..n], pk, sort)
    ensures Faults(records, pk, sort)
  {
    var p := records[..n];
    if exists i :: 0 <= i < |p| && !HasField(p[i], pk) {
      var i :| 0 <= i < |p| && !HasField(p[i], pk);
      assert records[i] == p[i];
    } else {
      var i, j :|
        && 0 <= i < |p| && 0 <= j < |p| && i != j
        && HasField(p[i], pk) && HasField(p[j], pk)
        && p[i][pk] == p[j][pk]
        && !HasField(p[i], sort);
      assert records[i] == p[i] && records[j] == p[j];
    }
  }

  /** Distinct fails exactly on the inputs described by Faults. */
  lemma {:induction false} ReduceFails(records: seq<Record>, pk: int, sort: int)
    ensures Reduce(records, pk, sort).None? <==> Faults(records, pk, sort)
    decreases |records|
  {
    if Reduce(records, pk, sort).Some? {
      ReduceBest(records, pk, sort);
      BestMapNoFaults(records, pk, sort, Reduce(records, pk, sort).value);
    } else {
      var n := |records| - 1;
      var prefix, rec := records[..n], records[n];
      if Reduce(prefix, pk, sort).None? {
        ReduceFails(prefix, pk, sort);
        FaultsPrefix(records, n, pk, sort);
      } else {
        ReduceBest(prefix, pk, sort);
        var m0 := Reduce(prefix, pk, sort).value;
        assert Insert(m0, rec, pk, sort).None?;
        if HasField(rec, pk) {
          var key := rec[pk];
          var j :| IsBest(prefix, pk, sort, j) && prefix[j][pk] == key && m0[key] == prefix[j];
          assert records[j] == prefix[j];
          if !HasField(rec, sort) {
            assert HasField(records[n], pk) && HasField(records[j], pk) && !HasField(records[n], sort);
          } else {
            assert HasField(records[n], pk) && HasField(records[j], pk) && !HasField(records[j], sort);
          }
        }
      }
    }
  }

  // ---------------------------------------------------------------------
  // collect(m) after the fold gives a deduplicated table

  /** One more pass of the loop body extends the fold by one record. */
  lemma ReduceStep(records: seq<Record>, i: int, pk: int, sort: int, m: map<string, Record>)
    requires 0 <= i < |records|
    requires Reduce(records[..i], pk, sort) == Some(m)
    ensures Reduce(records[..i + 1], pk, sort) == Insert(m, records[i], pk, sort)
  {
    assert records[..i + 1][..i] == records[..i];
  }

  /** A pass of the loop body that panics shows the whole input faulty. */
  lemma StepFails(records: seq<Record>, i: int, pk: int, sort: int, m: map<string, Record>)
    requires 0 <= i < |records|
    requires Reduce(records[..i], pk, sort) == Some(m)
    requires Insert(m, records[i], pk, sort).None?
    ensures Faults(records, pk, sort)
  {
    ReduceStep(records, i, pk, sort, m);
    ReduceFails(records[..i + 1], pk, sort);
    FaultsPrefix(records, i + 1, pk, sort);
  }

  /** Every element of a listing of a best map is a best record, carrying
      the key it is listed under. */
  lemma ListingEntries(records: seq<Record>, pk: int, sort: int, m: map<string, Record>,
                       out: seq<Record>, keys: seq<string>)
    requires BestMap(records, pk, sort, m)
    requires IsListing(m, out, keys)
    ensures forall r :: 0 <= r < |out| ==>
      IsBestRecord(records, pk, sort, out[r]) && HasField(out[r], pk) && out[r][pk] == keys[r]
  {
    forall r | 0 <= r < |out|
      ensures IsBestRecord(records, pk, sort, out[r]) && HasField(out[r], pk) && out[r][pk] == keys[r]
    {
      var k := keys[r];
      assert k in m;
      var j :| IsBest(records, pk, sort, j) && records[j][pk] == k && m[k] == records[j];
    }
  }

  /** A listing of a best map has the key set of the input. */
  lemma ListingKeys(records: seq<Record>, pk: int, sort: int, m: map<string, Record>,
                    out: seq<Record>, keys: seq<string>)
    requires BestMap(records, pk, sort, m)
    requires IsListing(m, out, keys)
    requires forall r :: 0 <= r < |out| ==> HasField(out[r], pk) && out[r][pk] == keys[r]
    ensures KeySet(out, pk) == KeySet(records, pk)
  {
    forall x | x in KeySet(out, pk) ensures x in KeySet(records, pk) {
      var r :| 0 <= r < |out| && HasField(out[r], pk) && out[r][pk] == x;
      assert keys[r] in m;
    }
    forall x | x in KeySet(records, pk) ensures x in KeySet(out, pk) {
      assert x in m;
      var r :| 0 <= r < |keys| && keys[r] == x;
      assert out[r][pk] == x;
    }
  }

  /** The values of the map Distinct builds, listed once per key, are a
      correct deduplication of its input. */
  lemma ListingDeduplicates(records: seq<Record>, pk: int, sort: int, m: map<string, Record>,
                            out: seq<Record>, keys: seq<string>)
    requires Reduce(records, pk, sort) == Some(m)
    requires IsListing(m, out, keys)
    ensures Deduplicated(records, out, pk, sort)
  {
    ReduceBest(records, pk, sort);
    ListingEntries(records, pk, sort, m, out, keys);
    ListingKeys(records, pk, sort, m, out, keys);
  }

  // ---------------------------------------------------------------------
  // Properties of any correct deduplication

  lemma {:induction false} KeySetBound(s: seq<Record>, pk: int)
    ensures |KeySet(s, pk)| <= |s|
    decreases |s|
  {
    if s != [] {
      var n := |s| - 1;
      KeySetBound(s[..n], pk);
      KeySetSnoc(s[..n], s[n], pk);
      assert s == s[..n] + [s[n]];
    }
  }

  lemma {:induction false} DistinctKeysCard(s: seq<Record>, pk: int)
    requires DistinctKeys(s, pk)
    ensures |KeySet(s, pk)| == |s|
    decreases |s|
  {
    if s != [] {
      var n := |s| - 1;
      assert DistinctKeys(s[..n], pk);
      DistinctKeysCard(s[..n], pk);
      KeySetSnoc(s[..n], s[n], pk);
      assert s == s[..n] + [s[n]];
      assert s[n][pk] !in KeySet(s[..n], pk);
    }
  }

  /** The output has one record per distinct key, so it is no longer than
      the input. */
  lemma DedupCount(input: seq<Record>, output: seq<Record>, pk: int, sort: int)
    requires Deduplicated(input, output, pk, sort)
    ensures |output| == |KeySet(input, pk)| <= |input|
  {
    DistinctKeysCard(output, pk);
    KeySetBound(input, pk);
  }

  /** No record appears twice in s. */
  ghost predicate NoDuplicates<T>(s: seq<T>) {
    forall i, j :: 0 <= i < j < |s| ==> s[i] != s[j]
  }

  lemma {:induction false} NoDuplicatesCount<T>(s: seq<T>)
    requires NoDuplicates(s)
    ensures forall x :: multiset(s)[x] == if x in s then 1 else 0
    decreases |s|
  {
    if s != [] {
      var n := |s| - 1;
      NoDuplicatesCount(s[..n]);
      assert s == s[..n] + [s[n]];
      assert s[n] !in s[..n];
    }
  }

  /** Two duplicate-free sequences with the same elements are permutations
      of one another. */
  lemma SameElements<T>(s: seq<T>, t: seq<T>)
    requires NoDuplicates(s) && NoDuplicates(t)
    requires forall x :: x in s <==> x in t
    ensures multiset(s) == multiset(t)
  {
    NoDuplicatesCount(s);
    NoDuplicatesCount(t);
    assert forall x :: multiset(s)[x] == multiset(t)[x];
  }

  /** At most one record is the best of a key. */
  lemma BestUnique(records: seq<Record>, pk: int, sort: int, j: int, j': int)
    requires IsBest(records, pk, sort, j) && IsBest(records, pk, sort, j')
    requires records[j][pk] == records[j'][pk]
    ensures j == j'
  {
  }

  /** Deduplication is determined up to order: any two correct outputs for
      the same input are permutations of one another. */
  lemma DedupDeterminate(input: seq<Record>, o1: seq<Record>, o2: seq<Record>, pk: int, sort: int)
    requires Deduplicated(input, o1, pk, sort) && Deduplicated(input, o2, pk, sort)
    ensures multiset(o1) == multiset(o2)
  {
    forall x | x in o1 ensures x in o2 {
      DedupContains(input, o1, o2, pk, sort, x);
    }
    forall x | x in o2 ensures x in o1 {
      DedupContains(input, o2, o1, pk, sort, x);
    }
    SameElements(o1, o2);
  }

  lemma DedupContains(input: seq<Record>, o1: seq<Record>, o2: seq<Record>, pk: int, sort: int, x: Record)
    requires Deduplicated(input, o1, pk, sort) && Deduplicated(input, o2, pk, sort)
    requires x in o1
    ensures x in o2
  {
    var r :| 0 <= r < |o1| && o1[r] == x;
    var j :| IsBest(input, pk, sort, j) && input[j] == o1[r];
    assert x[pk] in KeySet(o2, pk);
    var r' :| 0 <= r' < |o2| && HasField(o2[r'], pk) && o2[r'][pk] == x[pk];
    var j' :| IsBest(input, pk, sort, j') && input[j'] == o2[r'];
    BestUnique(input, pk, sort, j, j');
  }

  /** Records with distinct keys are distinct records. */
  lemma DistinctKeysNoDuplicates(s: seq<Record>, pk: int)
    requires DistinctKeys(s, pk)
    ensures NoDuplicates(s)
  {
  }

  /** When the input keys are already distinct, deduplication only reorders
      the records. */
  lemma DedupPermutation(input: seq<Record>, output: seq<Record>, pk: int, sort: int)
    requires DistinctKeys(input, pk)
    requires Deduplicated(input, output, pk, sort)
    ensures multiset(output) == multiset(input)
  {
    forall x | x in output ensures x in input {
      var r :| 0 <= r < |output| && output[r] == x;
      var j :| IsBest(input, pk, sort, j) && input[j] == output[r];
    }
    forall x | x in input ensures x in output {
      var j :| 0 <= j < |input| && input[j] == x;
      assert x[pk] in KeySet(input, pk);
      var r :| 0 <= r < |output| && HasField(output[r], pk) && output[r][pk] == x[pk];
      var j' :| IsBest(input, pk, sort, j') && input[j'] == output[r];
      assert j == j';
    }
    DistinctKeysNoDuplicates(input, pk);
    DistinctKeysNoDuplicates(output, pk);
    SameElements(output, input);
  }

  /** Records with distinct keys never make Distinct fail. */
  lemma DistinctKeysNoFaults(s: seq<Record>, pk: int, sort: int)
    requires DistinctKeys(s, pk)
    ensures !Faults(s, pk, sort)
  {
    forall i, j | 0 <= i < |s| && 0 <= j < |s| && i != j
      ensures HasField(s[i], pk) && HasField(s[j], pk) && s[i][pk] != s[j][pk]
    {
      assert HasField(s[i], pk) && HasField(s[j], pk);
      if i > j {
        assert s[j][pk] != s[i][pk];
      }
    }
  }

  /** Deduplication is idempotent: a deduplicated table can be deduplicated
      again without failure, and that only reorders its records. */
  lemma DedupIdempotent(input: seq<Record>, o1: seq<Record>, o2: seq<Record>, pk: int, sort: int)
    requires Deduplicated(input, o1, pk, sort)
    ensures !Faults(o1, pk, sort)
    ensures Deduplicated(o1, o2, pk, sort) ==> multiset(o2) == multiset(o1)
  {
    DistinctKeysNoFaults(o1, pk, sort);
    if Deduplicated(o1, o2, pk, sort) {
      DedupPermutation(o1, o2, pk, sort);
    }
  }
}
