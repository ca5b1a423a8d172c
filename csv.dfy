/** The in-memory table of csv/csv.go: a header, its records and the key
    configuration, with the unique-key and sort-key lookups, the
    deduplication Distinct and the line-to-table step of CsvRead. */
module CsvTable {
  import opened StringOrder
  import opened LineSplit
  import opened Dedup

  /** The one-character separator fields are split on. */
  const CommaChar: char := ','
  const Comma: string := [CommaChar]

  /** The outcome of Distinct. The Go method returns nil in every case where
      it returns at all, and panics on an out-of-range field access. */
  datatype Status = Success | IndexOutOfRange

  /** r is the first position of name in header, or -1 when name does not
      occur there. */
  predicate IsFirstIndex(header: seq<string>, name: string, r: int) {
    if name in header then 0 <= r < |header| && header[r] == name && name !in header[..r]
    else r == -1
  }

  /** The column of header called name: the specification of the two lookup
      methods. */
  function IndexOf(header: seq<string>, name: string): (r: int)
    ensures IsFirstIndex(header, name, r)
    decreases |header|
  {
    if header == [] then -1
    else if header[0] == name then 0
    else
      var t := IndexOf(header[1..], name);
      assert header == [header[0]] + header[1..];
      if t == -1 then -1
      else
        assert header[..t + 1] == [header[0]] + header[1..][..t];
        t + 1
  }

  /** A lookup result is determined by its specification. */
  lemma FirstIndexUnique(header: seq<string>, name: string, r: int, r': int)
    requires IsFirstIndex(header, name, r) && IsFirstIndex(header, name, r')
    ensures r == r'
  {
  }

  class Csv {
    var Delimiter: string
    var Unique: string
    var HasSort: bool
    var Sort: string
    /** Stored, but read by no operation. */
    var IsAccending: bool
    var Header: seq<string>
    var Records: seq<Record>

    /** InitCsv: a comma-delimited table with an empty header, no records
        and every other setting at its zero value. */
    constructor ()
      ensures Delimiter == Comma && Header == [] && Records == []
      ensures Unique == "" && !HasSort && Sort == "" && !IsAccending
    {
      Delimiter := Comma;
      Unique := "";
      HasSort := false;
      Sort := "";
      IsAccending := false;
      Header := [];
      Records := [];
    }

    /** The column Distinct reads the unique key from. */
    ghost function UniqueKey(): (pk: int)
      reads this
    {
      IndexOf(Header, Unique)
    }

    /** The column Distinct compares: none unless sorting is enabled. */
    ghost function SortKey(): (sort: int)
      reads this
    {
      if HasSort then IndexOf(Header, Sort) else -1
    }

    /** The first column named Unique, or -1; HasSort plays no part. */
    method UniqueKeyIndex() returns (result: int)
      ensures IsFirstIndex(Header, Unique, result)
    {
      result := -1;
      var idx := 0;
      while idx < |Header|
        invariant 0 <= idx <= |Header|
        invariant result == -1 && Unique !in Header[..idx]
      {
        if Header[idx] == Unique {
          result := idx;
          break;
        }
        idx := idx + 1;
        assert Header[..idx] == Header[..idx - 1] + [Header[idx - 1]];
      }
      assert result == -1 ==> Header[..idx] == Header;
    }

    /** -1 whenever sorting is disabled, even if Sort names a column;
        otherwise the first column named Sort, or -1. */
    method SortKeyIndex() returns (result: int)
      ensures !HasSort ==> result == -1
      ensures HasSort ==> IsFirstIndex(Header, Sort, result)
    {
      result := -1;
      if !HasSort {
        return -1;
      }
      var idx := 0;
      while idx < |Header|
        invariant 0 <= idx <= |Header|
        invariant result == -1 && Sort !in Header[..idx]
      {
        if Header[idx] == Sort {
          result := idx;
          break;
        }
        idx := idx + 1;
        assert Header[..idx] == Header[..idx - 1] + [Header[idx - 1]];
      }
      assert result == -1 ==> Header[..idx] == Header;
    }

    /** Reduce Records to one record per unique-key value, keeping for each
        key the earliest of the records with the greatest sort field. Fails,
        leaving Records as they were, exactly when Go would panic on an
        out-of-range field. Only Records changes. */
    method Distinct() returns (status: Status)
      modifies this`Records
      ensures Header == old(Header) && Delimiter == old(Delimiter) && Unique == old(Unique)
      ensures HasSort == old(HasSort) && Sort == old(Sort) && IsAccending == old(IsAccending)
      ensures status == Success <==> !Faults(old(Records), UniqueKey(), SortKey())
      ensures status != Success ==> Records == old(Records)
      ensures status == Success ==> Deduplicated(old(Records), Records, UniqueKey(), SortKey())
    {
      var pk := UniqueKeyIndex();
      var sort := SortKeyIndex();
      FirstIndexUnique(Header, Unique, pk, UniqueKey());
      if HasSort {
        FirstIndexUnique(Header, Sort, sort, SortKey());
      }
      var ok, result := DistinctRecords(Records, pk, sort);
      if !ok {
        return IndexOutOfRange;
      }
      Records := result;
      return Success;
    }
  }

  /** The loop of Distinct and its final collect, over the records and the
      two column indices: fails exactly on the inputs on which Go panics,
      and otherwise returns a correct deduplication. */
  method DistinctRecords(records: seq<Record>, pk: int, sort: int) returns (ok: bool, result: seq<Record>)
    ensures ok <==> !Faults(records, pk, sort)
    ensures ok ==> Deduplicated(records, result, pk, sort)
  {
    result := [];
    var m: map<string, Record> := map[];
    var i := 0;
    while i < |records|
      invariant 0 <= i <= |records|
      invariant Reduce(records[..i], pk, sort) == Some(m)
    {
      var newRecord := records[i];
      ghost var m0 := m;
      ReduceStep(records, i, pk, sort, m);
      if !(0 <= pk < |newRecord|) {
        StepFails(records, i, pk, sort, m);
        return false, [];
      }
      var name := newRecord[pk];
      if name !in m {
        m := m[name := newRecord];
        assert Insert(m0, newRecord, pk, sort) == Some(m);
      } else {
        if !(0 <= sort < |newRecord|) || !(0 <= sort < |m[name]|) {
          StepFails(records, i, pk, sort, m);
          return false, [];
        }
        if Compare(newRecord[sort], m[name][sort]) == 1 {
          m := m[name := newRecord];
        }
        assert Insert(m0, newRecord, pk, sort) == Some(m);
      }
      i := i + 1;
    }
    assert records[..i] == records;
    ReduceFails(records, pk, sort);

    ghost var keys;
    result, keys := Collect(m);
    ListingDeduplicates(records, pk, sort, m, result, keys);
    ok := true;
  }

  /** collect: the values of m, one element per entry, in no particular
      order (Go leaves map iteration order unspecified). */
  method Collect(m: map<string, Record>) returns (result: seq<Record>, ghost keys: seq<string>)
    ensures |result| == |m|
    ensures IsListing(m, result, keys)
  {
    result := [];
    keys := [];
    var rest := m.Keys;
    while rest != {}
      invariant rest <= m.Keys
      invariant |keys| == |result| && |keys| + |rest| == |m|
      invariant forall i :: 0 <= i < |keys| ==> keys[i] in m && keys[i] !in rest && result[i] == m[keys[i]]
      invariant forall i, j :: 0 <= i < j < |keys| ==> keys[i] != keys[j]
      invariant forall k :: k in m ==> k in rest || k in keys
      decreases rest
    {
      var k :| k in rest;
      result := result + [m[k]];
      keys := keys + [k];
      rest := rest - {k};
    }
  }

  /** The table-building part of CsvRead, over the lines already read: the
      first line, split on the comma, is the header; every later line, split
      on the comma, is a record, in order. The Delimiter setting is not
      consulted. */
  method CsvRead(lines: seq<string>) returns (cf: Csv)
    ensures fresh(cf)
    ensures cf.Delimiter == Comma && cf.Unique == "" && !cf.HasSort && cf.Sort == "" && !cf.IsAccending
    ensures cf.Header == if lines == [] then [] else Split(lines[0], CommaChar)
    ensures |cf.Records| == if lines == [] then 0 else |lines| - 1
    ensures forall i :: 0 <= i < |cf.Records| ==> cf.Records[i] == Split(lines[i + 1], CommaChar)
  {
    cf := new Csv();
    var isHeader := true;
    var i := 0;
    while i < |lines|
      invariant 0 <= i <= |lines|
      invariant isHeader <==> i == 0
      invariant cf.Delimiter == Comma && cf.Unique == "" && !cf.HasSort && cf.Sort == "" && !cf.IsAccending
      invariant cf.Header == if i == 0 then [] else Split(lines[0], CommaChar)
      invariant |cf.Records| == if i == 0 then 0 else i - 1
      invariant forall j :: 0 <= j < |cf.Records| ==> cf.Records[j] == Split(lines[j + 1], CommaChar)
    {
      var text := lines[i];
      if isHeader {
        isHeader := false;
        cf.Header := cf.Header + Split(text, CommaChar);
      } else {
        cf.Records := cf.Records + [Split(text, CommaChar)];
      }
      i := i + 1;
    }
  }
}
