/** The situations exercised by csv/csv_test.go and a few more, stated as
    facts about the model. */
module Scenarios {
  import opened StringOrder
  import opened Dedup
  import opened LineSplit
  import opened CsvTable

  const TestHeader: seq<string> := ["col1", "col2", "col3"]
  const Row01: Record := ["01", "val01", "001"]
  const Row02a: Record := ["02", "val01", "001"]
  const Row02b: Record := ["02", "val03", "001"]
  const TestRecords: seq<Record> := [Row01, Row02a, Row02b]

  /** The lookups of the index tests. */
  lemma IndexExamples()
    ensures IndexOf(["Col1", "Col2", "Col3"], "Col3") == 2
    ensures IndexOf(["Col1", "Col2", "Col3"], "Col2") == 1
    ensures IndexOf(["Col1", "Col2", "Col3"], "Col0") == -1
    ensures IndexOf(["Col1", "Col2", "Col3"], "Col1") == 0
    ensures IndexOf(["Col1", "Col2", "Col3"], "Col4") == -1
  {
  }

  /** The sort-key lookups of the index tests, run on a table: a present
      column is found, a missing one is -1, and with sorting disabled the
      answer is -1 even though Sort names a column. */
  method SortKeyExamples() returns (s01: int, s02: int, s11: int, s12: int)
    ensures s01 == 0 && s02 == 1 && s11 == -1 && s12 == -1
  {
    var c := new Csv();
    c.Header := ["Col1", "Col2", "Col3"];
    c.HasSort := true;
    c.Sort := "Col1";
    s01 := c.SortKeyIndex();
    c.Sort := "Col2";
    s02 := c.SortKeyIndex();
    c.Sort := "Col4";
    s11 := c.SortKeyIndex();
    c.HasSort := false;
    c.Sort := "Col2";
    s12 := c.SortKeyIndex();
    IndexExamples();
  }

  /** An empty name is looked up like any other: it matches an empty header
      cell, so the lookup does not report "not found" for it. */
  lemma EmptyNameMatchesEmptyCell()
    ensures IndexOf(["a", ""], "") == 1
  {
    assert IndexOf([""], "") == 0;
  }

  /** The fold of Distinct over the test records with key col1 and sort
      col2: "val03" sorts after "val01", so the second "02" record replaces
      the first. */
  lemma ReduceBySecondColumn()
    ensures Reduce(TestRecords, 0, 1) == Some(map["01" := Row01, "02" := Row02b])
  {
    var m1 := map["01" := Row01];
    var m2 := map["01" := Row01, "02" := Row02a];
    assert TestRecords[..0] == [];
    ReduceStep(TestRecords, 0, 0, 1, map[]);
    assert Insert(map[], Row01, 0, 1) == Some(m1);
    ReduceStep(TestRecords, 1, 0, 1, m1);
    assert Insert(m1, Row02a, 0, 1) == Some(m2);
    ReduceStep(TestRecords, 2, 0, 1, m2);
    assert Compare("val03", "val01") == 1;
    assert Insert(m2, Row02b, 0, 1) == Some(m2["02" := Row02b]);
    assert m2["02" := Row02b] == map["01" := Row01, "02" := Row02b];
    assert TestRecords[..3] == TestRecords;
  }

  /** Sorting on col2: Distinct succeeds, and for key "02" the later record
      wins, because "val03" sorts strictly after "val01"; any correct result
      is the "01" row and that record. */
  lemma DistinctBySecondColumn(output: seq<Record>)
    requires Deduplicated(TestRecords, output, IndexOf(TestHeader, "col1"), IndexOf(TestHeader, "col2"))
    ensures !Faults(TestRecords, IndexOf(TestHeader, "col1"), IndexOf(TestHeader, "col2"))
    ensures multiset(output) == multiset{Row01, Row02b}
  {
    assert IndexOf(TestHeader, "col1") == 0;
    assert IndexOf(TestHeader, "col2") == 1;
    ReduceBySecondColumn();
    ReduceFails(TestRecords, 0, 1);
    var m := map["01" := Row01, "02" := Row02b];
    var expected := [Row01, Row02b];
    ListingDeduplicates(TestRecords, 0, 1, m, expected, ["01", "02"]);
    DedupDeterminate(TestRecords, output, expected, 0, 1);
  }

  /** The fold over the test records with key col1 and sort col3: both "02"
      records have sort field "001", so the first one stays. */
  lemma ReduceByThirdColumn()
    ensures Reduce(TestRecords, 0, 2) == Some(map["01" := Row01, "02" := Row02a])
  {
    var m1 := map["01" := Row01];
    var m2 := map["01" := Row01, "02" := Row02a];
    assert TestRecords[..0] == [];
    ReduceStep(TestRecords, 0, 0, 2, map[]);
    assert Insert(map[], Row01, 0, 2) == Some(m1);
    ReduceStep(TestRecords, 1, 0, 2, m1);
    assert Insert(m1, Row02a, 0, 2) == Some(m2);
    ReduceStep(TestRecords, 2, 0, 2, m2);
    assert Compare("001", "001") == 0;
    assert Insert(m2, Row02b, 0, 2) == Some(m2);
    assert TestRecords[..3] == TestRecords;
  }

  /** Sorting on col3: both "02" records have sort field "001", so the
      earlier one is kept. */
  lemma DistinctByThirdColumn(output: seq<Record>)
    requires Deduplicated(TestRecords, output, IndexOf(TestHeader, "col1"), IndexOf(TestHeader, "col3"))
    ensures multiset(output) == multiset{Row01, Row02a}
  {
    assert IndexOf(TestHeader, "col1") == 0;
    assert IndexOf(TestHeader, "col3") == 2;
    ReduceByThirdColumn();
    var m := map["01" := Row01, "02" := Row02a];
    var expected := [Row01, Row02a];
    ListingDeduplicates(TestRecords, 0, 2, m, expected, ["01", "02"]);
    DedupDeterminate(TestRecords, output, expected, 0, 2);
  }

  /** A unique-key name missing from the header makes Distinct fail on any
      non-empty table. */
  lemma MissingUniqueColumnFails(header: seq<string>, name: string, records: seq<Record>, sort: int)
    requires name !in header && records != []
    ensures Faults(records, IndexOf(header, name), sort)
  {
    assert !HasField(records[0], IndexOf(header, name));
  }

  /** With sorting disabled the sort column is -1, so the first collision of
      keys makes Distinct fail, while a table without collisions is fine. */
  lemma UnsortedCollisionFails()
    ensures Faults(TestRecords, IndexOf(TestHeader, "col1"), -1)
    ensures !Faults([Row01, Row02a], IndexOf(TestHeader, "col1"), -1)
  {
    assert IndexOf(TestHeader, "col1") == 0;
    assert TestRecords[1][0] == TestRecords[2][0] && !HasField(TestRecords[1], -1);
    DistinctKeysNoFaults([Row01, Row02a], 0, -1);
  }

  /** A line of three comma-free fields splits back into those fields. */
  lemma SplitThree(line: string, a: string, b: string, c: string)
    requires CommaChar !in a && CommaChar !in b && CommaChar !in c
    requires line == a + Comma + b + Comma + c
    ensures Split(line, CommaChar) == [a, b, c]
  {
    var fields := [a, b, c];
    assert fields[1..] == [b, c] && [b, c][1..] == [c];
    assert Join([b, c], CommaChar) == b + [CommaChar] + c;
    assert Join(fields, CommaChar) == a + [CommaChar] + (b + [CommaChar] + c);
    assert line == a + [CommaChar] + (b + [CommaChar] + c);
    SplitJoin(fields, CommaChar);
  }

  /** The header line of the CsvRead test. */
  lemma HeaderLineSplits()
    ensures Split("col1,col2,col3", CommaChar) == ["col1", "col2", "col3"]
  {
    var a, b, c := "col1", "col2", "col3";
    assert CommaChar !in a && CommaChar !in b && CommaChar !in c;
    assert "col1,col2,col3" == a + Comma + b + Comma + c;
    SplitThree("col1,col2,col3", a, b, c);
  }

  /** The first record line of the CsvRead test: Split does no unquoting,
      so the double quotes of a field stay inside it. */
  lemma QuotesStayInFields()
    ensures Split("\"001\",\"col2val1\",\"col3val\"", CommaChar) == ["\"001\"", "\"col2val1\"", "\"col3val\""]
  {
    var a, b, c := "\"001\"", "\"col2val1\"", "\"col3val\"";
    assert CommaChar !in a && CommaChar !in b && CommaChar !in c;
    assert "\"001\",\"col2val1\",\"col3val\"" == a + Comma + b + Comma + c;
    SplitThree("\"001\",\"col2val1\",\"col3val\"", a, b, c);
  }

  /** collect on the two-entry map of its test gives both records, in some
      order. */
  method CollectExample() returns (out: seq<Record>)
    ensures multiset(out) == multiset{["01", "colValue"], ["02", "colValue2"]}
  {
    var m := map["01" := ["01", "colValue"], "02" := ["02", "colValue2"]];
    assert m.Keys == {"01", "02"};
    ghost var keys;
    out, keys := Collect(m);
    assert |keys| == 2;
    assert out == [m[keys[0]], m[keys[1]]];
    if keys[0] == "01" {
      assert keys[1] == "02";
    } else {
      assert keys == ["02", "01"];
    }
  }
}
