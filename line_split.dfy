/** Splitting a line into fields on a one-character separator, as Go's
    strings.Split does for a non-empty separator, and the inverse join. No
    quoting or escaping: a separator inside a field splits that field. */
module LineSplit {

  /** The number of occurrences of c in s. */
  function Occurrences(s: string, c: char): (n: nat)
    ensures n <= |s|
    ensures n == 0 <==> c !in s
  {
    multiset(s)[c]
  }

  /** The pieces of s between separators, in order. An empty line gives one
      empty field; a line without the separator gives itself. */
  function Split(s: string, sep: char): (fields: seq<string>)
    ensures |fields| == Occurrences(s, sep) + 1
    ensures forall i :: 0 <= i < |fields| ==> sep !in fields[i]
    decreases |s|
  {
    if s == [] then [[]]
    else
      var rest := Split(s[1..], sep);
      assert s == [s[0]] + s[1..];
      if s[0] == sep then [[]] + rest
      else [[s[0]] + rest[0]] + rest[1..]
  }

  /** The fields written out with the separator between them. */
  function Join(fields: seq<string>, sep: char): (s: string)
    requires |fields| >= 1
    decreases |fields|
  {
    if |fields| == 1 then fields[0] else fields[0] + [sep] + Join(fields[1..], sep)
  }

  /** Split, one character at a time: a separator starts a new field, any
      other character is prefixed to the first field. */
  lemma SplitCons(c: char, t: string, sep: char)
    ensures Split([c] + t, sep) ==
      if c == sep then [[]] + Split(t, sep)
      else [[c] + Split(t, sep)[0]] + Split(t, sep)[1..]
  {
    assert ([c] + t)[1..] == t;
  }

  /** Prefixing a character to the first field prefixes it to the joined
      line. */
  lemma JoinCons(c: char, fields: seq<string>, sep: char)
    requires |fields| >= 1
    ensures Join([[c] + fields[0]] + fields[1..], sep) == [c] + Join(fields, sep)
  {
    var g := [[c] + fields[0]] + fields[1..];
    if |fields| > 1 {
      assert g[1..] == fields[1..];
    }
  }

  /** Joining the fields of a line gives the line back. */
  lemma {:induction false} JoinSplit(s: string, sep: char)
    ensures Join(Split(s, sep), sep) == s
    decreases |s|
  {
    if s != [] {
      var c, t := s[0], s[1..];
      assert s == [c] + t;
      JoinSplit(t, sep);
      SplitCons(c, t, sep);
      var rest := Split(t, sep);
      if c != sep {
        JoinCons(c, rest, sep);
      } else {
        var fields := [[]] + rest;
        assert fields[0] == [] && fields[1..] == rest;
        assert Join(fields, sep) == [] + [sep] + Join(rest, sep);
      }
    }
  }

  /** A field free of the separator, followed by the separator, splits off
      as one field. */
  lemma {:induction false} SplitField(f: string, sep: char, tail: string)
    requires sep !in f
    ensures Split(f + [sep] + tail, sep) == [f] + Split(tail, sep)
    decreases |f|
  {
    if f == [] {
      assert f + [sep] + tail == [sep] + tail;
      SplitCons(sep, tail, sep);
    } else {
      var t := f[1..] + [sep] + tail;
      assert f + [sep] + tail == [f[0]] + t;
      SplitCons(f[0], t, sep);
      SplitField(f[1..], sep, tail);
      assert [f[0]] + f[1..] == f;
    }
  }

  /** A line without the separator is a single field. */
  lemma {:induction false} SplitPlain(f: string, sep: char)
    requires sep !in f
    ensures Split(f, sep) == [f]
    decreases |f|
  {
    if f != [] {
      SplitPlain(f[1..], sep);
      assert [f[0]] + f[1..] == f;
    }
  }

  /** Splitting a joined row recovers the row, provided no field contains the
      separator. */
  lemma {:induction false} SplitJoin(fields: seq<string>, sep: char)
    requires |fields| >= 1
    requires forall i :: 0 <= i < |fields| ==> sep !in fields[i]
    ensures Split(Join(fields, sep), sep) == fields
    decreases |fields|
  {
    if |fields| == 1 {
      SplitPlain(fields[0], sep);
    } else {
      SplitJoin(fields[1..], sep);
      SplitField(fields[0], sep, Join(fields[1..], sep));
      assert [fields[0]] + fields[1..] == fields;
    }
  }
}
