/** One line of comma-separated values whose every field is wrapped in double
    quotes, with no escaping of quotes inside a field: the row shape the
    export writes. `ParseRow` reads such a line back field by field. */
module CsvRow {
  import opened Seqs

  function Quote(field: string): string {
    "\"" + field + "\""
  }

  /** The quoted fields separated by commas. */
  function RenderRow(fields: seq<string>): (s: string)
    ensures |fields| >= 1 ==> |s| >= 2 && s[0] == '"'
  {
    if |fields| == 0 then ""
    else if |fields| == 1 then Quote(fields[0])
    else Quote(fields[0]) + "," + RenderRow(fields[1..])
  }

  /** A character that is neither a quote nor a comma and appears in no field
      does not appear in the line. */
  lemma {:induction false} RenderRowAvoids(fields: seq<string>, c: char)
    requires c != '"' && c != ','
    requires forall k :: 0 <= k < |fields| ==> c !in fields[k]
    ensures c !in RenderRow(fields)
  {
    if |fields| > 1 {
      RenderRowAvoids(fields[1..], c);
    }
  }

  /** The position of the first `c` in `s`, or `|s|` when there is none. */
  function IndexOf(s: string, c: char): (i: nat)
    ensures i <= |s|
    ensures i < |s| ==> s[i] == c
    ensures forall j :: 0 <= j < i ==> s[j] != c
  {
    if |s| == 0 then 0
    else if s[0] == c then 0
    else 1 + IndexOf(s[1..], c)
  }

  /** Reads `"f1","f2",...,"fn"` (n >= 1) into its fields; a field ends at the
      first double quote after its opening one. */
  function ParseRow(s: string): Option<seq<string>>
    decreases |s|
  {
    if |s| < 2 || s[0] != '"' then None
    else
      var j := IndexOf(s[1..], '"');
      if j == |s| - 1 then None
      else
        var field, after := s[1..j + 1], s[j + 2..];
        if after == [] then Some([field])
        else if after[0] != ',' then None
        else match ParseRow(after[1..])
          case None => None
          case Some(rest) => Some([field] + rest)
  }

  lemma IndexOfAfter(a: string, b: string, c: char)
    requires c !in a
    ensures IndexOf(a + [c] + b, c) == |a|
  {
    var s := a + [c] + b;
    assert s[|a|] == c;
  }

  /** The closing quote of a field free of double quotes is the first quote
      after the opening one. */
  lemma QuotedPrefix(f: string, tail: string)
    requires '"' !in f
    ensures var s := Quote(f) + tail;
      |s| >= 2 && s[0] == '"' && IndexOf(s[1..], '"') == |f| &&
      s[1..|f| + 1] == f && s[|f| + 2..] == tail
  {
    var s := Quote(f) + tail;
    assert s[1..] == f + ['"'] + tail;
    IndexOfAfter(f, tail, '"');
  }

  /** A line that is one quoted field reads as that field. */
  lemma ParseLastField(f: string)
    requires '"' !in f
    ensures ParseRow(Quote(f)) == Some([f])
  {
    QuotedPrefix(f, "");
    assert Quote(f) + "" == Quote(f);
  }

  /** A quoted field, a comma and a readable rest read as the field followed
      by the rest's fields. */
  lemma ParseNextField(f: string, rest: string, fields: seq<string>)
    requires '"' !in f && ParseRow(rest) == Some(fields)
    ensures ParseRow(Quote(f) + "," + rest) == Some([f] + fields)
  {
    QuotedPrefix(f, "," + rest);
    assert Quote(f) + "," + rest == Quote(f) + ("," + rest);
    assert ("," + rest)[1..] == rest;
  }

  /** Rendering then parsing gives back the fields, provided none of them
      contains a double quote. */
  lemma {:induction false} ParseRenderRow(fields: seq<string>)
    requires |fields| >= 1
    requires forall k :: 0 <= k < |fields| ==> '"' !in fields[k]
    ensures ParseRow(RenderRow(fields)) == Some(fields)
  {
    var f := fields[0];
    if |fields| == 1 {
      ParseLastField(f);
      assert fields == [f];
    } else {
      ParseRenderRow(fields[1..]);
      ParseNextField(f, RenderRow(fields[1..]), fields[1..]);
      assert [f] + fields[1..] == fields;
    }
  }
}
