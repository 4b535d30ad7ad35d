/**
 * The quote-aware line splitter `parseCSVLine` (script.js:193-211).
 *
 * A double quote flips the in-quotes flag and is dropped; a comma outside
 * quotes ends the current field; every other character is kept. Each field
 * is trimmed when it is pushed, and the last field is pushed at the end of
 * the line. There is no escaping of quotes and no multi-line field.
 */
module CsvLine {
  import opened Text

  /** The scanner's state after a prefix of the line: the fields already
      finished (not yet trimmed), the field being built, and the flag. */
  datatype Scan = Scan(done: seq<string>, current: string, inQuotes: bool)

  /** One character of the scan (script.js:199-207): finished fields are never
      changed, a field is finished exactly at a comma outside quotes, and
      exactly a double quote flips the flag. */
  function Step(st: Scan, c: char): (r: Scan)
    ensures r.done == st.done || (r.done == st.done + [st.current] && r.current == "")
    ensures |r.done| > |st.done| <==> c == ',' && !st.inQuotes
    ensures r.inQuotes != st.inQuotes <==> c == '"'
  {
    if c == '"' then st.(inQuotes := !st.inQuotes)
    else if c == ',' && !st.inQuotes then Scan(st.done + [st.current], "", st.inQuotes)
    else st.(current := st.current + [c])
  }

  /** The scanner's state after reading all of `s`, left to right: the flag
      is the parity of the quotes read, and one field is finished per
      unquoted comma. */
  function ScanOf(s: string): (r: Scan)
    ensures r.inQuotes <==> Count(s, '"') % 2 == 1
    ensures |r.done| == UnquotedCommas(s)
  {
    if s == [] then Scan([], "", false)
    else Step(ScanOf(s[..|s| - 1]), s[|s| - 1])
  }

  /** The untrimmed fields of a line: the finished ones and the final flush. */
  function RawFields(line: string): seq<string> {
    ScanOf(line).done + [ScanOf(line).current]
  }

  /** What `parseCSVLine(line)` returns: one trimmed field per unquoted comma
      plus one. */
  function ParseLine(line: string): (r: seq<string>)
    ensures |r| == 1 + UnquotedCommas(line)
    ensures forall k :: 0 <= k < |r| ==> IsTrimmed(r[k])
  {
    TrimAll(RawFields(line))
  }

  /** The number of commas in `s` that are preceded by an even number of
      double quotes, i.e. that stand outside a quoted stretch. */
  function UnquotedCommas(s: string): nat {
    if s == [] then 0
    else
      var p := s[..|s| - 1];
      UnquotedCommas(p) + (if s[|s| - 1] == ',' && Count(p, '"') % 2 == 0 then 1 else 0)
  }

  /** What the scan state means, independently of how it is computed: the flag
      is the parity of the quotes read, there is one finished field per
      unquoted comma, no field holds a quote, and joining the fields with
      commas gives the text read with its quotes removed. */
  lemma ScanMeaning(s: string)
    ensures ScanOf(s).inQuotes <==> Count(s, '"') % 2 == 1
    ensures |ScanOf(s).done| == UnquotedCommas(s)
    ensures forall k :: 0 <= k < |RawFields(s)| ==> '"' !in RawFields(s)[k]
    ensures Join(RawFields(s), ',') == Strip(s, '"')
  {
    ScanQuoteFree(s);
    ScanJoin(s);
  }

  /** No field holds a quote. */
  lemma {:induction false} ScanQuoteFree(s: string)
    ensures forall k :: 0 <= k < |RawFields(s)| ==> '"' !in RawFields(s)[k]
  {
    if s != [] {
      var p := s[..|s| - 1];
      var c := s[|s| - 1];
      var st := ScanOf(p);
      ScanQuoteFree(p);
      var fs := st.done + [st.current];
      assert RawFields(p) == fs;
      assert '"' !in fs[|fs| - 1];
      if c == '"' {
        assert RawFields(s) == fs;
      } else if c == ',' && !st.inQuotes {
        assert RawFields(s) == fs + [""];
      } else {
        assert RawFields(s) == fs[..|fs| - 1] + [st.current + [c]];
        assert '"' !in st.current + [c];
      }
    }
  }

  /** The fields joined with commas give the text read without its quotes. */
  lemma {:induction false} ScanJoin(s: string)
    ensures Join(RawFields(s), ',') == Strip(s, '"')
  {
    if s != [] {
      var p := s[..|s| - 1];
      var c := s[|s| - 1];
      var st := ScanOf(p);
      ScanJoin(p);
      var fs := st.done + [st.current];
      if c == '"' {
      } else if c == ',' && !st.inQuotes {
        assert RawFields(s) == fs + [""];
        JoinAppend(fs, ',', "");
      } else {
        assert RawFields(s) == fs[..|fs| - 1] + [fs[|fs| - 1] + [c]];
        JoinExtendLast(fs, ',', [c]);
      }
    }
  }

  /** The splitter's promise: one field per unquoted comma plus one, no field
      holds a double quote, every field is trimmed, and field `k` is the `k`-th
      untrimmed piece of a split whose pieces, joined with commas, give back the
      line with its quotes removed. */
  lemma ParseLineShape(line: string)
    ensures |ParseLine(line)| == 1 + UnquotedCommas(line)
    ensures forall k :: 0 <= k < |ParseLine(line)| ==>
      '"' !in ParseLine(line)[k] && IsTrimmed(ParseLine(line)[k])
    ensures forall k :: 0 <= k < |ParseLine(line)| ==> ParseLine(line)[k] == Trim(RawFields(line)[k])
    ensures Join(RawFields(line), ',') == Strip(line, '"')
  {
    ScanMeaning(line);
  }

  /** A comma with an even number of double quotes before it splits the line
      there: the fields of the line are those of the text before the comma
      followed by those of the text after it. */
  lemma CommaOutsideQuotes(a: string, b: string)
    requires Count(a, '"') % 2 == 0
    ensures RawFields(a + [','] + b) == RawFields(a) + RawFields(b)
  {
    var x := a + [','];
    assert x[..|x| - 1] == a;
    assert ScanOf(x) == Scan(RawFields(a), "", false);
    ScanFrom(x, b, RawFields(a));
    assert a + [','] + b == x + b;
  }

  /** A comma with an odd number of double quotes before it stays in the field
      being read, and no field is finished. */
  lemma CommaInsideQuotes(a: string)
    requires Count(a, '"') % 2 == 1
    ensures var fs := RawFields(a);
      RawFields(a + [',']) == fs[..|fs| - 1] + [fs[|fs| - 1] + [',']]
    ensures ScanOf(a + [',']).inQuotes
  {
    var x := a + [','];
    assert x[..|x| - 1] == a;
    var fs := RawFields(a);
    assert fs[..|fs| - 1] == ScanOf(a).done;
  }

  /** Reading `y` after a prefix that has just finished a field continues as a
      fresh scan of `y`, behind the fields finished so far. */
  lemma {:induction false} ScanFrom(x: string, y: string, fields: seq<string>)
    requires ScanOf(x) == Scan(fields, "", false)
    ensures ScanOf(x + y) == Scan(fields + ScanOf(y).done, ScanOf(y).current, ScanOf(y).inQuotes)
  {
    if y == [] {
      assert x + y == x;
    } else {
      var q := y[..|y| - 1];
      var c := y[|y| - 1];
      ScanFrom(x, q, fields);
      var s := x + y;
      assert s[..|s| - 1] == x + q && s[|s| - 1] == c;
      StepShift(fields, ScanOf(q), c);
    }
  }

  /** After an opening double quote, everything up to the next one is read
      into the current field, commas included. */
  lemma {:induction false} QuotedStretch(a: string)
    requires '"' !in a
    ensures ScanOf(['"'] + a) == Scan([], a, true)
  {
    if a == [] {
      ScanSnoc([], '"');
    } else {
      var q := a[..|a| - 1];
      var c := a[|a| - 1];
      assert a == q + [c];
      QuotedStretch(q);
      assert ['"'] + a == (['"'] + q) + [c];
      ScanSnoc(['"'] + q, c);
    }
  }

  /** The scan of a string with one more character. */
  lemma ScanSnoc(s: string, c: char)
    ensures ScanOf(s + [c]) == Step(ScanOf(s), c)
  {
    var t := s + [c];
    assert t[..|t| - 1] == s;
  }

  /** A step does not look at the fields finished before it. */
  lemma StepShift(fields: seq<string>, st: Scan, c: char)
    ensures var t := Step(st, c);
      Step(Scan(fields + st.done, st.current, st.inQuotes), c) == Scan(fields + t.done, t.current, t.inQuotes)
  {
    if c == ',' && !st.inQuotes {
      assert fields + st.done + [st.current] == fields + (st.done + [st.current]);
    }
  }

  /** On a line without double quotes the splitter is a plain split on commas,
      which is what the header row gets (script.js:137). */
  lemma {:induction false} QuoteFreeIsSplit(s: string)
    requires '"' !in s
    ensures !ScanOf(s).inQuotes
    ensures RawFields(s) == Split(s, ',')
  {
    if s != [] {
      var p := s[..|s| - 1];
      assert s == p + [s[|s| - 1]];
      QuoteFreeIsSplit(p);
    }
  }

  /** `parseCSVLine` (script.js:193-211), with its loop. */
  method ParseCsvLine(line: string) returns (result: seq<string>)
    ensures result == ParseLine(line)
    ensures |result| == 1 + UnquotedCommas(line)
    ensures forall k :: 0 <= k < |result| ==> '"' !in result[k] && IsTrimmed(result[k])
  {
    result := [];
    var current := "";
    var inQuotes := false;
    for i := 0 to |line|
      invariant result == TrimAll(ScanOf(line[..i]).done)
      invariant current == ScanOf(line[..i]).current
      invariant inQuotes == ScanOf(line[..i]).inQuotes
    {
      var c := line[i];
      ghost var st := ScanOf(line[..i]);
      assert line[..i + 1][..i] == line[..i];
      assert ScanOf(line[..i + 1]) == Step(st, c);
      if c == '"' {
        inQuotes := !inQuotes;
      } else if c == ',' && !inQuotes {
        TrimAllAppend(st.done, current);
        result := result + [Trim(current)];
        current := "";
      } else {
        current := current + [c];
      }
    }
    assert line[..|line|] == line;
    TrimAllAppend(ScanOf(line).done, current);
    result := result + [Trim(current)];
    ParseLineShape(line);
  }
}
