/** The CSV line splitter (`splitCSVLine`): a left-to-right scan that keeps
    the field being built, a quote-mode flag and the fields finished so far.
    A `"` toggles quote mode, except that inside quote mode `""` stands for one
    literal quote; a `,` outside quote mode ends the field; every other
    character is field content. This follows the quoting rules of section 2 of
    RFC 4180 (rules 5 to 7) with two leniencies: a quote in the middle of an
    unquoted field also toggles quote mode, and a field never holds a line break
    because the document is cut into lines before any line is split. */
module CsvLine {
  import opened Text

  /** The fields of the rest `s` of a line, scanned from quote mode
      `inQuotes`. The first field returned is the continuation of the field
      being built when the scan reaches `s`. */
  function Scan(s: string, inQuotes: bool): (fields: seq<string>)
    ensures |fields| >= 1
    decreases |s|
  {
    if s == [] then [""]
    else if s[0] == '"' then
      if inQuotes && |s| > 1 && s[1] == '"' then Extend("\"", Scan(s[2..], true))
      else Scan(s[1..], !inQuotes)
    else if s[0] == ',' && !inQuotes then [""] + Scan(s[1..], false)
    else Extend([s[0]], Scan(s[1..], inQuotes))
  }

  /** The fields of a whole line: the scan starts outside quote mode. */
  function Fields(line: string): (r: seq<string>)
    ensures |r| == UnquotedCommas(line, false) + 1
  {
    FieldCount(line, false);
    Scan(line, false)
  }

  /** The splitter as the source runs it: one pass with the field being built
      (`cur`), the quote-mode flag and the output list. */
  method SplitCSVLine(line: string) returns (out: seq<string>)
    ensures out == Fields(line)
    ensures |out| >= 1
  {
    out := [];
    var cur := "";
    var inQuotes := false;
    var i := 0;
    ExtendEmpty(Fields(line));
    while i < |line|
      invariant 0 <= i <= |line|
      invariant out + Extend(cur, Scan(line[i..], inQuotes)) == Fields(line)
    {
      var c := line[i];
      if c == '"' {
        if inQuotes && i + 1 < |line| && line[i + 1] == '"' {
          EscapedQuoteStep(line, i, cur);
          cur := cur + "\"";
          i := i + 2;
        } else {
          ToggleStep(line, i, inQuotes);
          inQuotes := !inQuotes;
          i := i + 1;
        }
      } else if c == ',' && !inQuotes {
        SeparatorStep(line, i, out, cur);
        out := out + [cur];
        cur := "";
        i := i + 1;
      } else {
        ContentStep(line, i, cur, inQuotes);
        cur := cur + [c];
        i := i + 1;
      }
    }
    assert line[i..] == [];
    assert cur + "" == cur;
    out := out + [cur];
  }

  /** `""` inside quote mode adds one quote to the field being built. */
  lemma EscapedQuoteStep(line: string, i: nat, cur: string)
    requires i + 1 < |line| && line[i] == '"' && line[i + 1] == '"'
    ensures Extend(cur, Scan(line[i..], true)) == Extend(cur + "\"", Scan(line[i + 2..], true))
  {
    var rest := line[i..];
    assert rest[0] == '"' && rest[1] == '"' && rest[2..] == line[i + 2..];
    ExtendExtend(cur, "\"", Scan(line[i + 2..], true));
  }

  /** Any other quote toggles quote mode and adds nothing. */
  lemma ToggleStep(line: string, i: nat, inQuotes: bool)
    requires i < |line| && line[i] == '"'
    requires !(inQuotes && i + 1 < |line| && line[i + 1] == '"')
    ensures Scan(line[i..], inQuotes) == Scan(line[i + 1..], !inQuotes)
  {
    var rest := line[i..];
    assert |rest| > 1 ==> rest[1] == line[i + 1];
    assert rest[1..] == line[i + 1..];
  }

  /** A comma outside quote mode ends the field being built. */
  lemma SeparatorStep(line: string, i: nat, out: seq<string>, cur: string)
    requires i < |line| && line[i] == ','
    ensures out + Extend(cur, Scan(line[i..], false))
         == (out + [cur]) + Extend("", Scan(line[i + 1..], false))
  {
    var rest := line[i..];
    assert rest[0] == ',' && rest[1..] == line[i + 1..];
    var tail := Scan(line[i + 1..], false);
    assert cur + "" == cur;
    assert Extend(cur, [""] + tail) == [cur] + tail;
    assert out + ([cur] + tail) == (out + [cur]) + tail;
    ExtendEmpty(tail);
  }

  /** Any other character is appended to the field being built. */
  lemma ContentStep(line: string, i: nat, cur: string, inQuotes: bool)
    requires i < |line| && line[i] != '"' && !(line[i] == ',' && !inQuotes)
    ensures Extend(cur, Scan(line[i..], inQuotes)) == Extend(cur + [line[i]], Scan(line[i + 1..], inQuotes))
  {
    var rest := line[i..];
    assert rest[0] == line[i] && rest[1..] == line[i + 1..];
    ExtendExtend(cur, [line[i]], Scan(line[i + 1..], inQuotes));
  }

  /** The commas the scan meets outside quote mode: the field separators. */
  function UnquotedCommas(s: string, inQuotes: bool): nat
    decreases |s|
  {
    if s == [] then 0
    else if s[0] == '"' then
      if inQuotes && |s| > 1 && s[1] == '"' then UnquotedCommas(s[2..], true)
      else UnquotedCommas(s[1..], !inQuotes)
    else if s[0] == ',' && !inQuotes then 1 + UnquotedCommas(s[1..], false)
    else UnquotedCommas(s[1..], inQuotes)
  }

  /** A line has exactly one field more than it has separating commas. */
  lemma {:induction false} FieldCount(s: string, inQuotes: bool)
    ensures |Scan(s, inQuotes)| == UnquotedCommas(s, inQuotes) + 1
    decreases |s|
  {
    if s == [] {
    } else if s[0] == '"' {
      if inQuotes && |s| > 1 && s[1] == '"' {
        FieldCount(s[2..], true);
      } else {
        FieldCount(s[1..], !inQuotes);
      }
    } else {
      FieldCount(s[1..], if s[0] == ',' && !inQuotes then false else inQuotes);
    }
  }

  /** Without quotes the scan outside quote mode is a plain split on commas. */
  lemma {:induction false} ScanWithoutQuotes(s: string)
    requires '"' !in s
    ensures Scan(s, false) == SplitOn(s, ',')
  {
    if s != [] {
      ScanWithoutQuotes(s[1..]);
    }
  }

  /** A line with no `"` splits exactly as `line.split(',')` would: the
      fields join back into the line and none of them holds a comma. */
  lemma NoQuotesIsPlainSplit(line: string)
    requires '"' !in line
    ensures Fields(line) == SplitOn(line, ',')
    ensures Join(Fields(line), ',') == line
    ensures forall k :: 0 <= k < |Fields(line)| ==> ',' !in Fields(line)[k]
  {
    ScanWithoutQuotes(line);
    JoinSplit(line, ',');
    SplitNoSep(line, ',');
  }

  /** Every character of every field comes from the line. */
  lemma {:induction false} FieldCharsFromLine(s: string, inQuotes: bool)
    ensures forall k, c :: 0 <= k < |Scan(s, inQuotes)| && c in Scan(s, inQuotes)[k] ==> c in s
    decreases |s|
  {
    if s == [] {
    } else if s[0] == '"' {
      if inQuotes && |s| > 1 && s[1] == '"' {
        FieldCharsFromLine(s[2..], true);
        assert forall c :: c in s[2..] ==> c in s;
      } else {
        FieldCharsFromLine(s[1..], !inQuotes);
        assert forall c :: c in s[1..] ==> c in s;
      }
    } else {
      FieldCharsFromLine(s[1..], if s[0] == ',' && !inQuotes then false else inQuotes);
      assert forall c :: c in s[1..] ==> c in s;
    }
  }

  /** The field text with every `"` doubled. */
  function Escape(f: string): string {
    if f == [] then ""
    else if f[0] == '"' then "\"\"" + Escape(f[1..])
    else [f[0]] + Escape(f[1..])
  }

  /** A field written in quoted form (rule 7 of section 2 of RFC 4180). */
  function Quote(f: string): string {
    "\"" + Escape(f) + "\""
  }

  /** A record written with every field quoted, separated by commas. */
  function EncodeRecord(fields: seq<string>): string {
    if |fields| == 0 then ""
    else if |fields| == 1 then Quote(fields[0])
    else Quote(fields[0]) + "," + EncodeRecord(fields[1..])
  }

  /** Inside quote mode, an escaped field up to its closing quote contributes
      exactly the field's text, and the scan resumes outside quote mode. */
  lemma {:induction false} ScanEscaped(f: string, rest: string)
    requires rest == [] || rest[0] == ','
    ensures Scan(Escape(f) + "\"" + rest, true) == Extend(f, Scan(rest, false))
  {
    var s := Escape(f) + "\"" + rest;
    if f == [] {
      assert s == "\"" + rest;
      assert s[1..] == rest;
    } else if f[0] == '"' {
      assert s == "\"\"" + (Escape(f[1..]) + "\"" + rest);
      assert s[2..] == Escape(f[1..]) + "\"" + rest;
      ScanEscaped(f[1..], rest);
      ExtendExtend("\"", f[1..], Scan(rest, false));
      assert "\"" + f[1..] == f;
    } else {
      assert s == [f[0]] + (Escape(f[1..]) + "\"" + rest);
      assert s[1..] == Escape(f[1..]) + "\"" + rest;
      ScanEscaped(f[1..], rest);
      ExtendExtend([f[0]], f[1..], Scan(rest, false));
      assert [f[0]] + f[1..] == f;
    }
  }

  /** Round trip: a record written with every field quoted splits back into
      exactly its fields, embedded commas and quotes included. */
  lemma {:induction false} QuotedRoundTrip(fields: seq<string>)
    requires |fields| >= 1
    ensures Fields(EncodeRecord(fields)) == fields
  {
    var f := fields[0];
    if |fields| == 1 {
      var s := Quote(f);
      assert s[1..] == Escape(f) + "\"" + "";
      ScanEscaped(f, "");
      assert f + "" == f;
      assert [f] == fields;
    } else {
      var tail := EncodeRecord(fields[1..]);
      var s := Quote(f) + "," + tail;
      assert s[1..] == Escape(f) + "\"" + ("," + tail);
      ScanEscaped(f, "," + tail);
      assert ("," + tail)[1..] == tail;
      QuotedRoundTrip(fields[1..]);
      assert f + "" == f;
      assert Extend(f, [""] + fields[1..]) == [f] + fields[1..] == fields;
    }
  }

  /** Round trip for plain records: fields free of commas and quotes, joined
      with commas, split back into themselves. */
  lemma PlainRoundTrip(fields: seq<string>)
    requires |fields| >= 1
    requires forall k :: 0 <= k < |fields| ==> ',' !in fields[k] && '"' !in fields[k]
    ensures Fields(Join(fields, ',')) == fields
  {
    JoinChars(fields, ',');
    ScanWithoutQuotes(Join(fields, ','));
    SplitJoin(fields, ',');
  }

  /** The only characters of a join are the separator and those of the parts. */
  lemma {:induction false} JoinChars(parts: seq<string>, sep: char)
    ensures forall c :: c in Join(parts, sep) ==> c == sep || exists k :: 0 <= k < |parts| && c in parts[k]
  {
    if |parts| > 1 {
      JoinChars(parts[1..], sep);
      forall c | c in Join(parts, sep)
        ensures c == sep || exists k :: 0 <= k < |parts| && c in parts[k]
      {
        if c !in parts[0] && c != sep {
          assert c in Join(parts[1..], sep);
          var k :| 0 <= k < |parts[1..]| && c in parts[1..][k];
          assert c in parts[k + 1];
        }
      }
    }
  }

  /** A run of characters that the scan treats as plain content (no quote,
      and no comma outside quote mode) is copied into the current field. */
  lemma {:induction false} ScanPlain(a: string, rest: string, inQuotes: bool)
    requires '"' !in a
    requires !inQuotes ==> ',' !in a
    ensures Scan(a + rest, inQuotes) == Extend(a, Scan(rest, inQuotes))
  {
    if a == [] {
      assert a + rest == rest;
      ExtendEmpty(Scan(rest, inQuotes));
    } else {
      assert (a + rest)[0] == a[0] && (a + rest)[1..] == a[1..] + rest;
      ScanPlain(a[1..], rest, inQuotes);
      ExtendExtend([a[0]], a[1..], Scan(rest, inQuotes));
      assert [a[0]] + a[1..] == a;
    }
  }

  /** The first leniency: a quote in the middle of an unquoted field toggles
      quote mode, so `a"b,c"d` is the single field `ab,cd`: the quotes vanish
      and the comma between them is content. */
  lemma MidFieldQuote(a: string, b: string, c: string)
    requires '"' !in a && '"' !in b && '"' !in c
    requires ',' !in a && ',' !in c
    ensures Fields(a + "\"" + b + "\"" + c) == [a + b + c]
  {
    var tail := "\"" + c;
    var quoted := "\"" + b + tail;
    assert a + "\"" + b + "\"" + c == a + quoted;
    ScanPlain(a, quoted, false);
    assert quoted[1..] == b + tail;
    ScanPlain(b, tail, true);
    assert tail[1..] == c;
    assert |tail| > 1 ==> tail[1] != '"';
    assert c + "" == c;
    ScanPlain(c, "", false);
    assert c + "" == c;
    ExtendExtend(b, c, [""]);
    ExtendExtend(a, b + c, [""]);
    assert a + (b + c + "") == a + b + c;
  }

  /** Escaping works piece by piece. */
  lemma {:induction false} EscapeConcat(a: string, b: string)
    ensures Escape(a + b) == Escape(a) + Escape(b)
  {
    if a == [] {
      assert a + b == b;
    } else {
      assert (a + b)[0] == a[0] && (a + b)[1..] == a[1..] + b;
      EscapeConcat(a[1..], b);
    }
  }

  /** A field without quotes is written unchanged inside its quotes. */
  lemma {:induction false} EscapeNoQuote(f: string)
    requires '"' !in f
    ensures Escape(f) == f
  {
    if f != [] {
      assert '"' !in f[1..];
      EscapeNoQuote(f[1..]);
      assert [f[0]] + f[1..] == f;
    }
  }

  /** Two plain fields separated by a comma split into those two fields. */
  lemma TwoPlainFields(a: string, b: string)
    requires '"' !in a && ',' !in a && '"' !in b && ',' !in b
    ensures Fields(a + "," + b) == [a, b]
  {
    var rest := "," + b;
    assert a + "," + b == a + rest;
    ScanPlain(a, rest, false);
    assert rest[1..] == b;
    ScanPlain(b, "", false);
    assert b + "" == b;
    assert Scan(rest, false) == ["", b];
    assert a + "" == a;
  }

  /** A quoted field followed by a plain one splits into the two fields. */
  lemma QuotedThenPlain(a: string, b: string)
    requires '"' !in b && ',' !in b
    ensures Fields(Quote(a) + "," + b) == [a, b]
  {
    var rest := "," + b;
    var s := Quote(a) + "," + b;
    assert s[0] == '"' && s[1..] == Escape(a) + "\"" + rest;
    ScanEscaped(a, rest);
    assert rest[1..] == b;
    ScanPlain(b, "", false);
    assert b + "" == b;
    assert Scan(rest, false) == ["", b];
    assert a + "" == a;
  }

  /** A plain field followed by a quoted one splits into the two fields. */
  lemma PlainThenQuoted(a: string, b: string)
    requires '"' !in a && ',' !in a
    ensures Fields(a + "," + Quote(b)) == [a, b]
  {
    var q := Quote(b);
    var rest := "," + q;
    assert a + "," + q == a + rest;
    ScanPlain(a, rest, false);
    assert rest[1..] == q;
    assert q[0] == '"' && q[1..] == Escape(b) + "\"" + "";
    ScanEscaped(b, "");
    assert b + "" == b;
    assert Scan(rest, false) == ["", b];
    assert a + "" == a;
  }

  /** A concrete line: a quoted phone with a comma in it, then a plain
      message. The line is a parameter fixed by `requires`, here and in the
      examples below, because the verifier unrolls `Fields` without bound on
      a literal argument. */
  lemma ExampleQuotedPhone(line: string)
    requires line == "\"123,456\",Hi"
    ensures Fields(line) == ["123,456", "Hi"]
  {
    QuoteFreeThenPlain("123,456", "Hi");
    assert line == "\"" + "123,456" + "\"" + "," + "Hi";
  }

  /** A quote-free field written in quotes, then a plain field. */
  lemma QuoteFreeThenPlain(a: string, b: string)
    requires '"' !in a && '"' !in b && ',' !in b
    ensures Fields("\"" + a + "\"" + "," + b) == [a, b]
  {
    EscapeNoQuote(a);
    QuotedThenPlain(a, b);
  }

  /** A text quoting a quote-free word, such as `Hello, "world"`, is
      written with each of its two quotes doubled. */
  lemma EscapeQuotedWord(a: string, b: string)
    requires '"' !in a && '"' !in b
    ensures Escape(a + "\"" + b + "\"") == a + "\"\"" + b + "\"\""
  {
    assert a + "\"" + b + "\"" == a + ("\"" + (b + "\""));
    EscapeConcat(a, "\"" + (b + "\""));
    EscapeConcat("\"", b + "\"");
    EscapeConcat(b, "\"");
    EscapeNoQuote(a);
    EscapeNoQuote(b);
    assert Escape("\"") == "\"\"";
  }

  /** A concrete line: a plain phone, then a quoted message holding a comma
      and escaped quotes. */
  lemma ExampleQuotedMessage(line: string)
    requires line == "0091234,\"Hello, \"\"world\"\"\""
    ensures Fields(line) == ["0091234", "Hello, \"world\""]
  {
    var p, a, b := "0091234", "Hello, ", "world";
    calc {
      Fields(line);
    == { assert line == p + "," + "\"" + a + "\"\"" + b + "\"\"" + "\""; }
      Fields(p + "," + "\"" + a + "\"\"" + b + "\"\"" + "\"");
    == { PlainThenQuotedWord(p, a, b); }
      [p, a + "\"" + b + "\""];
    == { assert a + "\"" + b + "\"" == "Hello, \"world\""; }
      ["0091234", "Hello, \"world\""];
    }
  }

  /** A plain field, then a quoted field holding a quoted word. */
  lemma PlainThenQuotedWord(p: string, a: string, b: string)
    requires '"' !in p && ',' !in p && '"' !in a && '"' !in b
    ensures Fields(p + "," + "\"" + a + "\"\"" + b + "\"\"" + "\"") == [p, a + "\"" + b + "\""]
  {
    var m := a + "\"" + b + "\"";
    EscapeQuotedWord(a, b);
    PlainThenQuoted(p, m);
    assert p + "," + "\"" + a + "\"\"" + b + "\"\"" + "\"" == p + "," + Quote(m);
  }
}
