/** The contact reader (`parseCSV`): strip a leading byte-order mark, cut the
    text into lines at `\n` or `\r\n`, drop the lines that trim to nothing,
    read the header row, locate the `phone` and `message` columns and turn every
    further line into a contact, in order. */
module CsvDocument {
  import opened Text
  import opened CsvLine

  const BOM: char := '\U{FEFF}'

  /** One `{phone, message}` record; the phone is still the raw cell text. */
  datatype Contact = Contact(phone: string, message: string)

  /** The one error the reader raises: 'CSV must have headers: phone,message'. */
  datatype CsvError = MissingHeaders

  datatype Result<T> = Ok(value: T) | Err(error: CsvError)

  /** `content.replace(/^\uFEFF/, '')`: at most one leading mark is removed. */
  function StripBom(s: string): (r: string)
    ensures s == if s != [] && s[0] == BOM then [BOM] + r else r
  {
    if s != [] && s[0] == BOM then s[1..] else s
  }

  /** A line that was followed by `\r\n` loses its `\r`. */
  function DropCR(line: string): (r: string)
    ensures line == if line != [] && line[|line| - 1] == '\r' then r + "\r" else r
  {
    if line != [] && line[|line| - 1] == '\r' then line[..|line| - 1] else line
  }

  /** Every piece but the last was followed by `\n`, so loses a trailing `\r`. */
  function DropCRs(pieces: seq<string>): (r: seq<string>)
    ensures |r| == |pieces|
  {
    seq(|pieces|, k requires 0 <= k < |pieces| =>
      if k < |pieces| - 1 then DropCR(pieces[k]) else pieces[k])
  }

  /** `s.split(/\r?\n/)`. */
  function SplitLines(s: string): (r: seq<string>)
    ensures |r| >= 1
  {
    DropCRs(SplitOn(s, '\n'))
  }

  /** `lines.filter(l => l.trim() !== '')`. */
  function NonBlank(lines: seq<string>): (r: seq<string>)
    ensures |r| <= |lines|
  {
    if lines == [] then []
    else if Trim(lines[0]) == "" then NonBlank(lines[1..])
    else [lines[0]] + NonBlank(lines[1..])
  }

  /** The lines the reader works on: header first, then the data rows. */
  function ContentLines(content: string): seq<string> {
    NonBlank(SplitLines(StripBom(content)))
  }

  /** `cols.map(h => h.trim().toLowerCase())`. */
  function HeaderNames(cols: seq<string>): (r: seq<string>)
    ensures |r| == |cols|
    ensures forall k :: 0 <= k < |cols| ==> r[k] == Lower(Trim(cols[k]))
  {
    seq(|cols|, k requires 0 <= k < |cols| => Lower(Trim(cols[k])))
  }

  /** `xs.indexOf(x)`: the first position of `x`, or -1 when it is absent. */
  function IndexOf(xs: seq<string>, x: string): (r: int)
    ensures r == -1 <==> x !in xs
    ensures r != -1 ==> 0 <= r < |xs| && xs[r] == x && forall j :: 0 <= j < r ==> xs[j] != x
  {
    if xs == [] then -1
    else if xs[0] == x then 0
    else var i := IndexOf(xs[1..], x); if i == -1 then -1 else i + 1
  }

  /** `cols[i] ?? ''`: a missing trailing column reads as empty. */
  function Column(cols: seq<string>, i: nat): (r: string)
    ensures r in cols || r == ""
    ensures i < |cols| ==> r == cols[i]
    ensures i >= |cols| ==> r == ""
  {
    if i < |cols| then cols[i] else ""
  }

  function RowOf(line: string, phoneIdx: nat, messageIdx: nat): Contact {
    var cols := Fields(line);
    Contact(Column(cols, phoneIdx), Column(cols, messageIdx))
  }

  function Rows(lines: seq<string>, phoneIdx: nat, messageIdx: nat): (r: seq<Contact>)
    ensures |r| == |lines|
  {
    seq(|lines|, k requires 0 <= k < |lines| => RowOf(lines[k], phoneIdx, messageIdx))
  }

  /** What the reader makes of its non-blank lines. */
  function ParseLines(lines: seq<string>): (r: Result<seq<Contact>>)
    ensures r.Err? <==> (lines != [] &&
      ("phone" !in HeaderNames(Fields(lines[0])) || "message" !in HeaderNames(Fields(lines[0]))))
    ensures r.Ok? ==> |r.value| == if lines == [] then 0 else |lines| - 1
    ensures r.Ok? ==> forall k :: 0 <= k < |r.value| ==>
      (r.value[k].phone in Fields(lines[k + 1]) || r.value[k].phone == "") &&
      (r.value[k].message in Fields(lines[k + 1]) || r.value[k].message == "")
  {
    if lines == [] then Ok([])
    else
      var headers := HeaderNames(Fields(lines[0]));
      var phoneIdx := IndexOf(headers, "phone");
      var messageIdx := IndexOf(headers, "message");
      if phoneIdx == -1 || messageIdx == -1 then Err(MissingHeaders)
      else Ok(Rows(lines[1..], phoneIdx, messageIdx))
  }

  /** The whole reader: one contact per non-blank line after the header. */
  function Parse(content: string): (r: Result<seq<Contact>>)
    ensures r.Ok? ==> |r.value| == if ContentLines(content) == [] then 0 else |ContentLines(content)| - 1
  {
    ParseLines(ContentLines(content))
  }

  /** Header matching ignores case and surrounding white space: the column
      the reader uses for a name is the first header cell that, trimmed,
      spells the name in any mix of cases, and there is none exactly when no
      cell does. */
  lemma HeaderColumn(cols: seq<string>, w: string)
    requires LowerWord(w)
    ensures IndexOf(HeaderNames(cols), w) == -1 <==>
      forall k :: 0 <= k < |cols| ==> !SameIgnoringCase(Trim(cols[k]), w)
    ensures var r := IndexOf(HeaderNames(cols), w);
      r != -1 ==> SameIgnoringCase(Trim(cols[r]), w)
    ensures forall j :: 0 <= j < IndexOf(HeaderNames(cols), w) ==> !SameIgnoringCase(Trim(cols[j]), w)
  {
    var names := HeaderNames(cols);
    var r := IndexOf(names, w);
    HeaderNamesMatch(cols, w);
    if r == -1 {
      forall k | 0 <= k < |cols| ensures !SameIgnoringCase(Trim(cols[k]), w) {
        assert names[k] != w;
      }
    } else {
      assert SameIgnoringCase(Trim(cols[r]), w);
      forall j | 0 <= j < r ensures !SameIgnoringCase(Trim(cols[j]), w) {
        assert names[j] != w;
      }
    }
  }

  /** A header name equals a lower-case word exactly when its cell, trimmed,
      spells that word ignoring case. */
  lemma HeaderNamesMatch(cols: seq<string>, w: string)
    requires LowerWord(w)
    ensures forall k :: 0 <= k < |cols| ==>
      (HeaderNames(cols)[k] == w <==> SameIgnoringCase(Trim(cols[k]), w))
  {
    forall k | 0 <= k < |cols|
      ensures HeaderNames(cols)[k] == w <==> SameIgnoringCase(Trim(cols[k]), w)
    {
      LowerEqualsIff(Trim(cols[k]), w);
    }
  }

  /** The reader as the source runs it: take the header off the line list,
      then push one record per remaining line. */
  method ParseCSV(content: string) returns (r: Result<seq<Contact>>)
    ensures r == Parse(content)
  {
    var text := StripBom(content);
    var lines := NonBlank(SplitLines(text));
    if |lines| == 0 {
      return Ok([]);
    }
    ghost var all := lines;
    var header := SplitCSVLine(lines[0]);
    lines := lines[1..];
    var headers := HeaderNames(header);
    var phoneIdx := IndexOf(headers, "phone");
    var messageIdx := IndexOf(headers, "message");
    if phoneIdx == -1 || messageIdx == -1 {
      return Err(MissingHeaders);
    }
    var rows := ReadRows(lines, phoneIdx, messageIdx);
    return Ok(rows);
  }

  /** The data-row loop: one record per line, pushed in order. */
  method ReadRows(lines: seq<string>, phoneIdx: nat, messageIdx: nat) returns (rows: seq<Contact>)
    ensures rows == Rows(lines, phoneIdx, messageIdx)
  {
    rows := [];
    var i := 0;
    while i < |lines|
      invariant 0 <= i <= |lines|
      invariant |rows| == i
      invariant forall k :: 0 <= k < i ==> rows[k] == RowOf(lines[k], phoneIdx, messageIdx)
    {
      var cols := SplitCSVLine(lines[i]);
      rows := rows + [Contact(Column(cols, phoneIdx), Column(cols, messageIdx))];
      i := i + 1;
    }
  }

  /** The reader fails exactly when there is a non-blank line and its header
      cells, trimmed and lower-cased, lack `phone` or `message`. */
  lemma MissingHeadersIff(content: string)
    ensures var lines := ContentLines(content);
      Parse(content).Err? <==>
        lines != [] &&
        ("phone" !in HeaderNames(Fields(lines[0])) || "message" !in HeaderNames(Fields(lines[0])))
  {
  }

  /** On success there is one contact per data line, in order, each read from
      the columns where `phone` and `message` first occur in the header. */
  lemma ParsedRows(content: string)
    requires Parse(content).Ok? && ContentLines(content) != []
    ensures var lines := ContentLines(content);
      var headers := HeaderNames(Fields(lines[0]));
      var rows := Parse(content).value;
      && "phone" in headers && "message" in headers
      && |rows| == |lines| - 1
      && forall k :: 0 <= k < |rows| ==>
           rows[k] == Contact(Column(Fields(lines[k + 1]), IndexOf(headers, "phone")),
                              Column(Fields(lines[k + 1]), IndexOf(headers, "message")))
  {
  }

  lemma {:induction false} NonBlankAppend(x: seq<string>, y: seq<string>)
    ensures NonBlank(x + y) == NonBlank(x) + NonBlank(y)
  {
    if x == [] {
      assert x + y == y;
    } else {
      assert (x + y)[0] == x[0] && (x + y)[1..] == x[1..] + y;
      NonBlankAppend(x[1..], y);
    }
  }

  /** The reader sees no line at all exactly when the input is white space. */
  lemma {:induction false} NonBlankEmptyIff(lines: seq<string>)
    ensures NonBlank(lines) == [] <==> forall k :: 0 <= k < |lines| ==> IsBlank(lines[k])
  {
    if lines != [] {
      NonBlankEmptyIff(lines[1..]);
      TrimEmptyIffBlank(lines[0]);
      assert forall k :: 1 <= k < |lines| ==> lines[k] == lines[1..][k - 1];
    }
  }

  lemma DropCRBlank(line: string)
    ensures IsBlank(DropCR(line)) <==> IsBlank(line)
  {
    if line != [] && line[|line| - 1] == '\r' {
      var r := DropCR(line);
      assert forall i :: 0 <= i < |r| ==> r[i] == line[i];
    }
  }

  lemma DropCRsBlank(pieces: seq<string>)
    ensures (forall k :: 0 <= k < |pieces| ==> IsBlank(DropCRs(pieces)[k]))
        <==> (forall k :: 0 <= k < |pieces| ==> IsBlank(pieces[k]))
  {
    forall k | 0 <= k < |pieces|
      ensures IsBlank(DropCRs(pieces)[k]) <==> IsBlank(pieces[k])
    {
      DropCRBlank(pieces[k]);
    }
  }

  /** A join with a white-space separator is blank exactly when every part is. */
  lemma {:induction false} JoinBlank(parts: seq<string>, sep: char)
    requires IsSpace(sep)
    ensures IsBlank(Join(parts, sep)) <==> forall k :: 0 <= k < |parts| ==> IsBlank(parts[k])
  {
    if |parts| > 1 {
      JoinBlank(parts[1..], sep);
      var j := Join(parts, sep);
      var rest := Join(parts[1..], sep);
      assert j == parts[0] + [sep] + rest;
      assert forall i :: 0 <= i < |parts[0]| ==> j[i] == parts[0][i];
      assert forall i :: 0 <= i < |rest| ==> j[|parts[0]| + 1 + i] == rest[i];
      assert forall k :: 1 <= k < |parts| ==> parts[k] == parts[1..][k - 1];
      if IsBlank(parts[0]) && IsBlank(rest) {
        forall i | 0 <= i < |j| ensures IsSpace(j[i]) {
          if i < |parts[0]| {
          } else if i == |parts[0]| {
          } else {
            assert j[i] == rest[i - |parts[0]| - 1];
          }
        }
      }
    }
  }

  /** The lines of a text are all blank exactly when the text is. */
  lemma LinesBlankIff(text: string)
    ensures (forall k :: 0 <= k < |SplitLines(text)| ==> IsBlank(SplitLines(text)[k])) <==> IsBlank(text)
  {
    var pieces := SplitOn(text, '\n');
    assert SplitLines(text) == DropCRs(pieces);
    JoinSplit(text, '\n');
    JoinBlank(pieces, '\n');
    DropCRsBlank(pieces);
  }

  /** The reader has no line at all exactly when the input is white space
      (byte-order mark included); any other input has a line for the header. */
  lemma NoLinesIffBlank(content: string)
    ensures ContentLines(content) == [] <==> IsBlank(content)
  {
    var text := StripBom(content);
    LinesBlankIff(text);
    NonBlankEmptyIff(SplitLines(text));
    StripBomBlank(content);
  }

  lemma StripBomBlank(content: string)
    ensures IsBlank(StripBom(content)) <==> IsBlank(content)
  {
    var text := StripBom(content);
    if content != [] && content[0] == BOM {
      assert forall i :: 0 <= i < |text| ==> text[i] == content[i + 1];
    }
  }

  /** Input that is all white space yields no contacts and no error. */
  lemma BlankInputIsEmpty(content: string)
    requires IsBlank(content)
    ensures Parse(content) == Ok([])
  {
    NoLinesIffBlank(content);
  }

  /** Every piece but the last loses its `\r`, wherever the list is cut. */
  lemma DropCRsAppend(x: seq<string>, y: seq<string>)
    requires |y| >= 1
    ensures DropCRs(x + y) == DropAll(x) + DropCRs(y)
  {
  }

  /** Every piece of a list loses a trailing `\r`. */
  function DropAll(pieces: seq<string>): (r: seq<string>)
    ensures |r| == |pieces|
  {
    seq(|pieces|, k requires 0 <= k < |pieces| => DropCR(pieces[k]))
  }

  lemma StripBomConcat(a: string, t: string)
    requires t != [] && t[0] != BOM
    ensures StripBom(a + t) == StripBom(a) + t
  {
    if a == [] {
      assert a + t == t;
    } else {
      assert (a + t)[0] == a[0] && (a + t)[1..] == a[1..] + t;
    }
  }

  lemma SplitOnAround(x: string, w: string, y: string)
    requires '\n' !in w
    ensures SplitOn(x + "\n" + (w + "\n" + y), '\n') == SplitOn(x, '\n') + ([w] + SplitOn(y, '\n'))
  {
    SplitConcat(x, w + "\n" + y, '\n');
    SplitConcat(w, y, '\n');
    SplitWithoutSep(w, '\n');
  }

  /** Cutting `x \n w \n y` into lines gives the lines of `x \n y` with the
      line `w` (less a trailing `\r`) between them. */
  lemma SplitLinesAround(x: string, w: string, y: string)
    requires '\n' !in w
    ensures SplitLines(x + "\n" + (w + "\n" + y)) == DropAll(SplitOn(x, '\n')) + [DropCR(w)] + SplitLines(y)
  {
    var A, B := SplitOn(x, '\n'), SplitOn(y, '\n');
    SplitOnAround(x, w, y);
    DropCRsAppend(A, [w] + B);
    DropCRsCons(w, B);
    assert DropAll(A) + ([DropCR(w)] + DropCRs(B)) == DropAll(A) + [DropCR(w)] + DropCRs(B);
  }

  lemma DropCRsCons(w: string, rest: seq<string>)
    requires |rest| >= 1
    ensures DropCRs([w] + rest) == [DropCR(w)] + DropCRs(rest)
  {
  }

  lemma SplitLinesBetween(x: string, y: string)
    ensures SplitLines(x + "\n" + y) == DropAll(SplitOn(x, '\n')) + SplitLines(y)
  {
    SplitConcat(x, y, '\n');
    DropCRsAppend(SplitOn(x, '\n'), SplitOn(y, '\n'));
  }

  lemma NonBlankAround(x: string, w: string, y: string)
    requires IsBlank(w) && '\n' !in w
    ensures NonBlank(SplitLines(x + "\n" + (w + "\n" + y))) == NonBlank(SplitLines(x + "\n" + y))
  {
    SplitLinesAround(x, w, y);
    SplitLinesBetween(x, y);
    var dropX := DropAll(SplitOn(x, '\n'));
    var d := DropCR(w);
    var rest := SplitLines(y);
    BlankLineDropped(w);
    NonBlankAppend(dropX + [d], rest);
    NonBlankAppend(dropX, [d]);
    NonBlankAppend(dropX, rest);
    calc {
      NonBlank(dropX + [d] + rest);
      NonBlank(dropX + [d]) + NonBlank(rest);
      NonBlank(dropX) + NonBlank([d]) + NonBlank(rest);
      { assert NonBlank(dropX) + [] == NonBlank(dropX); }
      NonBlank(dropX + rest);
    }
  }

  lemma BlankLineDropped(w: string)
    requires IsBlank(w)
    ensures NonBlank([DropCR(w)]) == []
  {
    DropCRBlank(w);
    TrimEmptyIffBlank(DropCR(w));
  }

  /** A white-space line between two others changes nothing: the contacts of
      `a \n w \n b` are those of `a \n b`. */
  lemma BlankLinesIgnored(a: string, w: string, b: string)
    requires IsBlank(w) && '\n' !in w
    ensures ContentLines(a + "\n" + w + "\n" + b) == ContentLines(a + "\n" + b)
    ensures Parse(a + "\n" + w + "\n" + b) == Parse(a + "\n" + b)
  {
    BlankLineContent(a, w, b);
  }

  lemma BlankLineContent(a: string, w: string, b: string)
    requires IsBlank(w) && '\n' !in w
    ensures ContentLines(a + "\n" + w + "\n" + b) == ContentLines(a + "\n" + b)
  {
    calc {
      ContentLines(a + "\n" + w + "\n" + b);
    == { assert a + "\n" + w + "\n" + b == a + "\n" + (w + "\n" + b); }
      NonBlank(SplitLines(StripBom(a + "\n" + (w + "\n" + b))));
    == { StripBomAfterLine(a, w + "\n" + b); }
      NonBlank(SplitLines(StripBom(a) + "\n" + (w + "\n" + b)));
    == { NonBlankAround(StripBom(a), w, b); }
      NonBlank(SplitLines(StripBom(a) + "\n" + b));
    == { StripBomAfterLine(a, b); }
      ContentLines(a + "\n" + b);
    }
  }

  /** Text after a line break never loses a mark. */
  lemma StripBomAfterLine(a: string, t: string)
    ensures StripBom(a + "\n" + t) == StripBom(a) + "\n" + t
  {
    assert a + "\n" + t == a + ("\n" + t);
    StripBomConcat(a, "\n" + t);
    assert StripBom(a) + ("\n" + t) == StripBom(a) + "\n" + t;
  }

  /** No line the reader works on holds a line break. */
  lemma ContentLinesNoBreak(content: string)
    ensures forall l :: l in ContentLines(content) ==> '\n' !in l
  {
    var text := StripBom(content);
    var pieces := SplitOn(text, '\n');
    SplitNoSep(text, '\n');
    forall k | 0 <= k < |pieces| ensures '\n' !in DropCRs(pieces)[k] {
      var p := pieces[k];
      assert forall c :: c in DropCR(p) ==> c in p;
    }
    NonBlankSubset(SplitLines(text));
  }

  /** The second leniency: a quoted field never spans lines, so no phone and
      no message of any contact holds a line break. */
  lemma NoLineBreakInFields(content: string)
    requires Parse(content).Ok?
    ensures forall k :: 0 <= k < |Parse(content).value| ==>
      '\n' !in Parse(content).value[k].phone && '\n' !in Parse(content).value[k].message
  {
    var lines := ContentLines(content);
    if lines != [] {
      var rows := Parse(content).value;
      ContentLinesNoBreak(content);
      forall k | 0 <= k < |rows|
        ensures '\n' !in rows[k].phone && '\n' !in rows[k].message
      {
        assert lines[k + 1] in lines;
        RowNoBreak(lines[k + 1], IndexOf(HeaderNames(Fields(lines[0])), "phone") as nat,
                   IndexOf(HeaderNames(Fields(lines[0])), "message") as nat);
      }
    }
  }

  lemma RowNoBreak(line: string, phoneIdx: nat, messageIdx: nat)
    requires '\n' !in line
    ensures '\n' !in RowOf(line, phoneIdx, messageIdx).phone && '\n' !in RowOf(line, phoneIdx, messageIdx).message
  {
    FieldCharsFromLine(line, false);
  }

  lemma {:induction false} NonBlankSubset(lines: seq<string>)
    ensures forall l :: l in NonBlank(lines) ==> l in lines
  {
    if lines != [] {
      NonBlankSubset(lines[1..]);
    }
  }

  /** A character other than `\r` in front of a line stays in front of it
      when the line loses its `\r`. */
  lemma DropCRCons(c: char, w: string)
    requires c != '\r'
    ensures DropCR([c] + w) == [c] + DropCR(w)
  {
    if w != [] && w[|w| - 1] == '\r' {
      assert ([c] + w)[..|w|] == [c] + w[..|w| - 1];
    }
  }

  lemma DropCRsExtend(c: char, pieces: seq<string>)
    requires c != '\r' && |pieces| >= 1
    ensures DropCRs(Extend([c], pieces)) == Extend([c], DropCRs(pieces))
  {
    var e := Extend([c], pieces);
    var l, r := DropCRs(e), Extend([c], DropCRs(pieces));
    forall k | 0 <= k < |l| ensures l[k] == r[k] {
      if k == 0 {
        if |pieces| > 1 {
          DropCRCons(c, pieces[0]);
        }
      } else {
        assert e[k] == pieces[k];
      }
    }
    assert l == r;
  }

  /** A mark in front of the text is glued to the first line. */
  lemma SplitLinesBom(u: string)
    ensures SplitLines([BOM] + u) == Extend([BOM], SplitLines(u))
  {
    assert ([BOM] + u)[1..] == u;
    assert SplitOn([BOM] + u, '\n') == Extend([BOM], SplitOn(u, '\n'));
    DropCRsExtend(BOM, SplitOn(u, '\n'));
  }

  /** The mark is white space, so it never changes which lines are blank. */
  lemma NonBlankBom(lines: seq<string>)
    requires |lines| >= 1
    ensures Trim(lines[0]) == "" ==> NonBlank(Extend([BOM], lines)) == NonBlank(lines)
    ensures Trim(lines[0]) != "" ==>
      && NonBlank(lines) == [lines[0]] + NonBlank(lines[1..])
      && NonBlank(Extend([BOM], lines)) == [[BOM] + lines[0]] + NonBlank(lines[1..])
  {
    TrimLeadingSpace(BOM, lines[0]);
  }

  /** A header cell keeps its name with a mark in front of the line. */
  lemma HeaderBom(line: string)
    ensures HeaderNames(Fields([BOM] + line)) == HeaderNames(Fields(line))
  {
    ScanPlain([BOM], line, false);
    var cols := Fields(line);
    TrimLeadingSpace(BOM, cols[0]);
    assert HeaderNames(Fields([BOM] + line))[0] == HeaderNames(cols)[0];
  }

  lemma ParseLinesBom(u: string)
    ensures ParseLines(NonBlank(SplitLines([BOM] + u))) == ParseLines(NonBlank(SplitLines(u)))
  {
    var lines := SplitLines(u);
    SplitLinesBom(u);
    NonBlankBom(lines);
    if Trim(lines[0]) != "" {
      HeaderBom(lines[0]);
      var rest := NonBlank(lines[1..]);
      assert ([[BOM] + lines[0]] + rest)[1..] == rest;
      assert ([lines[0]] + rest)[1..] == rest;
    }
  }

  /** Only one byte-order mark is stripped, yet a second one is harmless: the
      mark is white space to `trim`, so it vanishes from a blank first line and
      from the first header cell. Hence a mark in front never changes what is read. */
  lemma LeadingBomIrrelevant(s: string)
    ensures Parse([BOM] + s) == Parse(s)
  {
    assert ([BOM] + s)[1..] == s;
    if s != [] && s[0] == BOM {
      assert s == [BOM] + s[1..];
      ParseLinesBom(s[1..]);
    }
  }

  /** Lines that are none of them blank all survive the filter. */
  lemma {:induction false} NonBlankKeepsAll(lines: seq<string>)
    requires forall k :: 0 <= k < |lines| ==> !IsBlank(lines[k])
    ensures NonBlank(lines) == lines
  {
    if lines != [] {
      TrimEmptyIffBlank(lines[0]);
      NonBlankKeepsAll(lines[1..]);
      assert [lines[0]] + lines[1..] == lines;
    }
  }

  /** Three lines joined by `\n`, the first two not ending in `\r`, are cut
      back into those three lines. */
  lemma ThreeSplitLines(h: string, l1: string, l2: string)
    requires '\n' !in h && '\n' !in l1 && '\n' !in l2
    requires h != [] && l1 != [] && h[|h| - 1] != '\r' && l1[|l1| - 1] != '\r'
    ensures SplitLines(h + "\n" + l1 + "\n" + l2) == [h, l1, l2]
  {
    assert h + "\n" + l1 + "\n" + l2 == h + "\n" + (l1 + "\n" + l2);
    SplitLinesAround(h, l1, l2);
    SplitWithoutSep(h, '\n');
    SplitWithoutSep(l2, '\n');
    assert DropAll([h]) == [h];
    assert SplitLines(l2) == [l2];
  }

  /** Three non-blank lines joined by `\n`, the first two not ending in `\r`
      and the first not starting with a byte-order mark, are read back as
      they are. */
  lemma ThreeLines(h: string, l1: string, l2: string)
    requires '\n' !in h && '\n' !in l1 && '\n' !in l2
    requires !IsBlank(h) && !IsBlank(l1) && !IsBlank(l2)
    requires h[0] != BOM && h[|h| - 1] != '\r' && l1[|l1| - 1] != '\r'
    ensures ContentLines(h + "\n" + l1 + "\n" + l2) == [h, l1, l2]
  {
    var content := h + "\n" + l1 + "\n" + l2;
    assert content[0] == h[0];
    assert StripBom(content) == content;
    ThreeSplitLines(h, l1, l2);
    NonBlankKeepsAll([h, l1, l2]);
  }

  /** A header of two lower-case words names its columns by those words. */
  lemma HeaderOfWords(a: string, b: string)
    requires LowerWord(a) && LowerWord(b)
    ensures HeaderNames(Fields(a + "," + b)) == [a, b]
  {
    calc {
      HeaderNames(Fields(a + "," + b));
    == { TwoPlainFields(a, b); }
      HeaderNames([a, b]);
    == { HeaderNamesOfWords([a, b]); }
      [a, b];
    }
  }

  /** Header cells that are already lower-case words are their own names. */
  lemma HeaderNamesOfWords(cols: seq<string>)
    requires forall k :: 0 <= k < |cols| ==> LowerWord(cols[k])
    ensures HeaderNames(cols) == cols
  {
    forall k | 0 <= k < |cols|
      ensures HeaderNames(cols)[k] == cols[k]
    {
      LowerWordUnchanged(cols[k]);
    }
  }

  /** The header line `phone,message` holds the two cells `phone` and
      `message`. */
  lemma ExampleHeader(h: string)
    requires h == "phone,message"
    ensures Fields(h) == ["phone", "message"]
  {
    TwoPlainFields("phone", "message");
    assert h == "phone" + "," + "message";
  }

  /** The header cells `phone` and `message` name the first column `phone`
      and the second `message`. */
  lemma PhoneMessageHeader(cols: seq<string>)
    requires cols == ["phone", "message"]
    ensures HeaderNames(cols) == cols
  {
    assert LowerWord(cols[0]) && LowerWord(cols[1]);
    HeaderNamesOfWords(cols);
  }

  /** A header naming `phone` then `message`, then two rows of two fields
      each, gives the two contacts in order. */
  lemma ParseTwoRows(h: string, l1: string, l2: string, p1: string, m1: string, p2: string, m2: string)
    requires '\n' !in h && '\n' !in l1 && '\n' !in l2
    requires !IsBlank(h) && !IsBlank(l1) && !IsBlank(l2)
    requires h[0] != BOM && h[|h| - 1] != '\r' && l1[|l1| - 1] != '\r'
    requires Fields(h) == ["phone", "message"]
    requires Fields(l1) == [p1, m1] && Fields(l2) == [p2, m2]
    ensures Parse(h + "\n" + l1 + "\n" + l2) == Ok([Contact(p1, m1), Contact(p2, m2)])
  {
    var lines := [h, l1, l2];
    calc {
      Parse(h + "\n" + l1 + "\n" + l2);
    == { ThreeLines(h, l1, l2); }
      ParseLines(lines);
    == { PhoneMessageHeader(Fields(h)); PhoneMessageColumns(HeaderNames(Fields(h))); }
      Ok(Rows(lines[1..], 0, 1));
    == { assert lines[1..] == [l1, l2]; }
      Ok(Rows([l1, l2], 0, 1));
    == { TwoRows(l1, l2, 0, 1); }
      Ok([RowOf(l1, 0, 1), RowOf(l2, 0, 1)]);
    }
  }

  lemma TwoRows(l1: string, l2: string, phoneIdx: nat, messageIdx: nat)
    ensures Rows([l1, l2], phoneIdx, messageIdx) == [RowOf(l1, phoneIdx, messageIdx), RowOf(l2, phoneIdx, messageIdx)]
  {
    var r := Rows([l1, l2], phoneIdx, messageIdx);
    assert r[0] == RowOf(l1, phoneIdx, messageIdx);
    assert r[1] == RowOf(l2, phoneIdx, messageIdx);
  }

  /** In the header `phone,message` the phone is column 0 and the message
      column 1. */
  lemma PhoneMessageColumns(headers: seq<string>)
    requires headers == ["phone", "message"]
    ensures IndexOf(headers, "phone") == 0 && IndexOf(headers, "message") == 1
  {
    assert headers[0] == "phone" && headers[1] == "message";
    assert "phone" != "message" by { assert |"phone"| != |"message"|; }
  }

  /** The three lines of the worked example below are single, non-blank
      lines without a stray `\r` or byte-order mark. */
  lemma ExampleLineShapes(h: string, l1: string, l2: string)
    requires h == "phone,message"
    requires l1 == "\"123,456\",Hi"
    requires l2 == "0091234,\"Hello, \"\"world\"\"\""
    ensures '\n' !in h && '\n' !in l1 && '\n' !in l2
    ensures !IsBlank(h) && !IsBlank(l1) && !IsBlank(l2)
    ensures h[0] != BOM && h[|h| - 1] != '\r' && l1[|l1| - 1] != '\r'
  {
    assert !IsSpace(h[0]) && !IsSpace(l1[0]) && !IsSpace(l2[0]);
  }

  /** A worked example, the file of three lines `h`, `l1` and `l2`: a
      header, a row whose quoted phone holds a comma, and a row whose quoted
      message holds a comma and escaped quotes. The lines are parameters
      fixed by `requires`, because the verifier unrolls `Fields` and `SplitOn`
      without bound on literal arguments. */
  lemma ParseExample(h: string, l1: string, l2: string)
    requires h == "phone,message"
    requires l1 == "\"123,456\",Hi"
    requires l2 == "0091234,\"Hello, \"\"world\"\"\""
    ensures Parse(h + "\n" + l1 + "\n" + l2) ==
      Ok([Contact("123,456", "Hi"), Contact("0091234", "Hello, \"world\"")])
  {
    ExampleLineShapes(h, l1, l2);
    ExampleHeader(h);
    ExampleQuotedPhone(l1);
    ExampleQuotedMessage(l2);
    ParseTwoRows(h, l1, l2, "123,456", "Hi", "0091234", "Hello, \"world\"");
  }
}
