/** The text encoders of the corpus builder (src/generate-corpus.py:18-40):
    `reduce_ident`, which flattens the indentation of one body line, and
    `prettify_docstring`, which turns a docstring into one quoted line. */
module Encoder {
  import opened Text
  import opened ControlEscape

  // ---------------------------------------------------------------------------
  // reduce_ident
  // ---------------------------------------------------------------------------

  /** `reduce_ident(line, sep)`: the line stripped at both ends, after one `sep` per four
      characters of leading whitespace. A line that is only whitespace becomes empty (the
      right strip runs first, so no indentation is counted for it), and the result never ends
      in whitespace. */
  function ReduceIdent(line: string, sep: string): string {
    var rstripped := RStrip(line);
    var stripped := LStrip(rstripped);
    LStripFacts(rstripped);
    var nSpaces := |rstripped| - |stripped|;
    Repeat(sep, nSpaces / 4) + stripped
  }

  /** A line that is only whitespace reduces to nothing. */
  lemma ReduceIdentBlank(line: string, sep: string)
    ensures Strip(line) == [] ==> ReduceIdent(line, sep) == []
  {
    ReduceIdentFacts(line);
    var t := RStrip(line);
    if LStrip(t) == [] {
      assert t == [];
    }
  }

  /** Any other line reduces to one separator per four leading whitespace characters (the
      division rounding down) followed by the line stripped at both ends. */
  lemma ReduceIdentIndent(line: string, sep: string)
    ensures Strip(line) != [] ==>
      ReduceIdent(line, sep) == Repeat(sep, LeadingSpaces(line) / 4) + Strip(line)
  {
    ReduceIdentFacts(line);
    var t := RStrip(line);
    var u := LStrip(t);
    if u != [] {
      var n := LeadingSpaces(line);
      assert |t| - |u| == n;
      var k := n / 4;
      assert ReduceIdent(line, sep) == Repeat(sep, k) + u;
    }
  }

  /** The reduced line never ends in whitespace. */
  lemma ReduceIdentNoTrailingSpace(line: string, sep: string)
    ensures var r := ReduceIdent(line, sep); r == [] || !IsSpace(r[|r| - 1])
  {
    ReduceIdentFacts(line);
    var u := LStrip(RStrip(line));
    var r := ReduceIdent(line, sep);
    if u != [] {
      assert r[|r| - 1] == u[|u| - 1];
    }
  }

  /** The facts about the two strips that `ReduceIdent`'s contract rests on. */
  lemma ReduceIdentFacts(line: string)
    ensures var t := RStrip(line);
      && (LStrip(t) == [] ==> t == [])
      && (LStrip(t) != [] ==> |t| - |LStrip(t)| == LeadingSpaces(line))
      && (LStrip(t) != [] ==> !IsSpace(LStrip(t)[|LStrip(t)| - 1]))
  {
    var t := RStrip(line);
    var u := LStrip(t);
    RStripFacts(line);
    LStripFacts(t);
    if t != [] {
      assert !IsSpace(t[|t| - 1]);
      if u != [] {
        assert u[|u| - 1] == t[|t| - 1];
        LeadingSpacesIsLStrip(t);
        assert t == line[..|t|] && !IsSpace(line[|t| - 1]);
        LeadingSpacesOfPrefix(line, |t|);
      }
    }
  }

  // ---------------------------------------------------------------------------
  // prettify_docstring
  // ---------------------------------------------------------------------------

  /** A stripped line that `prettify_docstring` keeps: it holds an alphanumeric character
      (which also makes it non-empty). */
  predicate IsContentLine(line: string) {
    line != "" && HasAlnum(line)
  }

  /** The stripped lines that hold an alphanumeric character, in their original order. */
  function ContentLines(lines: seq<string>): seq<string>
    decreases |lines|
  {
    if lines == [] then []
    else
      var t := Strip(lines[|lines| - 1]);
      ContentLines(lines[..|lines| - 1]) + (if IsContentLine(t) then [t] else [])
  }

  /** The escaped docstring whose lines `prettify_docstring` filters: sentinels doubled
      first, then every single quote preceded by a backslash. */
  function EscapedDocstring(doc: string): string {
    Replace(Escape(doc), "'", "\\'")
  }

  /** The value of `prettify_docstring(doc)`. */
  function PrettyDocstring(doc: string): string {
    "'" + Join(ContentLines(Split(EscapedDocstring(doc), '\n')), " DCNL ") + "'"
  }

  /** `prettify_docstring(docstr)`: escape, split into lines, keep the stripped lines that
      hold an alphanumeric character, join them with " DCNL " and quote the result. */
  method PrettifyDocstring(doc: string) returns (pretty: string)
    ensures pretty == PrettyDocstring(doc)
  {
    var escaped := Escape(doc);
    escaped := Replace(escaped, "'", "\\'");
    var lines := Split(escaped, '\n');
    var kept: seq<string> := [];
    var i := 0;
    while i < |lines|
      invariant 0 <= i <= |lines|
      invariant kept == ContentLines(lines[..i])
    {
      var line := Strip(lines[i]);
      assert lines[..i + 1][..i] == lines[..i];
      if line != "" && HasAlnum(line) {
        kept := kept + [line];
      }
      i := i + 1;
    }
    assert lines[..|lines|] == lines;
    pretty := "'" + Join(kept, " DCNL ") + "'";
  }

  // ---------------------------------------------------------------------------
  // Properties of the kept lines
  // ---------------------------------------------------------------------------

  /** Keeping lines distributes over concatenation, so the kept lines keep their order. */
  lemma {:induction false} ContentLinesAppend(a: seq<string>, b: seq<string>)
    ensures ContentLines(a + b) == ContentLines(a) + ContentLines(b)
    decreases |b|
  {
    if b != [] {
      var last := b[|b| - 1];
      assert (a + b)[..|a + b| - 1] == a + b[..|b| - 1];
      ContentLinesAppend(a, b[..|b| - 1]);
    } else {
      assert a + b == a;
    }
  }

  /** Every kept line holds an alphanumeric character and has no whitespace at either end;
      no more lines are kept than there were. */
  lemma {:induction false} ContentLinesAreContent(lines: seq<string>)
    ensures |ContentLines(lines)| <= |lines|
    ensures forall k :: 0 <= k < |ContentLines(lines)| ==>
      IsContentLine(ContentLines(lines)[k]) && Trimmed(ContentLines(lines)[k])
    decreases |lines|
  {
    if lines == [] {
      assert ContentLines(lines) == [];
    } else {
      var init := lines[..|lines| - 1];
      ContentLinesAreContent(init);
      var r := RStrip(lines[|lines| - 1]);
      var t := LStrip(r);
      RStripFacts(lines[|lines| - 1]);
      LStripFacts(r);
      if t != [] {
        assert t[|t| - 1] == r[|r| - 1];
      }
      assert Trimmed(t);
      var prev := ContentLines(init);
      var kept := ContentLines(lines);
      assert kept == prev + (if IsContentLine(t) then [t] else []);
      forall k | 0 <= k < |kept| ensures IsContentLine(kept[k]) && Trimmed(kept[k]) {
        if k < |prev| {
          assert kept[k] == prev[k];
        } else {
          assert kept[k] == t;
        }
      }
    }
  }

  /** A line is dropped exactly when its stripped form has no alphanumeric character. */
  lemma ContentLineKept(line: string)
    ensures ContentLines([line]) == (if HasAlnum(Strip(line)) then [Strip(line)] else [])
  {
    assert [line][..0] == [];
  }

  /** Lines none of which holds an alphanumeric character are all dropped. */
  lemma {:induction false} ContentLinesNone(lines: seq<string>)
    requires forall k :: 0 <= k < |lines| ==> !HasAlnum(lines[k])
    ensures ContentLines(lines) == []
    decreases |lines|
  {
    if lines != [] {
      var line := lines[|lines| - 1];
      var r := RStrip(line);
      var t := LStrip(r);
      RStripFacts(line);
      LStripFacts(r);
      forall i | 0 <= i < |t| ensures !IsAlnum(t[i]) {
        assert t[i] == line[|r| - |t| + i];
      }
      ContentLinesNone(lines[..|lines| - 1]);
    }
  }

  // ---------------------------------------------------------------------------
  // The quoting of prettify_docstring
  // ---------------------------------------------------------------------------

  /** Every single quote in `s` comes right after a backslash (so none is first). */
  predicate QuotesEscaped(s: string) {
    forall i {:trigger s[i]} | 0 <= i < |s| :: s[i] == '\'' ==> 0 < i && s[i - 1] == '\\'
  }

  /** Every single quote in `s` comes right after a backslash, where the character before
      `s[0]` is `prev`. */
  predicate QuotesEscapedAfter(prev: char, s: string) {
    forall i {:trigger s[i]} | 0 <= i < |s| :: s[i] == '\'' ==> (if i == 0 then prev else s[i - 1]) == '\\'
  }

  lemma QuotesEscapedConcat(a: string, b: string)
    requires QuotesEscaped(a) && QuotesEscaped(b)
    ensures QuotesEscaped(a + b)
  {
    forall i | 0 <= i < |a + b| && (a + b)[i] == '\'' ensures 0 < i && (a + b)[i - 1] == '\\' {
      if i >= |a| {
        assert b[i - |a|] == '\'';
      }
    }
  }

  /** After `replace("'", "\\'")` every single quote follows a backslash. */
  lemma {:induction false} ReplaceEscapesQuotes(s: string)
    ensures QuotesEscaped(Replace(s, "'", "\\'"))
    decreases |s|
  {
    if |s| >= 1 {
      ReplaceEscapesQuotes(s[1..]);
      if s[..1] == "'" {
        QuotesEscapedConcat("\\'", Replace(s[1..], "'", "\\'"));
      } else {
        assert s[0] != '\'';
        QuotesEscapedConcat([s[0]], Replace(s[1..], "'", "\\'"));
      }
    }
  }

  /** With a character other than a backslash before it, `s` has its quotes escaped. */
  lemma QuotesEscapedFrom(prev: char, s: string)
    requires prev != '\\' && QuotesEscapedAfter(prev, s)
    ensures QuotesEscaped(s)
  {
    forall i | 0 <= i < |s| && s[i] == '\'' ensures 0 < i && s[i - 1] == '\\' {
      assert (if i == 0 then prev else s[i - 1]) == '\\';
    }
  }

  /** Splitting keeps quotes escaped: the first piece has the same character before it as the
      whole, the others a newline. */
  lemma {:induction false} SplitQuotesEscaped(prev: char, s: string)
    requires QuotesEscapedAfter(prev, s)
    ensures QuotesEscapedAfter(prev, Split(s, '\n')[0])
    ensures forall k :: 1 <= k < |Split(s, '\n')| ==> QuotesEscapedAfter('\n', Split(s, '\n')[k])
    decreases |s|
  {
    if s != [] {
      var rest := Split(s[1..], '\n');
      assert QuotesEscapedAfter(s[0], s[1..]) by {
        forall i | 0 <= i < |s[1..]| && s[1..][i] == '\''
          ensures (if i == 0 then s[0] else s[1..][i - 1]) == '\\'
        {
          assert s[i + 1] == '\'';
        }
      }
      SplitQuotesEscaped(s[0], s[1..]);
      if s[0] == '\n' {
        assert Split(s, '\n') == [""] + rest;
      } else {
        var first := [s[0]] + rest[0];
        assert Split(s, '\n') == [first] + rest[1..];
        forall i | 0 <= i < |first| && first[i] == '\''
          ensures (if i == 0 then prev else first[i - 1]) == '\\'
        {
          if i == 0 {
            assert first[0] == s[0];
          } else {
            assert first[i] == rest[0][i - 1] == '\'';
            assert QuotesEscapedAfter(s[0], rest[0]);
            assert first[i - 1] == (if i == 1 then s[0] else rest[0][i - 2]);
          }
        }
      }
    }
  }

  /** Stripping keeps quotes escaped. */
  lemma StripQuotesEscaped(s: string)
    requires QuotesEscaped(s)
    ensures QuotesEscaped(Strip(s))
  {
    var r := RStrip(s);
    RStripFacts(s);
    var t := LStrip(r);
    LStripFacts(r);
    var k := |r| - |t|;
    assert k > 0 ==> IsSpace(r[k - 1]);
    forall i | 0 <= i < |t| && t[i] == '\'' ensures 0 < i && t[i - 1] == '\\' {
      assert r[k + i] == '\'';
      assert 0 < k + i && r[k + i - 1] == '\\';
    }
  }

  /** Every kept line has its quotes escaped when every line had. */
  lemma {:induction false} ContentLinesQuotesEscaped(lines: seq<string>)
    requires forall k :: 0 <= k < |lines| ==> QuotesEscaped(lines[k])
    ensures forall k :: 0 <= k < |ContentLines(lines)| ==> QuotesEscaped(ContentLines(lines)[k])
    decreases |lines|
  {
    if lines != [] {
      ContentLinesQuotesEscaped(lines[..|lines| - 1]);
      StripQuotesEscaped(lines[|lines| - 1]);
    }
  }

  /** Joining keeps quotes escaped when the separator holds no quote. */
  lemma {:induction false} JoinQuotesEscaped(xs: seq<string>, sep: string)
    requires QuotesEscaped(sep) && forall k :: 0 <= k < |xs| ==> QuotesEscaped(xs[k])
    ensures QuotesEscaped(Join(xs, sep))
    decreases |xs|
  {
    if |xs| > 1 {
      JoinQuotesEscaped(xs[1..], sep);
      QuotesEscapedConcat(xs[0], sep);
      QuotesEscapedConcat(xs[0] + sep, Join(xs[1..], sep));
    }
  }

  /** `prettify_docstring` returns a quoted string: it begins and ends with a single quote and
      every single quote in between follows a backslash. In particular it is never empty, so
      the `pretty_docstring == ""` test of `process_function` never rejects a record. */
  lemma PrettyDocstringQuoted(doc: string)
    ensures var r := PrettyDocstring(doc);
      && |r| >= 2 && r[0] == '\'' && r[|r| - 1] == '\''
      && forall i :: 0 < i < |r| - 1 && r[i] == '\'' ==> r[i - 1] == '\\'
  {
    var escaped := EscapedDocstring(doc);
    ReplaceEscapesQuotes(Escape(doc));
    assert QuotesEscapedAfter('\n', escaped);
    var pieces := Split(escaped, '\n');
    SplitQuotesEscaped('\n', escaped);
    forall k | 0 <= k < |pieces| ensures QuotesEscaped(pieces[k]) {
      QuotesEscapedFrom('\n', pieces[k]);
    }
    ContentLinesQuotesEscaped(pieces);
    var lines := ContentLines(pieces);
    JoinQuotesEscaped(lines, " DCNL ");
    var j := Join(lines, " DCNL ");
    var r := "'" + j + "'";
    forall i | 0 < i < |r| - 1 && r[i] == '\'' ensures r[i - 1] == '\\' {
      assert j[i - 1] == '\'';
    }
  }

  /** A docstring without an alphanumeric character, such as one made only of rule lines
      like `----`, is encoded as `''`: no line survives. */
  lemma SeparatorOnlyDocstring(doc: string)
    requires !HasAlnum(doc)
    ensures PrettyDocstring(doc) == "''"
  {
    assert !Contains(doc, "DCQT") && !Contains(doc, "DCNL") by {
      forall i | 0 <= i < |doc| ensures doc[i] != 'D' {
        assert !IsAlnum(doc[i]);
      }
      forall i | 0 <= i <= |doc| - 4 ensures !OccursAt(doc, i, "DCQT") && !OccursAt(doc, i, "DCNL") {
        MismatchAt(doc, i, "DCQT", 0);
        MismatchAt(doc, i, "DCNL", 0);
      }
    }
    EscapeUnchanged(doc);
    var escaped := EscapedDocstring(doc);
    ReplaceChars(doc, "'", "\\'");
    var pieces := Split(escaped, '\n');
    JoinSplit(escaped, '\n');
    forall k | 0 <= k < |pieces| ensures !HasAlnum(pieces[k]) {
      PieceChars(pieces, k, '\n');
      forall i | 0 <= i < |pieces[k]| ensures !IsAlnum(pieces[k][i]) {
        assert pieces[k][i] in escaped;
      }
    }
    ContentLinesNone(pieces);
  }

  /** The characters of a piece of a split are characters of the joined string. */
  lemma PieceChars(pieces: seq<string>, k: nat, sep: char)
    requires k < |pieces|
    ensures forall c :: c in pieces[k] ==> c in Join(pieces, [sep])
    decreases |pieces|
  {
    if |pieces| > 1 {
      if k > 0 {
        PieceChars(pieces[1..], k - 1, sep);
      }
    }
  }
}
