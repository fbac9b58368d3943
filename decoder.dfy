/** The record decoding at the start of the graph stage (src/generate-graphs.py:107-114): the
    body and the docstring of every corpus record are turned back into text by chains of
    replace-all steps before the body is parsed again.

    `textwrap.dedent`, which the body goes through last, is library code and is the parameter
    `dedent`; the properties of the decoded body are stated before it. */
module Decoder {
  import opened Text
  import opened ControlEscape
  import opened Literals
  import opened Extractor

  /** `body.replace("DCNL ", "\n").replace(" DCSP ", "\t").replace("DCSP ", "\t")` */
  function DecodeBody(body: string): string {
    Replace(Replace(Replace(body, "DCNL ", "\n"), " DCSP ", "\t"), "DCSP ", "\t")
  }

  /** `doc.replace("DCNL ", "\n").replace("DCSP ", "\t")` */
  function DecodeDocstring(doc: string): string {
    Replace(Replace(doc, "DCNL ", "\n"), "DCSP ", "\t")
  }

  /** The two lists `main` builds from the corpus: the decoded and dedented bodies, and the
      decoded docstrings, one of each per record. */
  function DecodeCorpus(corpus: seq<Record>, dedent: string -> string)
    : (lists: (seq<string>, seq<string>))
  {
    (seq(|corpus|, i requires 0 <= i < |corpus| => dedent(DecodeBody(corpus[i].body))),
     seq(|corpus|, i requires 0 <= i < |corpus| => DecodeDocstring(corpus[i].docstring)))
  }

  // ---------------------------------------------------------------------------
  // What the decoders leave behind
  // ---------------------------------------------------------------------------

  /** No "DCNL " and no "DCSP " is left in a decoded body. */
  lemma DecodeBodyClean(body: string)
    ensures !Contains(DecodeBody(body), "DCNL ") && !Contains(DecodeBody(body), "DCSP ")
  {
    var s1 := Replace(body, "DCNL ", "\n");
    var s2 := Replace(s1, " DCSP ", "\t");
    ReplaceKeepsOut(body, "DCNL ", "\n", "DCNL ");
    ReplaceKeepsOut(s1, " DCSP ", "\t", "DCNL ");
    ReplaceKeepsOut(s2, "DCSP ", "\t", "DCNL ");
    ReplaceKeepsOut(s2, "DCSP ", "\t", "DCSP ");
  }

  /** No "DCNL " and no "DCSP " is left in a decoded docstring. */
  lemma DecodeDocstringClean(doc: string)
    ensures !Contains(DecodeDocstring(doc), "DCNL ") && !Contains(DecodeDocstring(doc), "DCSP ")
  {
    var s1 := Replace(doc, "DCNL ", "\n");
    ReplaceKeepsOut(doc, "DCNL ", "\n", "DCNL ");
    ReplaceKeepsOut(s1, "DCSP ", "\t", "DCNL ");
    ReplaceKeepsOut(s1, "DCSP ", "\t", "DCSP ");
  }

  /** The assertion of `main`: there are as many bodies as docstrings, one per record, and
      every decoded docstring is free of "DCNL " and "DCSP ". */
  lemma DecodeCorpusAligned(corpus: seq<Record>, dedent: string -> string)
    ensures |DecodeCorpus(corpus, dedent).0| == |DecodeCorpus(corpus, dedent).1| == |corpus|
    ensures forall i :: 0 <= i < |corpus| ==>
      DecodeCorpus(corpus, dedent).1[i] == DecodeDocstring(corpus[i].docstring)
      && !Contains(DecodeCorpus(corpus, dedent).1[i], "DCNL ")
      && !Contains(DecodeCorpus(corpus, dedent).1[i], "DCSP ")
  {
    forall i | 0 <= i < |corpus|
      ensures !Contains(DecodeDocstring(corpus[i].docstring), "DCNL ")
      ensures !Contains(DecodeDocstring(corpus[i].docstring), "DCSP ")
    {
      DecodeDocstringClean(corpus[i].docstring);
    }
  }

  // ---------------------------------------------------------------------------
  // Where decoding is the identity
  // ---------------------------------------------------------------------------

  /** An occurrence of " DCSP " holds one of "DCSP ". */
  lemma InnerOccurrence(s: string)
    ensures Contains(s, " DCSP ") ==> Contains(s, "DCSP ")
  {
    if Contains(s, " DCSP ") {
      var i :| 0 <= i <= |s| - 6 && OccursAt(s, i, " DCSP ");
      assert s[i + 1..i + 6] == s[i..i + 6][1..];
      assert OccursAt(s, i + 1, "DCSP ");
    }
  }

  /** Text without "DCNL " and "DCSP " decodes to itself: the escapes DCQT, DCQS and DCTB,
      and every other character, are left alone. */
  lemma DecodeBodyUnchanged(body: string)
    requires !Contains(body, "DCNL ") && !Contains(body, "DCSP ")
    ensures DecodeBody(body) == body
  {
    InnerOccurrence(body);
    ReplaceAbsent(body, "DCNL ", "\n");
    ReplaceAbsent(body, " DCSP ", "\t");
    ReplaceAbsent(body, "DCSP ", "\t");
  }

  /** The same for docstrings. */
  lemma DecodeDocstringUnchanged(doc: string)
    requires !Contains(doc, "DCNL ") && !Contains(doc, "DCSP ")
    ensures DecodeDocstring(doc) == doc
  {
    ReplaceAbsent(doc, "DCNL ", "\n");
    ReplaceAbsent(doc, "DCSP ", "\t");
  }

  // ---------------------------------------------------------------------------
  // What decoding leaves alone in every record
  // ---------------------------------------------------------------------------

  /** The escapes written by the encoder that no decode step undoes. */
  predicate EscapeWord(w: string) {
    w == "DCQT" || w == "DCQS" || w == "DCTB"
  }

  /** No decode pattern can overlap an escape word: every pattern ends in a space, and none
      starts on, or contains, the word's later characters. */
  lemma EscapeWordIsolated(w: string, pat: string)
    requires EscapeWord(w)
    requires pat == "DCNL " || pat == " DCSP " || pat == "DCSP "
    ensures Isolated(w, pat)
  {
    assert |w| == 4 && w[0] == 'D' && w[1] == 'C' && (w[2] == 'Q' || w[2] == 'T');
    assert w[3] == 'T' || w[3] == 'S' || w[3] == 'B';
    assert pat[|pat| - 1] == ' ' && (pat[0] == 'D' || pat[0] == ' ');
    forall k | 0 <= k < |pat| - |w| ensures !OccursAt(pat, k, w) {
      assert pat[k] != w[0] || pat[k + 2] != w[2];
    }
  }

  /** An escape word anywhere in a body comes out of decoding as it went in, and the text on
      either side of it is decoded on its own: `DCQT`, `DCQS` and `DCTB` survive in every
      record. */
  lemma DecodeBodyKeepsEscape(a: string, w: string, b: string)
    requires EscapeWord(w)
    ensures DecodeBody(a + w + b) == DecodeBody(a) + w + DecodeBody(b)
  {
    var p1, p2, p3 := "DCNL ", " DCSP ", "DCSP ";
    EscapeWordIsolated(w, p1);
    EscapeWordIsolated(w, p2);
    EscapeWordIsolated(w, p3);
    ReplaceAround(a, w, b, p1, "\n");
    var a1, b1 := Replace(a, p1, "\n"), Replace(b, p1, "\n");
    ReplaceAround(a1, w, b1, p2, "\t");
    var a2, b2 := Replace(a1, p2, "\t"), Replace(b1, p2, "\t");
    ReplaceAround(a2, w, b2, p3, "\t");
  }

  /** The same for docstrings. */
  lemma DecodeDocstringKeepsEscape(a: string, w: string, b: string)
    requires EscapeWord(w)
    ensures DecodeDocstring(a + w + b) == DecodeDocstring(a) + w + DecodeDocstring(b)
  {
    var p1, p2 := "DCNL ", "DCSP ";
    EscapeWordIsolated(w, p1);
    EscapeWordIsolated(w, p2);
    ReplaceAround(a, w, b, p1, "\n");
    ReplaceAround(Replace(a, p1, "\n"), w, Replace(b, p1, "\n"), p2, "\t");
  }

  // ---------------------------------------------------------------------------
  // Where decoding is not the inverse of the encoding
  // ---------------------------------------------------------------------------

  /** A space inside a string literal is written as " DCSP " and comes back as a tab. */
  lemma LiteralSpaceBecomesTab()
    ensures EscapeLiteral(" ") == " DCSP "
    ensures DecodeBody(EscapeLiteral(" ")) == "\t"
  {
    SpaceEscaped(" ");
    SpaceSentinelDecoded();
  }

  lemma SpaceEscaped(sp: string)
    requires sp == " "
    ensures EscapeLiteral(sp) == " DCSP "
  {
    SpaceSurvivesQuoting(sp);
    SpaceToSentinel(sp);
    SentinelHasNoTab(" DCSP ");
  }

  lemma SpaceSurvivesQuoting(sp: string)
    requires sp == " "
    ensures Replace(Replace(Replace(sp, "DCQS", "DCQSDCQS"), " DCSP ", " DCQSDCSP "), " DCTB ", " DCQSDCTB ") == sp
  {
    ShortUnchanged(sp, "DCQS", "DCQSDCQS");
    ShortUnchanged(sp, " DCSP ", " DCQSDCSP ");
    ShortUnchanged(sp, " DCTB ", " DCQSDCTB ");
  }

  lemma SpaceToSentinel(sp: string)
    requires sp == " "
    ensures Replace(sp, " ", " DCSP ") == " DCSP "
  {
    assert sp[..1] == " " && sp[1..] == "";
  }

  lemma SentinelHasNoTab(e: string)
    requires e == " DCSP "
    ensures Replace(e, "\t", " DCTB ") == e
  {
    assert '\t' in "\t" && '\t' !in e;
    AbsentChar(e, "\t", '\t');
    ReplaceAbsent(e, "\t", " DCTB ");
  }

  /** Text shorter than the pattern is left alone. */
  lemma ShortUnchanged(s: string, pat: string, rep: string)
    requires pat != [] && |s| < |pat|
    ensures Replace(s, pat, rep) == s
  {
  }

  lemma SpaceSentinelDecoded()
    ensures DecodeBody(" DCSP ") == "\t"
  {
    var e := " DCSP ";
    assert 'N' in "DCNL " && 'N' !in e;
    AbsentChar(e, "DCNL ", 'N');
    ReplaceAbsent(e, "DCNL ", "\n");
    assert e[..6] == e && e[6..] == "";
    assert Replace(e, " DCSP ", "\t") == "\t";
    ShortUnchanged("\t", "DCSP ", "\t");
  }

  /** Text that holds "DCNL " is escaped to "DCQTDCNL ", which decodes to DCQT and a line
      break: the DCQT escape is never undone. */
  lemma EscapedSeparatorNotRestored()
    ensures Escape("DCNL ") == "DCQTDCNL "
    ensures DecodeBody(Escape("DCNL ")) == "DCQT\n"
  {
    SeparatorEscaped("DCNL ");
    FirstDecodeStep("DCQTDCNL ");
    NoSpaceSentinel("DCQT\n");
  }

  lemma SeparatorEscaped(s: string)
    requires s == "DCNL "
    ensures Escape(s) == "DCQTDCNL "
  {
    assert 'Q' in "DCQT" && 'Q' !in s;
    AbsentChar(s, "DCQT", 'Q');
    ReplaceAbsent(s, "DCQT", "DCQTDCQT");
    assert s[..4] == "DCNL" && s[4..] == " ";
    ShortUnchanged(s[4..], "DCNL", "DCQTDCNL");
  }

  lemma NoSpaceSentinel(d: string)
    requires d == "DCQT\n"
    ensures Replace(Replace(d, " DCSP ", "\t"), "DCSP ", "\t") == d
  {
    assert 'S' in " DCSP " && 'S' in "DCSP " && 'S' !in d;
    AbsentChar(d, " DCSP ", 'S');
    ReplaceAbsent(d, " DCSP ", "\t");
    AbsentChar(d, "DCSP ", 'S');
    ReplaceAbsent(d, "DCSP ", "\t");
  }

  /** The first decode step on "DCQTDCNL " copies "DCQT" and then meets "DCNL ". */
  lemma FirstDecodeStep(e: string)
    requires e == "DCQTDCNL "
    ensures Replace(e, "DCNL ", "\n") == "DCQT\n"
  {
    var a := "DCQT";
    var x := "DCNL ";
    assert e == a + x;
    forall i | 0 <= i < |a| ensures !OccursAt(a + x, i, "DCNL ") {
      if i == 0 || i == 1 {
        MismatchAt(a + x, i, "DCNL ", 2 - i);
      } else {
        MismatchAt(a + x, i, "DCNL ", 0);
      }
    }
    ReplaceSkipsPrefix(a, x, "DCNL ", "\n");
    assert x[..5] == "DCNL " && x[5..] == "";
    assert Replace(x, "DCNL ", "\n") == "\n";
  }
}
