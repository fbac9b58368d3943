/** `escape_control_strings` (src/generate-corpus.py:43-44). The corpus writes source text into
    one flat string and uses the word DCNL as its line separator, so a DCNL or DCQT that the text
    already holds is first doubled with the escape word DCQT. */
module ControlEscape {
  import opened Text

  /** `s.replace("DCQT", "DCQTDCQT").replace("DCNL", "DCQTDCNL")` */
  function Escape(s: string): string {
    Replace(Replace(s, "DCQT", "DCQTDCQT"), "DCNL", "DCQTDCNL")
  }

  /** The same escape done in one left-to-right pass: the reference definition that the two
      chained replacements are proved to agree with. */
  function EscapeScan(s: string): string
    decreases |s|
  {
    if |s| >= 4 && s[..4] == "DCQT" then "DCQTDCQT" + EscapeScan(s[4..])
    else if |s| >= 4 && s[..4] == "DCNL" then "DCQTDCNL" + EscapeScan(s[4..])
    else if s == [] then []
    else [s[0]] + EscapeScan(s[1..])
  }

  /** The left-to-right unescape that the escape is designed for: DCQT followed by a
      sentinel stands for that sentinel. */
  function Unescape(s: string): string
    decreases |s|
  {
    if |s| >= 8 && s[..8] == "DCQTDCQT" then "DCQT" + Unescape(s[8..])
    else if |s| >= 8 && s[..8] == "DCQTDCNL" then "DCNL" + Unescape(s[8..])
    else if s == [] then []
    else [s[0]] + Unescape(s[1..])
  }

  /** Every DCNL in `s` comes right after a DCQT. */
  predicate NewlinesGuarded(s: string) {
    forall i | 0 <= i <= |s| - 4 :: OccursAt(s, i, "DCNL") ==> 4 <= i && OccursAt(s, i - 4, "DCQT")
  }

  /** Text holding neither sentinel passes through the escape unchanged. */
  lemma EscapeUnchanged(s: string)
    requires !Contains(s, "DCQT") && !Contains(s, "DCNL")
    ensures Escape(s) == s
  {
    ReplaceAbsent(s, "DCQT", "DCQTDCQT");
    ReplaceAbsent(s, "DCNL", "DCQTDCNL");
  }

  /** A prefix of the escaped text without the letter D was copied from the input. */
  lemma EscapePrefixCopied(t: string, w: string)
    requires 'D' !in w && |w| <= |Escape(t)| && Escape(t)[..|w|] == w
    ensures |w| <= |t| && t[..|w|] == w
  {
    ReplacePrefixCopied(Replace(t, "DCQT", "DCQTDCQT"), "DCNL", "DCQTDCNL", w);
    ReplacePrefixCopied(t, "DCQT", "DCQTDCQT", w);
  }

  /** The two chained replacements are the single-pass escape. */
  lemma {:induction false} EscapeIsSinglePass(s: string)
    ensures Escape(s) == EscapeScan(s)
    decreases |s|
  {
    if |s| >= 4 && s[..4] == "DCQT" {
      var y := Replace(s[4..], "DCQT", "DCQTDCQT");
      var z := "DCQTDCQT" + y;
      assert Replace(s, "DCQT", "DCQTDCQT") == z;
      forall i | 0 <= i < 8 ensures !OccursAt(z, i, "DCNL") {
        if i == 0 || i == 4 { MismatchAt(z, i, "DCNL", 2); } else { MismatchAt(z, i, "DCNL", 0); }
      }
      ReplaceSkipsPrefix("DCQTDCQT", y, "DCNL", "DCQTDCNL");
      EscapeIsSinglePass(s[4..]);
    } else if |s| >= 4 && s[..4] == "DCNL" {
      var y := Replace(s[4..], "DCQT", "DCQTDCQT");
      assert s == "DCNL" + s[4..];
      forall i | 0 <= i < 4 ensures !OccursAt(s, i, "DCQT") {
        if i == 0 { MismatchAt(s, i, "DCQT", 2); } else { MismatchAt(s, i, "DCQT", 0); }
      }
      ReplaceSkipsPrefix("DCNL", s[4..], "DCQT", "DCQTDCQT");
      var z := "DCNL" + y;
      assert z[..4] == "DCNL" && z[4..] == y;
      assert Replace(z, "DCNL", "DCQTDCNL") == "DCQTDCNL" + Replace(y, "DCNL", "DCQTDCNL");
      EscapeIsSinglePass(s[4..]);
    } else if s != [] {
      var y := Replace(s[1..], "DCQT", "DCQTDCQT");
      assert Replace(s, "DCQT", "DCQTDCQT") == [s[0]] + y;
      ReplaceHeadOccurrence(s, "DCQT", "DCQTDCQT", "DCNL");
      ReplaceSkipsPrefix([s[0]], y, "DCNL", "DCQTDCNL");
      EscapeIsSinglePass(s[1..]);
    }
  }

  /** Only the first character of a sentinel is a `D`. */
  lemma SentinelTail(w: string)
    requires w == "DCQT" || w == "DCNL"
    ensures 'D' !in w[1..]
  {
    assert w[1..] == [w[1], w[2], w[3]];
  }

  /** An occurrence of a sentinel `w` at the start of `[s[0]] + EscapeScan(s[1..])` is one at
      the start of `s`. */
  lemma ScanHead(s: string, w: string)
    requires s != [] && (w == "DCQT" || w == "DCNL")
    ensures OccursAt([s[0]] + EscapeScan(s[1..]), 0, w) ==> OccursAt(s, 0, w)
  {
    var e := EscapeScan(s[1..]);
    if OccursAt([s[0]] + e, 0, w) {
      SentinelTail(w);
      assert e[..|w| - 1] == w[1..];
      EscapeIsSinglePass(s[1..]);
      EscapePrefixCopied(s[1..], w[1..]);
      assert s[..|w|] == [s[0]] + s[1..][..|w| - 1];
    }
  }

  /** Unescaping the single-pass escape gives back the input. */
  lemma {:induction false} UnescapeScan(s: string)
    ensures Unescape(EscapeScan(s)) == s
    decreases |s|
  {
    if |s| >= 4 && s[..4] == "DCQT" {
      var e := EscapeScan(s[4..]);
      assert ("DCQTDCQT" + e)[..8] == "DCQTDCQT" && ("DCQTDCQT" + e)[8..] == e;
      UnescapeScan(s[4..]);
      assert s == "DCQT" + s[4..];
    } else if |s| >= 4 && s[..4] == "DCNL" {
      var e := EscapeScan(s[4..]);
      assert ("DCQTDCNL" + e)[..8] == "DCQTDCNL" && ("DCQTDCNL" + e)[8..] == e;
      UnescapeScan(s[4..]);
      assert s == "DCNL" + s[4..];
    } else if s != [] {
      UnescapeCopiedHead(s);
      UnescapeScan(s[1..]);
    }
  }

  /** A first character that starts no sentinel is copied by the escape and by the unescape. */
  lemma UnescapeCopiedHead(s: string)
    requires s != [] && !(|s| >= 4 && (s[..4] == "DCQT" || s[..4] == "DCNL"))
    ensures Unescape(EscapeScan(s)) == [s[0]] + Unescape(EscapeScan(s[1..]))
  {
    var e := EscapeScan(s[1..]);
    var x := [s[0]] + e;
    assert EscapeScan(s) == x;
    ScanHead(s, "DCQT");
    assert !OccursAt(s, 0, "DCQT");
    UnescapePlainHead(x);
    assert x[0] == s[0] && x[1..] == e;
  }

  /** Text that does not start with DCQT loses its first character to no escape. */
  lemma UnescapePlainHead(x: string)
    requires x != [] && !OccursAt(x, 0, "DCQT")
    ensures Unescape(x) == [x[0]] + Unescape(x[1..])
  {
    if |x| >= 8 {
      assert x[..4] == x[..8][..4];
    }
  }

  /** Round trip: the escape loses nothing. */
  lemma UnescapeEscape(s: string)
    ensures Unescape(Escape(s)) == s
  {
    EscapeIsSinglePass(s);
    UnescapeScan(s);
  }

  /** Prefixing `c` keeps every DCNL guarded when the occurrences that start inside `c` are. */
  lemma GuardedAfterChunk(c: string, e: string)
    requires NewlinesGuarded(e)
    requires forall i :: 0 <= i < |c| && OccursAt(c + e, i, "DCNL") ==> 4 <= i && OccursAt(c + e, i - 4, "DCQT")
    ensures NewlinesGuarded(c + e)
  {
    var x := c + e;
    forall i | OccursAt(x, i, "DCNL") ensures 4 <= i && OccursAt(x, i - 4, "DCQT") {
      if i >= |c| {
        assert x[i..i + 4] == e[i - |c|..i - |c| + 4];
        assert OccursAt(e, i - |c|, "DCNL");
        assert x[|c|..] == e;
        OccursInSuffix(x, |c|, i - |c| - 4, "DCQT");
      }
    }
  }

  lemma {:induction false} ScanGuardsNewlines(s: string)
    ensures NewlinesGuarded(EscapeScan(s))
    decreases |s|
  {
    if |s| >= 4 && s[..4] == "DCQT" {
      var e := EscapeScan(s[4..]);
      ScanGuardsNewlines(s[4..]);
      var x := "DCQTDCQT" + e;
      forall i | 0 <= i < 8 ensures !OccursAt(x, i, "DCNL") {
        if i == 0 || i == 4 { MismatchAt(x, i, "DCNL", 2); } else { MismatchAt(x, i, "DCNL", 0); }
      }
      GuardedAfterChunk("DCQTDCQT", e);
    } else if |s| >= 4 && s[..4] == "DCNL" {
      var e := EscapeScan(s[4..]);
      ScanGuardsNewlines(s[4..]);
      var x := "DCQTDCNL" + e;
      forall i | 0 <= i < 8 && i != 4 ensures !OccursAt(x, i, "DCNL") {
        if i == 0 { MismatchAt(x, i, "DCNL", 2); } else { MismatchAt(x, i, "DCNL", 0); }
      }
      assert x[0..4] == "DCQT";
      GuardedAfterChunk("DCQTDCNL", e);
    } else if s != [] {
      var e := EscapeScan(s[1..]);
      ScanGuardsNewlines(s[1..]);
      ScanHead(s, "DCNL");
      assert !OccursAt(s, 0, "DCNL");
      GuardedAfterChunk([s[0]], e);
    }
  }

  /** Every DCNL that the escape leaves in its output comes right after a DCQT, so a DCNL
      that the encoder inserts afterwards (with a space before it) cannot be confused with one
      of the text's own. */
  lemma EscapeGuardsNewlines(s: string)
    ensures NewlinesGuarded(Escape(s))
  {
    EscapeIsSinglePass(s);
    ScanGuardsNewlines(s);
  }
}
