/** The docstring tokenizer of the graph stage (src/generate-graphs.py:23-30): the regular
    expression

      [^\s,'"`.():\[\]=*;>{\}+-/\\]+ | \\+ | \.+ | \(\) | {\} | \[\] | \(+ | \)+ | :+ | \[+
      | \]+ | {+ | \}+ | =+ | \*+ | ;+ | >+ | \++ | -+ | /+

    applied with `findall`, written as a scanner that goes left to right and tries the
    alternatives in this order at each position. The class `+-/` inside the first bracket is
    the range U+002B..U+002F, that is `+ , - . /`. */
module Tokenizer {
  import opened Text

  /** The characters the first alternative excludes besides whitespace. */
  const Excluded: string := ",'\"`.():[]=*;>{}+-/\\"

  /** The characters that can never start a token: whitespace and `, ' " `` ` ``. */
  predicate IsSkipped(c: char) {
    IsSpace(c) || c == ',' || c == '\'' || c == '"' || c == '`'
  }

  /** The characters that make up the single-character runs `\\+`, `\.+`, `\(+` ... `/+`. */
  predicate IsRunChar(c: char) {
    c == '\\' || c == '.' || c == '(' || c == ')' || c == ':' || c == '[' || c == ']'
    || c == '{' || c == '}' || c == '=' || c == '*' || c == ';' || c == '>' || c == '+'
    || c == '-' || c == '/'
  }

  /** A character of the first alternative's class: the excluded characters are exactly the
      skipped ones and the run characters (see `ExcludedChars`). */
  predicate IsWordChar(c: char) {
    !IsSkipped(c) && !IsRunChar(c)
  }

  /** The bracket pairs matched whole before runs of their opening bracket are tried. */
  predicate IsPair(a: char, b: char) {
    (a == '(' && b == ')') || (a == '{' && b == '}') || (a == '[' && b == ']')
  }

  /** The length of the longest prefix of `s` made of word characters. */
  function WordRun(s: string): (n: nat)
    ensures n <= |s|
    decreases |s|
  {
    if s != [] && IsWordChar(s[0]) then 1 + WordRun(s[1..]) else 0
  }

  /** The length of the longest prefix of `s` made of the character `c`. */
  function SameRun(s: string, c: char): (n: nat)
    ensures n <= |s|
    decreases |s|
  {
    if s != [] && s[0] == c then 1 + SameRun(s[1..], c) else 0
  }

  /** The length of the match at the start of `s`, trying the alternatives in order; 0 when
      none matches there. */
  function MatchLength(s: string): (n: nat)
    ensures n <= |s|
  {
    if s == [] then 0
    else if IsWordChar(s[0]) then WordRun(s)
    else if s[0] == '\\' || s[0] == '.' then SameRun(s, s[0])
    else if |s| >= 2 && IsPair(s[0], s[1]) then 2
    else if IsRunChar(s[0]) then SameRun(s, s[0])
    else 0
  }

  /** `docstring_regex_tokenizer.findall(s)`: scanning from the left, take the match at the
      current position and continue after it, or skip one character when nothing matches. */
  function FindAll(s: string): seq<string>
    decreases |s|
  {
    if s == [] then []
    else
      var n := MatchLength(s);
      if n == 0 then FindAll(s[1..]) else [s[..n]] + FindAll(s[n..])
  }

  /** `[t for t in ts if t is not None and len(t) > 0]` */
  function NonEmpty(ts: seq<string>): seq<string>
    decreases |ts|
  {
    if ts == [] then []
    else (if ts[0] != "" then [ts[0]] else []) + NonEmpty(ts[1..])
  }

  /** `docstring_tokenize(docstr)` */
  function DocstringTokenize(s: string): seq<string> {
    NonEmpty(FindAll(s))
  }

  /** The characters of `s` that are not skipped, in order. */
  function Kept(s: string): string
    decreases |s|
  {
    if s == [] then [] else (if IsSkipped(s[0]) then [] else [s[0]]) + Kept(s[1..])
  }

  /** The tokens joined together, without separators. */
  function Concat(ts: seq<string>): string
    decreases |ts|
  {
    if ts == [] then [] else ts[0] + Concat(ts[1..])
  }

  // ---------------------------------------------------------------------------
  // The shape of a match
  // ---------------------------------------------------------------------------

  lemma {:induction false} WordRunChars(s: string)
    ensures forall i :: 0 <= i < WordRun(s) ==> IsWordChar(s[i])
    decreases |s|
  {
    if s != [] && IsWordChar(s[0]) {
      WordRunChars(s[1..]);
      forall i | 0 < i < WordRun(s) ensures IsWordChar(s[i]) {
        assert s[i] == s[1..][i - 1];
      }
    }
  }

  lemma {:induction false} SameRunChars(s: string, c: char)
    ensures forall i :: 0 <= i < SameRun(s, c) ==> s[i] == c
    decreases |s|
  {
    if s != [] && s[0] == c {
      SameRunChars(s[1..], c);
      forall i | 0 < i < SameRun(s, c) ensures s[i] == c {
        assert s[i] == s[1..][i - 1];
      }
    }
  }

  /** A match is empty exactly when the first character is skipped: every other character
      starts one of the alternatives. */
  lemma MatchLengthZero(s: string)
    requires s != []
    ensures MatchLength(s) == 0 <==> IsSkipped(s[0])
  {
    var c := s[0];
    if IsSkipped(c) {
      SkippedNotRun(c);
    } else if IsWordChar(c) {
      assert WordRun(s) >= 1;
    } else {
      assert SameRun(s, c) >= 1;
    }
  }

  /** Whitespace and `, ' " `` ` `` start no run. */
  lemma SkippedNotRun(c: char)
    requires IsSkipped(c)
    ensures !IsRunChar(c)
  {
    if IsSpace(c) {
      assert !('(' <= c <= '}') || c == ' ';
    }
  }

  /** The class of the first alternative: the characters that are not whitespace and not in
      `Excluded`. */
  lemma ExcludedChars(c: char)
    ensures IsWordChar(c) <==> !IsSpace(c) && c !in Excluded
  {
    if c in Excluded {
      var k :| 0 <= k < |Excluded| && Excluded[k] == c;
      assert !IsWordChar(c);
    }
    if !IsSpace(c) && !IsWordChar(c) {
      assert c in Excluded;
    }
  }

  /** A match is a non-empty run of word characters, a non-empty run of one delimiter, or a
      bracket pair. */
  lemma MatchShape(s: string)
    requires MatchLength(s) > 0
    ensures var t := s[..MatchLength(s)];
      || (forall i :: 0 <= i < |t| ==> IsWordChar(t[i]))
      || (IsRunChar(t[0]) && forall i :: 0 <= i < |t| ==> t[i] == t[0])
      || (|t| == 2 && IsPair(t[0], t[1]))
  {
    WordRunChars(s);
    SameRunChars(s, s[0]);
  }

  lemma RunCharNotSkipped(c: char)
    requires IsRunChar(c)
    ensures !IsSkipped(c)
  {
    assert '(' <= c <= '}';
  }

  /** No match holds whitespace or one of `, ' " `` ` ``. */
  lemma MatchNotSkipped(s: string)
    ensures forall i :: 0 <= i < MatchLength(s) ==> !IsSkipped(s[i])
  {
    var n := MatchLength(s);
    if n > 0 {
      var c := s[0];
      if IsWordChar(c) {
        WordRunChars(s);
      } else if |s| >= 2 && IsPair(c, s[1]) {
        assert n == 2;
        PairCharNotSkipped(c, s[1]);
      } else {
        assert n == SameRun(s, c) && IsRunChar(c);
        SameRunChars(s, c);
        RunCharNotSkipped(c);
      }
    }
  }

  lemma PairCharNotSkipped(a: char, b: char)
    requires IsPair(a, b)
    ensures !IsSkipped(a) && !IsSkipped(b)
  {
  }

  // ---------------------------------------------------------------------------
  // Properties of the tokens
  // ---------------------------------------------------------------------------

  /** Every token is non-empty and holds no whitespace and none of `, ' " `` ` ``. */
  lemma {:induction false} TokensClean(s: string)
    ensures forall k :: 0 <= k < |FindAll(s)| ==>
      FindAll(s)[k] != [] && forall i :: 0 <= i < |FindAll(s)[k]| ==> !IsSkipped(FindAll(s)[k][i])
    decreases |s|
  {
    if s != [] {
      var n := MatchLength(s);
      if n == 0 {
        TokensClean(s[1..]);
      } else {
        TokensClean(s[n..]);
        MatchNotSkipped(s);
        var ts := FindAll(s);
        assert ts == [s[..n]] + FindAll(s[n..]);
        forall k | 0 <= k < |ts|
          ensures ts[k] != [] && forall i :: 0 <= i < |ts[k]| ==> !IsSkipped(ts[k][i])
        {
          if k > 0 {
            assert ts[k] == FindAll(s[n..])[k - 1];
          }
        }
      }
    }
  }

  /** The tokens, joined, are the input with the skipped characters removed: they come in
      input order, do not overlap, and lose no character that is not skipped. */
  lemma {:induction false} TokensCoverInput(s: string)
    ensures Concat(FindAll(s)) == Kept(s)
    decreases |s|
  {
    if s != [] {
      var n := MatchLength(s);
      MatchLengthZero(s);
      if n == 0 {
        TokensCoverInput(s[1..]);
        assert FindAll(s) == FindAll(s[1..]);
        assert Kept(s) == Kept(s[1..]);
      } else {
        TokensCoverInput(s[n..]);
        MatchNotSkipped(s);
        KeptAll(s[..n]);
        KeptAppend(s[..n], s[n..]);
        assert s[..n] + s[n..] == s;
        var ts := FindAll(s);
        assert ts == [s[..n]] + FindAll(s[n..]);
        assert ts[0] == s[..n] && ts[1..] == FindAll(s[n..]);
      }
    }
  }

  /** `a` can be obtained from `b` by deleting characters. */
  predicate IsSubsequence(a: string, b: string)
    decreases |b|
  {
    a == [] || (b != [] && ((a[0] == b[0] && IsSubsequence(a[1..], b[1..])) || IsSubsequence(a, b[1..])))
  }

  /** Deleting the skipped characters leaves a subsequence of the input. */
  lemma {:induction false} KeptIsSubsequence(s: string)
    ensures IsSubsequence(Kept(s), s)
    decreases |s|
  {
    if s != [] {
      KeptIsSubsequence(s[1..]);
      if IsSkipped(s[0]) {
        assert Kept(s) == Kept(s[1..]);
      } else {
        var k := Kept(s);
        assert k == [s[0]] + Kept(s[1..]);
        assert k[0] == s[0] && k[1..] == Kept(s[1..]);
      }
    }
  }

  /** The tokens, joined, are a subsequence of the input. */
  lemma TokensSubsequence(s: string)
    ensures IsSubsequence(Concat(FindAll(s)), s)
  {
    TokensCoverInput(s);
    KeptIsSubsequence(s);
  }

  lemma {:induction false} KeptAppend(a: string, b: string)
    ensures Kept(a + b) == Kept(a) + Kept(b)
    decreases |a|
  {
    if a == [] {
      assert a + b == b;
    } else {
      assert (a + b)[1..] == a[1..] + b;
      KeptAppend(a[1..], b);
    }
  }

  lemma {:induction false} KeptAll(s: string)
    requires forall i :: 0 <= i < |s| ==> !IsSkipped(s[i])
    ensures Kept(s) == s
    decreases |s|
  {
    if s != [] {
      KeptAll(s[1..]);
    }
  }

  /** The filter of `docstring_tokenize` never drops anything: `findall` yields no empty
      token. */
  lemma TokenizeFilterIsIdentity(s: string)
    ensures DocstringTokenize(s) == FindAll(s)
  {
    TokensClean(s);
    NonEmptyKeeps(FindAll(s));
  }

  lemma {:induction false} NonEmptyKeeps(ts: seq<string>)
    requires forall k :: 0 <= k < |ts| ==> ts[k] != []
    ensures NonEmpty(ts) == ts
    decreases |ts|
  {
    if ts != [] {
      NonEmptyKeeps(ts[1..]);
    }
  }

  // ---------------------------------------------------------------------------
  // How delimiters group
  // ---------------------------------------------------------------------------

  /** A run of one repeated delimiter stays together as one token (`...`, `((`, `==`). */
  lemma DelimiterRunIsOneToken(c: char, n: nat)
    requires IsRunChar(c) && n >= 1
    ensures FindAll(seq(n, _ => c)) == [seq(n, _ => c)]
  {
    var s := seq(n, _ => c);
    SameRunAll(s, c);
    assert MatchLength(s) == n;
    WholeMatch(s);
  }

  lemma {:induction false} SameRunAll(s: string, c: char)
    requires forall i :: 0 <= i < |s| ==> s[i] == c
    ensures SameRun(s, c) == |s|
    decreases |s|
  {
    if s != [] {
      SameRunAll(s[1..], c);
    }
  }

  /** `()`, `{}` and `[]` are taken as pairs before runs of brackets are tried. */
  lemma PairFirst(a: char, b: char, rest: string)
    requires IsPair(a, b)
    ensures FindAll([a, b] + rest) == [[a, b]] + FindAll(rest)
  {
    var s := [a, b] + rest;
    assert MatchLength(s) == 2;
    assert s[..2] == [a, b] && s[2..] == rest;
  }

  /** A doubled opening bracket is one token of its own: `((` does not start with the pair
      `()`, so `(()` gives `((` and then `)`. */
  lemma OpeningRunBeforeClose()
    ensures FindAll("(()") == ["((", ")"]
  {
    OpeningRunAt("(()");
  }

  lemma OpeningRunAt(s: string)
    requires s == "(()"
    ensures FindAll(s) == ["((", ")"]
  {
    OpeningMatch(s);
    assert s[..2] == "((" && s[2..] == ")";
    ClosingMatch(s[2..]);
    WholeMatch(s[2..]);
  }

  lemma OpeningMatch(s: string)
    requires s == "(()"
    ensures MatchLength(s) == 2
  {
    var t := s[1..];
    var u := t[1..];
    assert t == "()" && u == ")" && u[0] != '(';
    assert SameRun(u, '(') == 0;
    assert t[0] == '(' && SameRun(t, '(') == 1 + SameRun(u, '(');
    assert s[0] == '(' && SameRun(s, '(') == 1 + SameRun(t, '(');
    assert !IsPair(s[0], s[1]);
  }

  lemma ClosingMatch(s: string)
    requires s == ")"
    ensures MatchLength(s) == 1
  {
    assert s[1..] == [];
  }

  /** Runs are of one character only, so an arrow `->` is two tokens. */
  lemma ArrowIsTwoTokens()
    ensures FindAll("->") == ["-", ">"]
  {
    ArrowAt("->");
  }

  lemma ArrowAt(s: string)
    requires s == "->"
    ensures FindAll(s) == ["-", ">"]
  {
    var t := s[1..];
    assert t == ">" && t[0] != '-';
    assert SameRun(t, '-') == 0;
    assert s[0] == '-' && SameRun(s, '-') == 1 + SameRun(t, '-');
    assert MatchLength(s) == 1;
    assert s[..1] == "-";
    assert SameRun(t[1..], '>') == 0;
    assert MatchLength(t) == 1;
    WholeMatch(t);
  }

  /** A word run stops at the first character outside the word class, so a word is one
      token. */
  lemma WordIsOneToken(w: string)
    requires w != [] && forall i :: 0 <= i < |w| ==> IsWordChar(w[i])
    ensures FindAll(w) == [w]
  {
    WordRunAll(w);
    MatchOfWord(w);
    WholeMatch(w);
  }

  /** Input that is one match from end to end is one token. */
  lemma WholeMatch(s: string)
    requires s != [] && MatchLength(s) == |s|
    ensures FindAll(s) == [s]
  {
    assert s[..|s|] == s && s[|s|..] == [];
  }

  lemma MatchOfWord(s: string)
    requires s != [] && IsWordChar(s[0])
    ensures MatchLength(s) == WordRun(s)
  {
  }

  lemma {:induction false} WordRunAll(s: string)
    requires forall i :: 0 <= i < |s| ==> IsWordChar(s[i])
    ensures WordRun(s) == |s|
    decreases |s|
  {
    if s != [] {
      WordRunAll(s[1..]);
    }
  }
}
