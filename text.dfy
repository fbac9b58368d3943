/** The Python `str` operations that the corpus builder and the graph stage rely on:
    `replace`, `split`, `join`, `strip`, slicing with clamped bounds, `isspace`,
    `isalnum` and `str()` of a line number. */
module Text {

  /** Python's `str.isspace()` on one character: the characters that `str.strip()`
      removes and that the regular-expression class `\s` matches. */
  predicate IsSpace(c: char) {
    ('\t' <= c <= '\r') || ('\U{1C}' <= c <= '\U{1F}') || c == ' '
    || c == '\U{85}' || c == '\U{A0}' || c == '\U{1680}'
    || ('\U{2000}' <= c <= '\U{200A}') || c == '\U{2028}' || c == '\U{2029}'
    || c == '\U{202F}' || c == '\U{205F}' || c == '\U{3000}'
  }

  /** Python's `str.isalnum()` on one character, for the characters U+0000..U+00FF:
      ASCII letters and digits, the Latin-1 letters and the Latin-1 digits and fractions. */
  predicate IsAlnum(c: char) {
    ('0' <= c <= '9') || ('A' <= c <= 'Z') || ('a' <= c <= 'z')
    || c == '\U{AA}' || c == '\U{B2}' || c == '\U{B3}' || c == '\U{B5}'
    || c == '\U{B9}' || c == '\U{BA}' || ('\U{BC}' <= c <= '\U{BE}')
    || ('\U{C0}' <= c <= '\U{D6}') || ('\U{D8}' <= c <= '\U{F6}') || ('\U{F8}' <= c <= '\U{FF}')
  }

  /** `any(c.isalnum() for c in s)` */
  predicate HasAlnum(s: string) {
    exists i :: 0 <= i < |s| && IsAlnum(s[i])
  }

  // ---------------------------------------------------------------------------
  // Occurrences and `str.replace`
  // ---------------------------------------------------------------------------

  /** `p` occurs in `s` starting at index `i`. */
  predicate OccursAt(s: string, i: int, p: string) {
    0 <= i && i + |p| <= |s| && s[i..i + |p|] == p
  }

  /** Python's `p in s`. */
  predicate Contains(s: string, p: string) {
    exists i | 0 <= i <= |s| - |p| :: OccursAt(s, i, p)
  }

  /** Python's `s.replace(pat, rep)` for a non-empty `pat`: scanning from the left, every
      occurrence of `pat` that does not overlap an earlier replaced one becomes `rep`. */
  function Replace(s: string, pat: string, rep: string): string
    requires pat != []
    decreases |s|
  {
    if |s| < |pat| then s
    else if s[..|pat|] == pat then rep + Replace(s[|pat|..], pat, rep)
    else [s[0]] + Replace(s[1..], pat, rep)
  }

  lemma OccursInSuffix(s: string, k: nat, i: int, p: string)
    requires k <= |s| && OccursAt(s[k..], i, p)
    ensures OccursAt(s, k + i, p)
  {
    assert s[k..][i..i + |p|] == s[k + i..k + i + |p|];
  }

  /** A position where `s` and `p` disagree rules out an occurrence of `p` at `i`. */
  lemma MismatchAt(s: string, i: int, p: string, j: nat)
    requires 0 <= i && j < |p| && i + j < |s| && s[i + j] != p[j]
    ensures !OccursAt(s, i, p)
  {
    if i + |p| <= |s| {
      assert s[i..i + |p|][j] == s[i + j];
    }
  }

  /** An occurrence in a suffix is an occurrence in the whole string. */
  lemma ContainsSuffix(s: string, k: nat, p: string)
    requires k <= |s|
    ensures Contains(s[k..], p) ==> Contains(s, p)
  {
    if Contains(s[k..], p) {
      var i :| OccursAt(s[k..], i, p);
      OccursInSuffix(s, k, i, p);
    }
  }

  /** `s.replace(pat, rep)` is `s` itself when `pat` does not occur in `s`. */
  lemma {:induction false} ReplaceAbsent(s: string, pat: string, rep: string)
    requires pat != [] && !Contains(s, pat)
    ensures Replace(s, pat, rep) == s
    decreases |s|
  {
    if |s| >= |pat| {
      assert !OccursAt(s, 0, pat);
      ContainsSuffix(s, 1, pat);
      ReplaceAbsent(s[1..], pat, rep);
    }
  }

  /** Without an occurrence at the start, the first character is copied. */
  lemma ReplaceNoMatchStep(s: string, pat: string, rep: string)
    requires pat != [] && s != [] && !OccursAt(s, 0, pat)
    ensures Replace(s, pat, rep) == [s[0]] + Replace(s[1..], pat, rep)
  {
    if |s| < |pat| {
      assert Replace(s[1..], pat, rep) == s[1..];
      assert s == [s[0]] + s[1..];
    }
  }

  /** Replacing in `a + x` leaves `a` alone when no occurrence of `pat` starts inside `a`. */
  lemma {:induction false} ReplaceSkipsPrefix(a: string, x: string, pat: string, rep: string)
    requires pat != []
    requires forall i :: 0 <= i < |a| ==> !OccursAt(a + x, i, pat)
    ensures Replace(a + x, pat, rep) == a + Replace(x, pat, rep)
    decreases |a|
  {
    if a == [] {
      assert a + x == x;
    } else {
      var s := a + x;
      var t := a[1..] + x;
      assert s[1..] == t;
      assert !OccursAt(s, 0, pat);
      ReplaceNoMatchStep(s, pat, rep);
      NoMatchInTail(a, x, pat);
      ReplaceSkipsPrefix(a[1..], x, pat, rep);
      assert [s[0]] + (a[1..] + Replace(x, pat, rep)) == a + Replace(x, pat, rep);
    }
  }

  lemma NoMatchInTail(a: string, x: string, pat: string)
    requires a != []
    requires forall i :: 0 <= i < |a| ==> !OccursAt(a + x, i, pat)
    ensures forall i :: 0 <= i < |a[1..]| ==> !OccursAt(a[1..] + x, i, pat)
  {
    var s := a + x;
    var t := a[1..] + x;
    forall i | 0 <= i < |a[1..]| ensures !OccursAt(t, i, pat) {
      assert !OccursAt(s, i + 1, pat);
      if i + |pat| <= |t| {
        assert t[i..i + |pat|] == s[i + 1..i + 1 + |pat|];
      }
    }
  }

  /** No occurrence of `pat` in any text can share a character with an occurrence of `w`:
      `pat` neither ends on a character of `w`, nor starts on one after the first, nor holds
      `w` with a character to spare after it. */
  predicate Isolated(w: string, pat: string) {
    && pat != [] && w != []
    && (forall j :: 0 <= j < |w| ==> w[j] != pat[|pat| - 1])
    && (forall j :: 1 <= j < |w| ==> w[j] != pat[0])
    && (forall k :: 0 <= k < |pat| - |w| ==> !OccursAt(pat, k, w))
  }

  /** An occurrence of `pat` cannot start or end inside an isolated word `w`. */
  lemma NoOverlap(a: string, w: string, b: string, pat: string, i: int)
    requires Isolated(w, pat)
    requires 0 <= i < |a| + |w| && |a| < i + |pat|
    ensures !OccursAt(a + w + b, i, pat)
  {
    var s := a + w + b;
    var e := i + |pat| - 1;
    if i + |pat| <= |s| {
      var t := s[i..i + |pat|];
      if e < |a| + |w| {
        assert t[|pat| - 1] == s[e] == w[e - |a|] != pat[|pat| - 1];
      } else if |a| < i {
        assert t[0] == s[i] == w[i - |a|] != pat[0];
      } else {
        var k := |a| - i;
        assert !OccursAt(pat, k, w);
        assert t[k..k + |w|] == s[|a|..|a| + |w|] == w;
      }
    }
  }

  /** Replacing around an isolated word: the text before it and the text after it are
      replaced on their own, and the word itself is kept. */
  lemma {:induction false} ReplaceAround(a: string, w: string, b: string, pat: string, rep: string)
    requires Isolated(w, pat)
    ensures Replace(a + w + b, pat, rep) == Replace(a, pat, rep) + w + Replace(b, pat, rep)
    decreases |a|, 1
  {
    if |a| < |pat| {
      ReplaceAroundShort(a, w, b, pat, rep);
    } else if a[..|pat|] == pat {
      ReplaceAroundMatch(a, w, b, pat, rep);
    } else {
      ReplaceAroundCopied(a, w, b, pat, rep);
    }
  }

  lemma {:induction false} ReplaceAroundMatch(a: string, w: string, b: string, pat: string, rep: string)
    requires Isolated(w, pat) && |pat| <= |a| && a[..|pat|] == pat
    ensures Replace(a + w + b, pat, rep) == Replace(a, pat, rep) + w + Replace(b, pat, rep)
    decreases |a|, 0
  {
    ReplaceHeadMatch(a, w, b, pat, rep);
    ReplaceAround(a[|pat|..], w, b, pat, rep);
    Regroup(rep, Replace(a[|pat|..], pat, rep), w, Replace(b, pat, rep));
  }

  lemma {:induction false} ReplaceAroundCopied(a: string, w: string, b: string, pat: string, rep: string)
    requires Isolated(w, pat) && |pat| <= |a| && a[..|pat|] != pat
    ensures Replace(a + w + b, pat, rep) == Replace(a, pat, rep) + w + Replace(b, pat, rep)
    decreases |a|, 0
  {
    ReplaceHeadCopied(a, w, b, pat, rep);
    ReplaceAround(a[1..], w, b, pat, rep);
    Regroup([a[0]], Replace(a[1..], pat, rep), w, Replace(b, pat, rep));
  }

  /** Regrouping a concatenation, stated on plain sequences so no `Replace` unfolds. */
  lemma Regroup(c: string, x: string, w: string, y: string)
    ensures c + (x + w + y) == (c + x) + w + y
  {
  }

  /** One replacing step taken at the head of `a`, alone or followed by `w` and `b`. */
  lemma ReplaceHeadMatch(a: string, w: string, b: string, pat: string, rep: string)
    requires pat != [] && |pat| <= |a| && a[..|pat|] == pat
    ensures Replace(a + w + b, pat, rep) == rep + Replace(a[|pat|..] + w + b, pat, rep)
    ensures Replace(a, pat, rep) == rep + Replace(a[|pat|..], pat, rep)
  {
    var s := a + w + b;
    assert s[..|pat|] == pat;
    assert s[|pat|..] == a[|pat|..] + w + b;
  }

  /** One copying step taken at the head of `a`, alone or followed by `w` and `b`. */
  lemma ReplaceHeadCopied(a: string, w: string, b: string, pat: string, rep: string)
    requires pat != [] && |pat| <= |a| && a[..|pat|] != pat
    ensures Replace(a + w + b, pat, rep) == [a[0]] + Replace(a[1..] + w + b, pat, rep)
    ensures Replace(a, pat, rep) == [a[0]] + Replace(a[1..], pat, rep)
  {
    var s := a + w + b;
    assert s[..|pat|] == a[..|pat|];
    assert s[0] == a[0] && s[1..] == a[1..] + w + b;
  }

  lemma ReplaceAroundShort(a: string, w: string, b: string, pat: string, rep: string)
    requires Isolated(w, pat) && |a| < |pat|
    ensures Replace(a + w + b, pat, rep) == Replace(a, pat, rep) + w + Replace(b, pat, rep)
  {
    forall i | 0 <= i < |a + w| ensures !OccursAt((a + w) + b, i, pat) {
      NoOverlap(a, w, b, pat, i);
    }
    ReplaceSkipsPrefix(a + w, b, pat, rep);
    assert Replace(a, pat, rep) == a;
  }

  /** A prefix `w` of `s.replace(pat, rep)` that does not hold the first character of `rep`
      was copied from `s` unchanged. */
  lemma {:induction false} ReplacePrefixCopied(s: string, pat: string, rep: string, w: string)
    requires pat != [] && rep != []
    requires |w| <= |Replace(s, pat, rep)| && Replace(s, pat, rep)[..|w|] == w
    ensures (|w| <= |s| && s[..|w|] == w) || rep[0] in w
    decreases |s|
  {
    if w != [] && |s| >= |pat| {
      if s[..|pat|] == pat {
        assert w[0] == Replace(s, pat, rep)[0];
      } else {
        var r := Replace(s[1..], pat, rep);
        assert Replace(s, pat, rep) == [s[0]] + r;
        assert w[0] == s[0];
        assert w[1..] == r[..|w| - 1];
        ReplacePrefixCopied(s[1..], pat, rep, w[1..]);
        if rep[0] in w[1..] {
          assert rep[0] in w;
        } else {
          assert s[..|w|] == [s[0]] + s[1..][..|w| - 1];
        }
      }
    }
  }

  /** No occurrence of `q` starts inside `a` when `a` holds no character of `q`. */
  lemma NoOccurrenceAcrossForeign(a: string, b: string, q: string)
    requires q != [] && (forall c :: c in a ==> c !in q) && !Contains(b, q)
    ensures !Contains(a + b, q)
  {
    forall i | 0 <= i && i + |q| <= |a + b|
      ensures !OccursAt(a + b, i, q)
    {
      if i < |a| {
        assert (a + b)[i..i + |q|][0] == a[i];
        assert a[i] in a;
      } else {
        assert (a + b)[i..i + |q|] == b[i - |a|..i - |a| + |q|];
        assert !OccursAt(b, i - |a|, q);
      }
    }
  }

  /** An occurrence of `q` at the very start of `[s[0]] + s[1..].replace(pat, rep)`, when `rep`
      does not begin with a character of `q`, is an occurrence at the start of `s`. */
  lemma ReplaceHeadOccurrence(s: string, pat: string, rep: string, q: string)
    requires pat != [] && rep != [] && q != [] && rep[0] !in q[1..] && s != []
    ensures OccursAt([s[0]] + Replace(s[1..], pat, rep), 0, q) ==> OccursAt(s, 0, q)
  {
    var r := Replace(s[1..], pat, rep);
    var x := [s[0]] + r;
    if OccursAt(x, 0, q) {
      assert r[..|q| - 1] == q[1..];
      ReplacePrefixCopied(s[1..], pat, rep, q[1..]);
      assert s[..|q|] == [s[0]] + s[1..][..|q| - 1];
    }
  }

  /** When `rep` shares no character with `q`, `s.replace(pat, rep)` has no occurrence of `q`
      that `s` lacked; in particular (q == pat) it has no occurrence of `pat` left. */
  lemma {:induction false} ReplaceKeepsOut(s: string, pat: string, rep: string, q: string)
    requires pat != [] && rep != [] && q != []
    requires forall c :: c in rep ==> c !in q
    requires q == pat || !Contains(s, q)
    ensures !Contains(Replace(s, pat, rep), q)
    decreases |s|
  {
    if |s| < |pat| {
      if q == pat {
        forall i ensures !OccursAt(s, i, q) { }
      }
    } else if s[..|pat|] == pat {
      ContainsSuffix(s, |pat|, q);
      ReplaceKeepsOut(s[|pat|..], pat, rep, q);
      NoOccurrenceAcrossForeign(rep, Replace(s[|pat|..], pat, rep), q);
    } else {
      ContainsSuffix(s, 1, q);
      ReplaceKeepsOut(s[1..], pat, rep, q);
      var r := Replace(s[1..], pat, rep);
      var x := [s[0]] + r;
      forall i | 0 <= i && i + |q| <= |x|
        ensures !OccursAt(x, i, q)
      {
        if i == 0 {
          assert rep[0] in rep;
          assert rep[0] !in q[1..];
          ReplaceHeadOccurrence(s, pat, rep, q);
        } else {
          assert x[i..i + |q|] == r[i - 1..i - 1 + |q|];
          assert !OccursAt(r, i - 1, q);
        }
      }
    }
  }

  // ---------------------------------------------------------------------------
  // `str.split`, `str.join` and repetition
  // ---------------------------------------------------------------------------

  /** Python's `s.split(sep)` for a one-character separator: always at least one piece. */
  function Split(s: string, sep: char): (pieces: seq<string>)
    ensures |pieces| >= 1
    decreases |s|
  {
    if s == [] then [""]
    else
      var rest := Split(s[1..], sep);
      if s[0] == sep then [""] + rest else [[s[0]] + rest[0]] + rest[1..]
  }

  /** Python's `sep.join(xs)`. */
  function Join(xs: seq<string>, sep: string): string
    decreases |xs|
  {
    if xs == [] then ""
    else if |xs| == 1 then xs[0]
    else xs[0] + sep + Join(xs[1..], sep)
  }

  /** Joining the pieces of a split with the separator gives back the string, and no
      piece holds the separator. */
  lemma {:induction false} JoinSplit(s: string, sep: char)
    ensures Join(Split(s, sep), [sep]) == s
    ensures forall k :: 0 <= k < |Split(s, sep)| ==> sep !in Split(s, sep)[k]
    decreases |s|
  {
    if s != [] {
      JoinSplit(s[1..], sep);
      var rest := Split(s[1..], sep);
      if s[0] == sep {
        assert Split(s, sep) == [""] + rest;
      } else {
        var pieces := Split(s, sep);
        assert pieces == [[s[0]] + rest[0]] + rest[1..];
        if |rest| > 1 {
          assert Join(rest, [sep]) == rest[0] + [sep] + Join(rest[1..], [sep]);
          assert pieces[1..] == rest[1..];
        }
        forall k | 0 <= k < |pieces| ensures sep !in pieces[k] {
          if k == 0 {
            assert sep !in rest[0];
          } else {
            assert pieces[k] == rest[k];
          }
        }
      }
    }
  }

  /** Python's `s * n`. */
  function Repeat(s: string, n: nat): string {
    if n == 0 then "" else s + Repeat(s, n - 1)
  }

  // ---------------------------------------------------------------------------
  // `str.strip` and friends
  // ---------------------------------------------------------------------------

  /** Python's `s.lstrip()`: the suffix left after removing the leading whitespace. */
  function LStrip(s: string): string
    decreases |s|
  {
    if s != [] && IsSpace(s[0]) then LStrip(s[1..]) else s
  }

  /** Python's `s.rstrip()`: the prefix left after removing the trailing whitespace. */
  function RStrip(s: string): string
    decreases |s|
  {
    if s != [] && IsSpace(s[|s| - 1]) then RStrip(s[..|s| - 1]) else s
  }

  /** `lstrip` keeps a suffix that does not start with whitespace and removes only
      whitespace. */
  lemma {:induction false} LStripFacts(s: string)
    ensures var r := LStrip(s);
      && |r| <= |s| && r == s[|s| - |r|..]
      && (r == [] || !IsSpace(r[0]))
      && forall i :: 0 <= i < |s| - |r| ==> IsSpace(s[i])
    decreases |s|
  {
    if s != [] && IsSpace(s[0]) {
      LStripFacts(s[1..]);
      var r := LStrip(s);
      assert s[1..][|s[1..]| - |r|..] == s[|s| - |r|..];
      forall i | 0 < i < |s| - |r| ensures IsSpace(s[i]) {
        assert s[i] == s[1..][i - 1];
      }
    }
  }

  /** `rstrip` keeps a prefix that does not end in whitespace and removes only whitespace. */
  lemma {:induction false} RStripFacts(s: string)
    ensures var r := RStrip(s);
      && |r| <= |s| && r == s[..|r|]
      && (r == [] || !IsSpace(r[|r| - 1]))
      && forall i :: |r| <= i < |s| ==> IsSpace(s[i])
    decreases |s|
  {
    if s != [] && IsSpace(s[|s| - 1]) {
      RStripFacts(s[..|s| - 1]);
      var r := RStrip(s);
      assert s[..|s| - 1][..|r|] == s[..|r|];
      forall i | |r| <= i < |s| - 1 ensures IsSpace(s[i]) {
        assert s[i] == s[..|s| - 1][i];
      }
    }
  }

  /** Python's `s.strip()`. */
  function Strip(s: string): string {
    LStrip(RStrip(s))
  }

  /** `t` neither starts nor ends with whitespace. */
  predicate Trimmed(t: string) {
    t == [] || (!IsSpace(t[0]) && !IsSpace(t[|t| - 1]))
  }

  /** `s.strip()` has no whitespace at either end and is no longer than `s`. */
  lemma StripTrimmed(s: string)
    ensures Trimmed(Strip(s)) && |Strip(s)| <= |s|
  {
    var r := RStrip(s);
    var t := LStrip(r);
    RStripFacts(s);
    LStripFacts(r);
    if t != [] {
      assert t[|t| - 1] == r[|r| - 1];
    }
  }

  /** The number of leading whitespace characters. */
  function LeadingSpaces(s: string): (n: nat)
    ensures n <= |s|
    decreases |s|
  {
    if s != [] && IsSpace(s[0]) then 1 + LeadingSpaces(s[1..]) else 0
  }

  /** The leading whitespace is what `lstrip` removes. */
  lemma {:induction false} LeadingSpacesIsLStrip(s: string)
    ensures LeadingSpaces(s) == |s| - |LStrip(s)|
    decreases |s|
  {
    if s != [] && IsSpace(s[0]) {
      LeadingSpacesIsLStrip(s[1..]);
    }
  }

  /** Cutting off a tail leaves the leading whitespace alone when what is kept holds a
      character that is not whitespace. */
  lemma {:induction false} LeadingSpacesOfPrefix(s: string, k: nat)
    requires k <= |s| && exists i :: 0 <= i < k && !IsSpace(s[i])
    ensures LeadingSpaces(s[..k]) == LeadingSpaces(s)
    decreases k
  {
    if IsSpace(s[0]) {
      var i :| 0 <= i < k && !IsSpace(s[i]);
      assert s[..k][1..] == s[1..][..k - 1];
      assert 0 <= i - 1 < k - 1 && !IsSpace(s[1..][i - 1]);
      LeadingSpacesOfPrefix(s[1..], k - 1);
    }
  }

  /** A one-character pattern occurs exactly where its character does. */
  lemma ContainsChar(s: string, c: char)
    ensures Contains(s, [c]) <==> c in s
  {
    if c in s {
      var i :| 0 <= i < |s| && s[i] == c;
      assert s[i..i + 1] == [c];
      assert OccursAt(s, i, [c]);
    }
    if Contains(s, [c]) {
      var i :| 0 <= i <= |s| - 1 && OccursAt(s, i, [c]);
      assert s[i] == s[i..i + 1][0] == c;
    }
  }

  /** A pattern holding a character that `s` lacks does not occur in `s`. */
  lemma AbsentChar(s: string, p: string, c: char)
    requires c in p && c !in s
    ensures !Contains(s, p)
  {
    forall i | 0 <= i <= |s| - |p| ensures !OccursAt(s, i, p) {
      var j :| 0 <= j < |p| && p[j] == c;
      MismatchAt(s, i, p, j);
    }
  }

  /** Every character of `s.replace(pat, rep)` comes from `s` or from `rep`. */
  lemma {:induction false} ReplaceChars(s: string, pat: string, rep: string)
    requires pat != []
    ensures forall c :: c in Replace(s, pat, rep) ==> c in s || c in rep
    decreases |s|
  {
    if |s| >= |pat| {
      if s[..|pat|] == pat {
        ReplaceChars(s[|pat|..], pat, rep);
        assert forall c :: c in s[|pat|..] ==> c in s;
      } else {
        ReplaceChars(s[1..], pat, rep);
        assert forall c :: c in s[1..] ==> c in s;
      }
    }
  }

  // ---------------------------------------------------------------------------
  // Clamped slicing and `str()` of a natural number
  // ---------------------------------------------------------------------------

  /** Python's `s[lo:hi]` for non-negative bounds: both bounds are clamped to the length,
      and an empty list comes back when `lo` is at or past `hi`. */
  function Slice<T>(s: seq<T>, lo: nat, hi: nat): (r: seq<T>)
    ensures lo >= |s| || hi <= lo ==> r == []
    ensures lo < |s| && lo < hi ==> |r| == (if hi < |s| then hi else |s|) - lo
    ensures forall i :: 0 <= i < |r| ==> lo + i < |s| && r[i] == s[lo + i]
  {
    var h := if hi < |s| then hi else |s|;
    if lo < h then s[lo..h] else []
  }

  function DigitChar(d: nat): (c: char)
    requires d < 10
    ensures '0' <= c <= '9' && (c as int) - ('0' as int) == d
  {
    ['0', '1', '2', '3', '4', '5', '6', '7', '8', '9'][d]
  }

  /** The value of a string of decimal digits. */
  function DecimalValue(s: string): nat
    requires forall i :: 0 <= i < |s| ==> '0' <= s[i] <= '9'
    decreases |s|
  {
    if s == [] then 0 else 10 * DecimalValue(s[..|s| - 1]) + ((s[|s| - 1] as int) - ('0' as int))
  }

  /** Splitting a string at its first separator. */
  lemma {:induction false} SplitOnce(a: string, b: string, sep: char)
    requires sep !in a
    ensures Split(a + [sep] + b, sep) == [a] + Split(b, sep)
    decreases |a|
  {
    if a != [] {
      var s := a + [sep] + b;
      assert s[0] == a[0] && s[1..] == a[1..] + [sep] + b;
      SplitOnce(a[1..], b, sep);
      var rest := Split(s[1..], sep);
      assert rest == [a[1..]] + Split(b, sep);
      assert Split(s, sep) == [[a[0]] + rest[0]] + rest[1..];
      assert [a[0]] + a[1..] == a;
    } else {
      assert (a + [sep] + b)[1..] == b;
    }
  }

  /** A string without the separator is one piece. */
  lemma {:induction false} SplitWhole(a: string, sep: char)
    requires sep !in a
    ensures Split(a, sep) == [a]
    decreases |a|
  {
    if a != [] {
      SplitWhole(a[1..], sep);
      assert [a[0]] + a[1..] == a;
    }
  }

  /** Python's `str(n)` for a natural number: decimal digits, no leading zero, whose value is `n`. */
  function NatToDecimal(n: nat): (r: string)
    ensures |r| >= 1 && forall i :: 0 <= i < |r| ==> '0' <= r[i] <= '9'
    ensures r[0] != '0' || n == 0
    ensures DecimalValue(r) == n
    decreases n
  {
    if n < 10 then [DigitChar(n)] else NatToDecimal(n / 10) + [DigitChar(n % 10)]
  }
}
