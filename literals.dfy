/** The string-literal escape of the corpus builder, `inplace_escape_spaces_in_strings`
    (src/generate-corpus.py:47-53): every string literal of a syntax tree has its spaces and
    tabs replaced by the `DCSP` and `DCTB` sentinels, with `DCQS` quoting sentinels that were
    already there. */
module Literals {
  import opened Text

  /** A syntax tree as far as the escape sees it: a string literal (`ast.Str`) or any other
      node with its kind and its children in `ast.iter_child_nodes` order. */
  datatype Tree = Str(s: string) | Node(kind: string, children: seq<Tree>)

  /** The rewrite of one literal: five replace-all passes, in this order. */
  function EscapeLiteral(s: string): string {
    var quoted := Replace(s, "DCQS", "DCQSDCQS");
    var spaces := Replace(Replace(quoted, " DCSP ", " DCQSDCSP "), " DCTB ", " DCQSDCTB ");
    Replace(Replace(spaces, " ", " DCSP "), "\t", " DCTB ")
  }

  /** The tree after `inplace_escape_spaces_in_strings`: literals rewritten, every other node
      kept and its children visited. */
  function EscapeTree(t: Tree): Tree
    decreases t
  {
    match t
    case Str(s) => Str(EscapeLiteral(s))
    case Node(kind, children) =>
      Node(kind, seq(|children|, i requires 0 <= i < |children| => EscapeTree(children[i])))
  }

  /** Two trees with the same nodes in the same places, whatever their literals hold. */
  predicate SameShape(a: Tree, b: Tree)
    decreases a
  {
    match a
    case Str(_) => b.Str?
    case Node(kind, children) =>
      && b.Node? && b.kind == kind && |b.children| == |children|
      && forall i :: 0 <= i < |children| ==> SameShape(children[i], b.children[i])
  }

  /** The literals of a tree, in depth-first, left-to-right order. */
  function Literals(t: Tree): seq<string>
    decreases t
  {
    match t
    case Str(s) => [s]
    case Node(_, children) => LiteralsOf(children)
  }

  function LiteralsOf(ts: seq<Tree>): seq<string>
    decreases ts
  {
    if ts == [] then [] else Literals(ts[0]) + LiteralsOf(ts[1..])
  }

  /** The escape keeps the shape of the tree: only literal leaves change. */
  lemma {:induction false} EscapeKeepsShape(t: Tree)
    ensures SameShape(t, EscapeTree(t))
    decreases t
  {
    match t
    case Str(_) =>
    case Node(kind, children) =>
      forall i | 0 <= i < |children| ensures SameShape(children[i], EscapeTree(t).children[i]) {
        EscapeKeepsShape(children[i]);
      }
  }

  /** The literals after the escape are the literals before it, each rewritten by
      `EscapeLiteral`, in the same order. */
  lemma {:induction false} EscapeRewritesLiterals(t: Tree)
    ensures |Literals(EscapeTree(t))| == |Literals(t)|
    ensures forall k :: 0 <= k < |Literals(t)| ==>
      Literals(EscapeTree(t))[k] == EscapeLiteral(Literals(t)[k])
    decreases t, 1
  {
    match t
    case Str(_) =>
    case Node(_, children) =>
      EscapeRewritesLiteralsOf(children, EscapeTree(t).children);
  }

  lemma {:induction false} EscapeRewritesLiteralsOf(ts: seq<Tree>, us: seq<Tree>)
    requires |us| == |ts| && forall i :: 0 <= i < |ts| ==> us[i] == EscapeTree(ts[i])
    ensures |LiteralsOf(us)| == |LiteralsOf(ts)|
    ensures forall k :: 0 <= k < |LiteralsOf(ts)| ==>
      LiteralsOf(us)[k] == EscapeLiteral(LiteralsOf(ts)[k])
    decreases ts, 0
  {
    if ts != [] {
      EscapeRewritesLiterals(ts[0]);
      EscapeRewritesLiteralsOf(ts[1..], us[1..]);
      var a := Literals(ts[0]);
      var b := LiteralsOf(ts[1..]);
      assert LiteralsOf(ts) == a + b;
      assert LiteralsOf(us) == Literals(us[0]) + LiteralsOf(us[1..]);
    }
  }

  /** No tab survives the escape of a literal: the last pass replaces every tab and puts
      none back. */
  lemma NoTabInEscapedLiteral(s: string)
    ensures '\t' !in EscapeLiteral(s)
  {
    var quoted := Replace(s, "DCQS", "DCQSDCQS");
    var spaces := Replace(Replace(quoted, " DCSP ", " DCQSDCSP "), " DCTB ", " DCQSDCTB ");
    var x := Replace(spaces, " ", " DCSP ");
    ReplaceKeepsOut(x, "\t", " DCTB ", "\t");
    ContainsChar(EscapeLiteral(s), '\t');
  }

  /** No literal of an escaped tree holds a tab. */
  lemma NoTabInEscapedTree(t: Tree)
    ensures forall k :: 0 <= k < |Literals(EscapeTree(t))| ==> '\t' !in Literals(EscapeTree(t))[k]
  {
    EscapeRewritesLiterals(t);
    forall k | 0 <= k < |Literals(EscapeTree(t))| ensures '\t' !in Literals(EscapeTree(t))[k] {
      NoTabInEscapedLiteral(Literals(t)[k]);
    }
  }

  /** A literal with no space, no tab and no `DCQS` is left as it was. */
  lemma PlainLiteralUnchanged(s: string)
    requires ' ' !in s && '\t' !in s && !Contains(s, "DCQS")
    ensures EscapeLiteral(s) == s
  {
    ReplaceAbsent(s, "DCQS", "DCQSDCQS");
    AbsentChar(s, " DCSP ", ' ');
    ReplaceAbsent(s, " DCSP ", " DCQSDCSP ");
    AbsentChar(s, " DCTB ", ' ');
    ReplaceAbsent(s, " DCTB ", " DCQSDCTB ");
    ContainsChar(s, ' ');
    ReplaceAbsent(s, " ", " DCSP ");
    ContainsChar(s, '\t');
    ReplaceAbsent(s, "\t", " DCTB ");
  }
}
