/** The record extraction of the corpus builder (src/generate-corpus.py:55-104):
    `process_function` turns one function definition into at most one four-field record,
    and `process_class` / `process_module` walk the declarations of a module and hand each
    function to it together with the line number of its enclosing class.

    The parser and the unparser are not part of this model: a module arrives already parsed
    as a list of `Decl`s, the docstring of a function arrives with it, and `astunparse.unparse`
    is the parameter `unparse`. */
module Extractor {
  import opened Wrappers
  import opened Text
  import opened ControlEscape
  import opened Encoder
  import opened Literals

  // ---------------------------------------------------------------------------
  // Declarations and records
  // ---------------------------------------------------------------------------

  /** A function definition as `process_function` reads it: its line, its number of
      decorators, the result of `ast.get_docstring` and its syntax tree. */
  datatype Function = Function(lineno: nat, decorators: nat, docstring: Option<string>, tree: Tree)

  /** A statement of a module or class body: a function (with the declarations nested in its
      own body), a class with its body, or anything else. */
  datatype Decl =
    | FunctionDef(fn: Function, inner: seq<Decl>)
    | ClassDef(lineno: nat, body: seq<Decl>)
    | OtherStmt

  /** One corpus entry: `[funcdef, processed_body_str, pretty_docstring, meta_str]`. */
  datatype Record = Record(funcdef: string, body: string, docstring: string, meta: string)

  /** The shared corpus list that the walk appends to. */
  class Corpus {
    var records: seq<Record>

    constructor()
      ensures records == []
    {
      records := [];
    }
  }

  // ---------------------------------------------------------------------------
  // process_function as a specification
  // ---------------------------------------------------------------------------

  /** A character of the CJK Unified Ideographs block, U+4E00..U+9FFF. */
  predicate IsCjk(c: char) {
    '\U{4E00}' <= c <= '\U{9FFF}'
  }

  /** `len(re.findall(r'[\u4e00-\u9fff]+', s)) > 0` */
  predicate HasCjk(s: string) {
    exists i | 0 <= i < |s| :: IsCjk(s[i])
  }

  /** The lines of the unparsed function, after its string literals were escaped. */
  function UnparsedLines(fn: Function, unparse: Tree -> string): seq<string> {
    Split(unparse(EscapeTree(fn.tree)), '\n')
  }

  /** Every line passed through `escape_control_strings`. */
  function EscapeAll(lines: seq<string>): (r: seq<string>)
    ensures |r| == |lines|
  {
    seq(|lines|, i requires 0 <= i < |lines| => Escape(lines[i]))
  }

  /** The header: unparsed lines `[2, 3 + d)` for `d` decorators, escaped and joined by
      " DCNL ". */
  function Header(lines: seq<string>, d: nat): string {
    Join(EscapeAll(Slice(lines, 2, 3 + d)), " DCNL ")
  }

  /** The body lines that are kept: the non-empty ones, each escaped and then re-indented
      with " DCSP ", in their original order. */
  function BodyLines(lines: seq<string>): seq<string>
    decreases |lines|
  {
    if lines == [] then []
    else
      var line := lines[|lines| - 1];
      BodyLines(lines[..|lines| - 1])
        + (if line == "" then [] else [ReduceIdent(Escape(line), " DCSP ")])
  }

  /** The body: unparsed lines from `4 + d` on, kept as `BodyLines` says and joined by
      " DCNL" (without a trailing space). */
  function Body(lines: seq<string>, d: nat): string {
    Join(BodyLines(Slice(lines, 4 + d, |lines|)), " DCNL")
  }

  /** The metadata: file name and line number, then the enclosing class's line number when
      there is one (`parent > -1`). */
  function Meta(file: string, lineno: nat, parent: int): string {
    file + " " + NatToDecimal(lineno) + (if parent > -1 then " " + NatToDecimal(parent) else "")
  }

  /** What `process_function(fn, corpus, file, parent)` appends: nothing without a docstring
      or with a CJK docstring, nothing when the docstring, body or header is empty, else one
      record. */
  function ExtractFunction(fn: Function, file: string, parent: int, unparse: Tree -> string)
    : Option<Record>
  {
    if fn.docstring.None? then None
    else if HasCjk(fn.docstring.value) then None
    else
      var lines := UnparsedLines(fn, unparse);
      Assemble(Header(lines, fn.decorators), Body(lines, fn.decorators),
        PrettyDocstring(fn.docstring.value), Meta(file, fn.lineno, parent))
  }

  /** The record of the four fields, unless the docstring, the body or the header is empty. */
  function Assemble(funcdef: string, body: string, pretty: string, meta: string): Option<Record> {
    if pretty == "" || body == "" || funcdef == "" then None
    else Some(Record(funcdef, body, pretty, meta))
  }

  function OptionToSeq<T>(o: Option<T>): seq<T> {
    if o.Some? then [o.value] else []
  }

  // ---------------------------------------------------------------------------
  // process_function
  // ---------------------------------------------------------------------------

  /** The loop of `process_function` over the body lines: skip the empty ones, escape the
      others and re-indent them with " DCSP ". */
  method ProcessBodyLines(unparsedBody: seq<string>) returns (processed: seq<string>)
    ensures processed == BodyLines(unparsedBody)
  {
    processed := [];
    var i := 0;
    while i < |unparsedBody|
      invariant 0 <= i <= |unparsedBody|
      invariant processed == BodyLines(unparsedBody[..i])
    {
      var line := unparsedBody[i];
      assert unparsedBody[..i + 1][..i] == unparsedBody[..i];
      if line != "" {
        line := Escape(line);
        line := ReduceIdent(line, " DCSP ");
        processed := processed + [line];
      }
      i := i + 1;
    }
    assert unparsedBody[..|unparsedBody|] == unparsedBody;
  }

  /** `process_function`: append the record of `fn`, if it has one, and change nothing else. */
  method ProcessFunction(fn: Function, corpus: Corpus, file: string, parent: int,
                         unparse: Tree -> string)
    modifies corpus
    ensures corpus.records == old(corpus.records) + OptionToSeq(ExtractFunction(fn, file, parent, unparse))
  {
    if fn.docstring.None? {
      return;
    }
    var doc := fn.docstring.value;
    if HasCjk(doc) {
      return;
    }
    var tree := EscapeTree(fn.tree);
    var unparsed := Split(unparse(tree), '\n');
    var d := fn.decorators;
    var unparsedFuncdef := Slice(unparsed, 2, 3 + d);
    var unparsedBody := Slice(unparsed, 4 + d, |unparsed|);
    var pretty := PrettifyDocstring(doc);
    var funcdef := Join(EscapeAll(unparsedFuncdef), " DCNL ");
    var processed := ProcessBodyLines(unparsedBody);
    var body := Join(processed, " DCNL");
    var meta := Meta(file, fn.lineno, parent);
    HeaderOf(unparsed, d);
    BodyOf(unparsed, d, processed);
    assert ExtractFunction(fn, file, parent, unparse) == Assemble(funcdef, body, pretty, meta);
    if pretty == "" || body == "" || funcdef == "" {
      return;
    }
    corpus.records := corpus.records + [Record(funcdef, body, pretty, meta)];
  }

  /** The header as `process_function` computes it. */
  lemma HeaderOf(lines: seq<string>, d: nat)
    ensures Join(EscapeAll(Slice(lines, 2, 3 + d)), " DCNL ") == Header(lines, d)
  {
  }

  /** The body as `process_function` computes it from its loop's result. */
  lemma BodyOf(lines: seq<string>, d: nat, processed: seq<string>)
    requires processed == BodyLines(Slice(lines, 4 + d, |lines|))
    ensures Join(processed, " DCNL") == Body(lines, d)
  {
  }

  // ---------------------------------------------------------------------------
  // The walk of process_class and process_module
  // ---------------------------------------------------------------------------

  /** One call of `process_function`: the function and the `parent_class_lineno` it gets. */
  datatype Visit = Visit(fn: Function, parent: int)

  /** The calls `process_class` makes for a class body whose class is on line `lineno`. */
  function ClassVisits(body: seq<Decl>, lineno: int): seq<Visit>
    decreases body
  {
    if body == [] then [] else ItemVisits(body[0], lineno) + ClassVisits(body[1..], lineno)
  }

  /** The calls made for one statement of a class body. */
  function ItemVisits(d: Decl, lineno: int): seq<Visit>
    decreases d
  {
    match d
    case ClassDef(inner, body) => ClassVisits(body, inner)
    case FunctionDef(fn, _) => [Visit(fn, lineno)]
    case OtherStmt => []
  }

  /** The calls `process_module` makes: top-level functions with no class (-1) and, in
      methods mode only, the members of the top-level classes. */
  function ModuleVisits(body: seq<Decl>, methods: bool): seq<Visit>
    decreases |body|
  {
    if body == [] then [] else TopVisits(body[0], methods) + ModuleVisits(body[1..], methods)
  }

  /** The calls made for one top-level statement. */
  function TopVisits(d: Decl, methods: bool): seq<Visit> {
    if methods && d.ClassDef? then ClassVisits(d.body, d.lineno)
    else if d.FunctionDef? then [Visit(d.fn, -1)]
    else []
  }

  /** The records a sequence of calls appends, in call order. */
  function Extract(visits: seq<Visit>, file: string, unparse: Tree -> string): seq<Record> {
    FlatMap(visits, (v: Visit) => OptionToSeq(ExtractFunction(v.fn, file, v.parent, unparse)))
  }

  /** The results of `f` on the elements of `xs`, concatenated in order. */
  function FlatMap<T, U>(xs: seq<T>, f: T -> seq<U>): seq<U>
    decreases |xs|
  {
    if xs == [] then [] else f(xs[0]) + FlatMap(xs[1..], f)
  }

  /** `process_class(node, ...)`: every member function gets the class's own line number,
      every nested class is walked the same way. */
  method ProcessClass(lineno: nat, body: seq<Decl>, corpus: Corpus, file: string,
                      unparse: Tree -> string)
    modifies corpus
    ensures corpus.records == old(corpus.records) + Extract(ClassVisits(body, lineno), file, unparse)
    decreases body, 1
  {
    var i := 0;
    while i < |body|
      invariant 0 <= i <= |body|
      invariant corpus.records
        == old(corpus.records) + Extract(ClassVisits(body[..i], lineno), file, unparse)
    {
      ghost var before := corpus.records;
      ProcessClassItem(body[i], lineno, corpus, file, unparse);
      ClassStep(body, i, lineno);
      ExtractStep(old(corpus.records), before, corpus.records, ClassVisits(body[..i], lineno),
        ItemVisits(body[i], lineno), file, unparse);
      i := i + 1;
    }
    assert body[..|body|] == body;
  }

  /** The loop body of `process_class` for one statement `inner` of the class on line `lineno`. */
  method ProcessClassItem(inner: Decl, lineno: nat, corpus: Corpus, file: string,
                          unparse: Tree -> string)
    modifies corpus
    ensures corpus.records == old(corpus.records) + Extract(ItemVisits(inner, lineno), file, unparse)
    decreases inner, 0
  {
    if inner.ClassDef? {
      ProcessClass(inner.lineno, inner.body, corpus, file, unparse);
    } else if inner.FunctionDef? {
      ProcessFunction(inner.fn, corpus, file, lineno, unparse);
      ExtractOne(Visit(inner.fn, lineno), file, unparse);
    } else {
      assert corpus.records == old(corpus.records) + [];
    }
  }

  /** `process_module(...)` on an already parsed module body. */
  method ProcessModule(body: seq<Decl>, corpus: Corpus, file: string, methods: bool,
                       unparse: Tree -> string)
    modifies corpus
    ensures corpus.records == old(corpus.records) + Extract(ModuleVisits(body, methods), file, unparse)
  {
    var i := 0;
    while i < |body|
      invariant 0 <= i <= |body|
      invariant corpus.records
        == old(corpus.records) + Extract(ModuleVisits(body[..i], methods), file, unparse)
    {
      var node := body[i];
      ghost var before := corpus.records;
      ProcessModuleItem(node, corpus, file, methods, unparse);
      ModuleStep(body, i, methods);
      ExtractStep(old(corpus.records), before, corpus.records, ModuleVisits(body[..i], methods),
        TopVisits(node, methods), file, unparse);
      i := i + 1;
    }
    assert body[..|body|] == body;
  }

  /** The loop body of `process_module` for one top-level statement `node`. */
  method ProcessModuleItem(node: Decl, corpus: Corpus, file: string, methods: bool,
                           unparse: Tree -> string)
    modifies corpus
    ensures corpus.records == old(corpus.records) + Extract(TopVisits(node, methods), file, unparse)
  {
    if methods && node.ClassDef? {
      ProcessClass(node.lineno, node.body, corpus, file, unparse);
    } else {
      if node.FunctionDef? {
        ProcessFunction(node.fn, corpus, file, -1, unparse);
        ExtractOne(Visit(node.fn, -1), file, unparse);
      } else {
        assert corpus.records == old(corpus.records) + [];
      }
    }
  }

  // ---------------------------------------------------------------------------
  // Order of the walk
  // ---------------------------------------------------------------------------

  /** The records of consecutive calls are the records of each, in order. */
  lemma ExtractAppend(a: seq<Visit>, b: seq<Visit>, file: string, unparse: Tree -> string)
    ensures Extract(a + b, file, unparse) == Extract(a, file, unparse) + Extract(b, file, unparse)
  {
    FlatMapAppend(a, b, (v: Visit) => OptionToSeq(ExtractFunction(v.fn, file, v.parent, unparse)));
  }

  lemma {:induction false} FlatMapAppend<T, U>(a: seq<T>, b: seq<T>, f: T -> seq<U>)
    ensures FlatMap(a + b, f) == FlatMap(a, f) + FlatMap(b, f)
    decreases |a|
  {
    if a == [] {
      assert a + b == b;
    } else {
      assert (a + b)[0] == a[0] && (a + b)[1..] == a[1..] + b;
      FlatMapAppend(a[1..], b, f);
    }
  }

  /** One step of a walk: the records so far, then those of the next statement. */
  lemma ExtractStep(start: seq<Record>, before: seq<Record>, after: seq<Record>,
                    prev: seq<Visit>, here: seq<Visit>, file: string, unparse: Tree -> string)
    requires before == start + Extract(prev, file, unparse)
    requires after == before + Extract(here, file, unparse)
    ensures after == start + Extract(prev + here, file, unparse)
  {
    ExtractAppend(prev, here, file, unparse);
    AppendAssoc(start, Extract(prev, file, unparse), Extract(here, file, unparse));
  }

  lemma AppendAssoc<T>(a: seq<T>, b: seq<T>, c: seq<T>)
    ensures (a + b) + c == a + (b + c)
  {
  }

  lemma ModuleStep(body: seq<Decl>, i: nat, methods: bool)
    requires i < |body|
    ensures ModuleVisits(body[..i + 1], methods) == ModuleVisits(body[..i], methods) + TopVisits(body[i], methods)
  {
    assert body[..i + 1] == body[..i] + [body[i]];
    ModuleVisitsSnoc(body[..i], body[i], methods);
  }

  lemma ClassStep(body: seq<Decl>, i: nat, lineno: int)
    requires i < |body|
    ensures ClassVisits(body[..i + 1], lineno) == ClassVisits(body[..i], lineno) + ItemVisits(body[i], lineno)
  {
    assert body[..i + 1] == body[..i] + [body[i]];
    ClassVisitsSnoc(body[..i], body[i], lineno);
  }

  lemma ExtractOne(v: Visit, file: string, unparse: Tree -> string)
    ensures Extract([v], file, unparse) == OptionToSeq(ExtractFunction(v.fn, file, v.parent, unparse))
  {
    var f := (w: Visit) => OptionToSeq(ExtractFunction(w.fn, file, w.parent, unparse));
    assert [v][0] == v && [v][1..] == [];
    assert FlatMap([v], f) == f(v) + FlatMap([], f);
  }

  /** Walking a class body is walking its statements one after another, in order. */
  lemma {:induction false} ClassVisitsAppend(a: seq<Decl>, b: seq<Decl>, lineno: int)
    ensures ClassVisits(a + b, lineno) == ClassVisits(a, lineno) + ClassVisits(b, lineno)
    decreases |a|
  {
    if a == [] {
      assert a + b == b;
    } else {
      assert (a + b)[0] == a[0] && (a + b)[1..] == a[1..] + b;
      ClassVisitsAppend(a[1..], b, lineno);
    }
  }

  lemma ClassVisitsSnoc(a: seq<Decl>, d: Decl, lineno: int)
    ensures ClassVisits(a + [d], lineno) == ClassVisits(a, lineno) + ItemVisits(d, lineno)
  {
    ClassVisitsAppend(a, [d], lineno);
    assert ClassVisits([d], lineno) == ItemVisits(d, lineno) + ClassVisits([], lineno);
  }

  /** Walking a module is walking its top-level statements one after another, in order, so
      records come out in declaration order. */
  lemma {:induction false} ModuleVisitsAppend(a: seq<Decl>, b: seq<Decl>, methods: bool)
    ensures ModuleVisits(a + b, methods) == ModuleVisits(a, methods) + ModuleVisits(b, methods)
    decreases |a|
  {
    if a == [] {
      assert a + b == b;
    } else {
      assert (a + b)[0] == a[0] && (a + b)[1..] == a[1..] + b;
      ModuleVisitsAppend(a[1..], b, methods);
    }
  }

  lemma ModuleVisitsSnoc(a: seq<Decl>, d: Decl, methods: bool)
    ensures ModuleVisits(a + [d], methods) == ModuleVisits(a, methods) + TopVisits(d, methods)
  {
    ModuleVisitsAppend(a, [d], methods);
  }

  // ---------------------------------------------------------------------------
  // Which functions the walk reaches, and with which class line
  // ---------------------------------------------------------------------------

  /** `fn` is declared directly in `ds`. */
  predicate Declares(ds: seq<Decl>, fn: Function) {
    exists d | d in ds :: d.FunctionDef? && d.fn == fn
  }

  /** The classes reachable from `ds` through class bodies only: each class, then the classes
      of its body, in declaration order. */
  function Classes(ds: seq<Decl>): seq<Decl>
    decreases ds
  {
    if ds == [] then [] else ClassesOf(ds[0]) + Classes(ds[1..])
  }

  function ClassesOf(d: Decl): seq<Decl>
    decreases d
  {
    if d.ClassDef? then [d] + Classes(d.body) else []
  }

  /** `fn` is declared directly in the body of a class of `ks` whose line is `parent`. */
  predicate MemberOf(ks: seq<Decl>, fn: Function, parent: int) {
    exists k | k in ks :: k.ClassDef? && k.lineno == parent && Declares(k.body, fn)
  }

  /** A walk of one statement reaches exactly the function itself (with the given class line)
      and the direct members of the classes it contains (each with its own class's line). */
  lemma {:induction false} ItemVisitsMembers(d: Decl, lineno: int, v: Visit)
    ensures v in ItemVisits(d, lineno) <==>
      (d.FunctionDef? && v == Visit(d.fn, lineno)) || MemberOf(ClassesOf(d), v.fn, v.parent)
    decreases d, 0
  {
    match d
    case ClassDef(inner, body) =>
      ClassVisitsMembers(body, inner, v);
      var k := d;
      assert ClassesOf(d) == [k] + Classes(body);
      if v.parent == inner && Declares(body, v.fn) {
        assert k in ClassesOf(d) && k.lineno == v.parent && Declares(k.body, v.fn);
      }
      if MemberOf(ClassesOf(d), v.fn, v.parent) {
        var k' :| k' in ClassesOf(d) && k'.ClassDef? && k'.lineno == v.parent && Declares(k'.body, v.fn);
        assert k' == k || k' in Classes(body);
      }
    case FunctionDef(_, _) =>
    case OtherStmt =>
  }

  /** A walk of a class body on line `lineno` reaches exactly the functions declared directly
      in it, tagged `lineno`, and the functions declared directly in the classes nested in it
      through class bodies, each tagged with its own directly enclosing class's line.
      Functions declared inside functions are not reached. */
  lemma {:induction false} ClassVisitsMembers(body: seq<Decl>, lineno: int, v: Visit)
    ensures v in ClassVisits(body, lineno) <==>
      (v.parent == lineno && Declares(body, v.fn)) || MemberOf(Classes(body), v.fn, v.parent)
    decreases body, 1
  {
    if body != [] {
      var d := body[0];
      var rest := body[1..];
      assert body == [d] + rest;
      ItemVisitsMembers(d, lineno, v);
      ClassVisitsMembers(rest, lineno, v);
      assert Classes(body) == ClassesOf(d) + Classes(rest);
      assert Declares(body, v.fn) <==> (d.FunctionDef? && d.fn == v.fn) || Declares(rest, v.fn);
      assert MemberOf(Classes(body), v.fn, v.parent) <==>
        MemberOf(ClassesOf(d), v.fn, v.parent) || MemberOf(Classes(rest), v.fn, v.parent);
    }
  }

  /** In methods mode the module is walked like a class body with no class line (-1). */
  lemma {:induction false} MethodsModeIsClassWalk(body: seq<Decl>)
    ensures ModuleVisits(body, true) == ClassVisits(body, -1)
    decreases |body|
  {
    if body != [] {
      MethodsModeIsClassWalk(body[1..]);
    }
  }

  /** In methods mode the walk reaches the top-level functions, tagged -1, and the direct
      members of every class reachable through class bodies, tagged with their own class's
      line. */
  lemma MethodsModeMembers(body: seq<Decl>, v: Visit)
    ensures v in ModuleVisits(body, true) <==>
      (v.parent == -1 && Declares(body, v.fn)) || MemberOf(Classes(body), v.fn, v.parent)
  {
    MethodsModeIsClassWalk(body);
    ClassVisitsMembers(body, -1, v);
  }

  /** In functions mode classes are skipped entirely: the walk reaches exactly the
      top-level functions, tagged -1. */
  lemma {:induction false} FunctionsModeMembers(body: seq<Decl>, v: Visit)
    ensures v in ModuleVisits(body, false) <==> v.parent == -1 && Declares(body, v.fn)
    decreases |body|
  {
    if body != [] {
      FunctionsModeMembers(body[1..], v);
      assert body == [body[0]] + body[1..];
      assert Declares(body, v.fn) <==>
        (body[0].FunctionDef? && body[0].fn == v.fn) || Declares(body[1..], v.fn);
    }
  }

  // ---------------------------------------------------------------------------
  // When process_function appends a record
  // ---------------------------------------------------------------------------

  /** `process_function` appends a record exactly when there is a docstring, it holds no CJK
      character, and both the header and the body are non-empty; the emptiness test on the
      pretty docstring never fires. The record holds the header, the body, the pretty
      docstring and the metadata. */
  lemma ExtractFunctionEmits(fn: Function, file: string, parent: int, unparse: Tree -> string)
    ensures ExtractFunction(fn, file, parent, unparse).Some? <==>
      && fn.docstring.Some?
      && !HasCjk(fn.docstring.value)
      && Header(UnparsedLines(fn, unparse), fn.decorators) != ""
      && Body(UnparsedLines(fn, unparse), fn.decorators) != ""
    ensures ExtractFunction(fn, file, parent, unparse).Some? ==>
      var lines := UnparsedLines(fn, unparse);
      ExtractFunction(fn, file, parent, unparse).value == Record(
        Header(lines, fn.decorators), Body(lines, fn.decorators),
        PrettyDocstring(fn.docstring.value), Meta(file, fn.lineno, parent))
  {
    if fn.docstring.Some? {
      PrettyDocstringQuoted(fn.docstring.value);
    }
  }

  /** The metadata reads back: for a file name without a space, splitting it on spaces gives
      the file name, the function's line and, exactly when there is an enclosing class
      (`parent > -1`), the class's line, each number in decimal. */
  lemma MetaReadsBack(file: string, lineno: nat, parent: int)
    requires ' ' !in file
    ensures var fields := Split(Meta(file, lineno, parent), ' ');
      && fields == [file, NatToDecimal(lineno)] + (if parent > -1 then [NatToDecimal(parent)] else [])
      && DecimalValue(fields[1]) == lineno
      && (parent > -1 ==> DecimalValue(fields[2]) == parent)
  {
    if parent > -1 {
      MetaFieldsOfMethod(file, lineno, parent);
    } else {
      MetaFieldsOfFunction(file, lineno, parent);
    }
  }

  lemma MetaFieldsOfMethod(file: string, lineno: nat, parent: int)
    requires ' ' !in file && parent > -1
    ensures Split(Meta(file, lineno, parent), ' ') == [file, NatToDecimal(lineno), NatToDecimal(parent)]
  {
    var line, cls := NatToDecimal(lineno), NatToDecimal(parent);
    DecimalHasNoSpace(line);
    DecimalHasNoSpace(cls);
    assert Meta(file, lineno, parent) == file + [' '] + (line + [' '] + cls);
    SplitFields(file, line, cls, ' ');
  }

  lemma MetaFieldsOfFunction(file: string, lineno: nat, parent: int)
    requires ' ' !in file && parent <= -1
    ensures Split(Meta(file, lineno, parent), ' ') == [file, NatToDecimal(lineno)]
  {
    var line := NatToDecimal(lineno);
    DecimalHasNoSpace(line);
    assert Meta(file, lineno, parent) == file + [' '] + line;
    SplitOnce(file, line, ' ');
    SplitWhole(line, ' ');
  }

  lemma SplitFields(a: string, b: string, c: string, sep: char)
    requires sep !in a && sep !in b && sep !in c
    ensures Split(a + [sep] + (b + [sep] + c), sep) == [a, b, c]
  {
    SplitOnce(b, c, sep);
    SplitWhole(c, sep);
    SplitOnce(a, b + [sep] + c, sep);
  }

  lemma DecimalHasNoSpace(d: string)
    requires forall i :: 0 <= i < |d| ==> '0' <= d[i] <= '9'
    ensures ' ' !in d
  {
  }

  // ---------------------------------------------------------------------------
  // The header and body encodings
  // ---------------------------------------------------------------------------

  /** Keeping body lines distributes over concatenation, so body lines keep their order. */
  lemma {:induction false} BodyLinesAppend(a: seq<string>, b: seq<string>)
    ensures BodyLines(a + b) == BodyLines(a) + BodyLines(b)
    decreases |b|
  {
    if b == [] {
      assert a + b == a;
    } else {
      assert (a + b)[..|a + b| - 1] == a + b[..|b| - 1];
      BodyLinesAppend(a, b[..|b| - 1]);
    }
  }

  /** An empty line is dropped; any other line is escaped, then re-indented with " DCSP ". */
  lemma BodyLineKept(line: string)
    ensures BodyLines([line]) == (if line == "" then [] else [ReduceIdent(Escape(line), " DCSP ")])
  {
    assert [line][..0] == [];
  }

  /** Every line the header is made of is an escaped unparsed line: each `DCNL` in it
      follows a `DCQT`, and unescaping gives the unparsed line back. The header holds as many
      lines as the clamped slice `[2, 3 + d)` has. */
  lemma HeaderLinesEscaped(lines: seq<string>, d: nat)
    ensures var h := Slice(lines, 2, 3 + d);
      && |h| == (if |lines| <= 2 then 0 else if 3 + d < |lines| then 1 + d else |lines| - 2)
      && forall k :: 0 <= k < |h| ==>
        NewlinesGuarded(EscapeAll(h)[k]) && Unescape(EscapeAll(h)[k]) == h[k]
  {
    var h := Slice(lines, 2, 3 + d);
    forall k | 0 <= k < |h| ensures NewlinesGuarded(EscapeAll(h)[k]) && Unescape(EscapeAll(h)[k]) == h[k] {
      EscapeGuardsNewlines(h[k]);
      UnescapeEscape(h[k]);
    }
  }
}
