# python-docstring-generator: corpus encoding and graph-stage glue, in Dafny

This project models the two scripts that build a code/docstring training corpus.

`src/generate-corpus.py` walks the declarations of a Python module. For every documented
function it writes one four-field record: header, body, docstring and provenance. It uses a
flat text encoding with sentinel words:

- `DCNL` separates lines;
- `DCSP` stands for an indentation step or a space inside a string literal;
- `DCTB` stands for a tab inside a string literal;
- `DCQT` and `DCQS` escape sentinel words that were already in the text.

`src/generate-graphs.py` decodes the records again. It hands each body to a graph generator
and tokenizes each docstring. It keeps the samples whose graph could be built.

The modules are:

| module | file | models |
|---|---|---|
| `Text` | `text.dfy` | Python's `str.replace` (leftmost, non-overlapping, replace-all), `split`, `join`, `strip`, clamped slicing, `isspace`, `isalnum`, `str(n)` |
| `ControlEscape` | `control_escape.dfy` | `escape_control_strings`, a single-pass reference for it, and the unescape it is built for |
| `Encoder` | `encoder.dfy` | `reduce_ident`, `prettify_docstring` (a method with its loop, and the function that specifies it) |
| `Literals` | `literals.dfy` | `inplace_escape_spaces_in_strings` over a syntax-tree datatype |
| `Extractor` | `extractor.dfy` | `process_function`, `process_class`, `process_module` over a `Corpus` object whose record list they append to |
| `Tokenizer` | `tokenizer.dfy` | `docstring_tokenize`: the regular expression as a left-to-right scanner with the same alternative order |
| `Decoder` | `decoder.dfy` | the replace chains in `main` of the graph stage |
| `GraphStage` | `graph_stage.dfy` | `process_body` over an abstract graph, the sequential branch of `process_data`, and `main`'s data flow |

Some library results are inputs to the model rather than computed by it:

- `ast.parse` is replaced by the `Decl` and `Tree` datatypes;
- `ast.get_docstring` is a field of `Function`;
- `astunparse.unparse` is a function parameter;
- `textwrap.dedent` is a function parameter;
- the parser and `AstGraphGenerator` of the graph stage are one parameter. It returns the
  generator's final state, or `None` when parsing or graph building raises.

Behaviours of the code a reader might not expect:

- **Decoding is not a strict inverse.** The decode chains only touch `"DCNL "` and `"DCSP "`.
  A space inside a string literal comes back as a tab (`Decoder.LiteralSpaceBecomesTab`).
  The `DCQT` escape is never undone (`Decoder.EscapedSeparatorNotRestored`). `DCQT`, `DCQS`
  and `DCTB` survive decoding wherever they stand in a record: decoding `a + w + b` gives
  the decoded `a`, then `w`, then the decoded `b` (`Decoder.DecodeBodyKeepsEscape`,
  `Decoder.DecodeDocstringKeepsEscape`).
- **Arrows are not kept together.** The tokenizer keeps a run together only when it repeats
  one delimiter, so `->` gives two tokens (`Tokenizer.ArrowIsTwoTokens`).
- **A docstring with no alphanumeric line still gives a record.** `prettify_docstring` then
  returns the two-character string `''`, which is not empty, so the emptiness test at
  src/generate-corpus.py:82 never rejects it (`Encoder.SeparatorOnlyDocstring`,
  `Extractor.ExtractFunctionEmits`).

## Model

| member | source | states |
|---|---|---|
| ControlEscape.EscapeUnchanged | src/generate-corpus.py:43-44 | text with neither `DCQT` nor `DCNL` is returned unchanged |
| ControlEscape.EscapeIsSinglePass | src/generate-corpus.py:43-44 | the two chained replace-alls equal one left-to-right pass that doubles `DCQT` and prefixes `DCNL` with `DCQT`; the second replace never rewrites what the first produced |
| ControlEscape.EscapeGuardsNewlines | src/generate-corpus.py:43-44 | every `DCNL` in the escaped text comes right after a `DCQT` |
| ControlEscape.UnescapeEscape | src/generate-corpus.py:43-44 | a left-to-right unescape (`DCQT` + sentinel means that sentinel) gives the input back, for every input |
| Encoder.ReduceIdentIndent | src/generate-corpus.py:35-40 | for a line holding a non-space character: the separator repeated ⌊leading whitespace / 4⌋ times, then the line stripped at both ends |
| Encoder.ReduceIdentBlank | src/generate-corpus.py:35-40 | a line of whitespace only becomes the empty string (`rstrip` runs first, so no separator is emitted) |
| Encoder.ReduceIdentNoTrailingSpace | src/generate-corpus.py:35-40 | the result never ends in whitespace, whatever the separator |
| Encoder.PrettifyDocstring | src/generate-corpus.py:18-28 | the loop that builds `rv_list` yields the specification `PrettyDocstring`: escaped text, split on newlines, kept lines joined by " DCNL ", wrapped in quotes |
| Encoder.ContentLineKept | src/generate-corpus.py:22-27 | a line is kept, stripped, exactly when its stripped form holds an alphanumeric character |
| Encoder.ContentLinesAppend | src/generate-corpus.py:22-27 | keeping lines distributes over concatenation, so kept lines stay in input order |
| Encoder.ContentLinesAreContent | src/generate-corpus.py:22-27 | every kept line holds an alphanumeric character and has no whitespace at either end; no more lines come out than went in |
| Encoder.ReplaceEscapesQuotes | src/generate-corpus.py:20 | after `replace("'", "\\'")` every quote is preceded by a backslash |
| Encoder.PrettyDocstringQuoted | src/generate-corpus.py:19-28 | the result has length at least 2, starts and ends with a quote, and every inner quote follows a backslash; so it is never empty |
| Encoder.SeparatorOnlyDocstring | src/generate-corpus.py:19-28 | a docstring without any alphanumeric character becomes `''` |
| Literals.EscapeKeepsShape | src/generate-corpus.py:47-53 | the escaped tree has the same nodes, kinds and child counts as the input tree; only literals change |
| Literals.EscapeRewritesLiterals | src/generate-corpus.py:47-53 | the literals of the escaped tree, in pre-order, are the input's literals each passed through the five replaces |
| Literals.NoTabInEscapedTree | src/generate-corpus.py:47-53 | no literal of the escaped tree holds a tab |
| Literals.NoTabInEscapedLiteral | src/generate-corpus.py:49-50 | one escaped literal holds no tab |
| Literals.PlainLiteralUnchanged | src/generate-corpus.py:49-50 | a literal with no space, no tab and no `DCQS` is unchanged |
| Extractor.ProcessBodyLines | src/generate-corpus.py:71-77 | the body loop yields `BodyLines`: empty lines dropped, every other line escaped and then re-indented with " DCSP ", in order |
| Extractor.ProcessFunction | src/generate-corpus.py:56-84 | the corpus becomes its old records followed by the record of `ExtractFunction`, if there is one; nothing else changes |
| Extractor.ExtractFunctionEmits | src/generate-corpus.py:56-84 | a record is appended exactly when the docstring exists, holds no character in U+4E00..U+9FFF, and header and body are non-empty; the pretty-docstring test never fires; the record is (header, body, pretty docstring, metadata) |
| Extractor.HeaderLinesEscaped | src/generate-corpus.py:66-70 | the header is made of the clamped slice [2, 3 + d) of unparsed lines, with its length case by case, each line escaped so that its `DCNL`s are guarded and it unescapes to the unparsed line |
| Extractor.BodyLineKept | src/generate-corpus.py:72-77 | an empty body line is dropped; any other is escaped first and re-indented second |
| Extractor.BodyLinesAppend | src/generate-corpus.py:71-78 | body lines keep their order |
| Extractor.MetaReadsBack | src/generate-corpus.py:79-81 | for a file name without a space, splitting the metadata on spaces gives the file name, the decimal line number and, exactly when `parent_class_lineno > -1`, the decimal class line number; each decimal field reads back as the number written |
| Extractor.ProcessClass | src/generate-corpus.py:88-93 | the corpus becomes its old records followed by the records of the class walk `ClassVisits`; nothing else changes |
| Extractor.ProcessClassItem | src/generate-corpus.py:90-93 | one statement of a class body: a nested class is walked with its own line, a function is processed with the enclosing class's line, anything else adds nothing; the corpus gains exactly the records of `ItemVisits` |
| Extractor.ProcessModule | src/generate-corpus.py:96-104 | the corpus becomes its old records followed by the records of the module walk `ModuleVisits`; nothing else changes |
| Extractor.ProcessModuleItem | src/generate-corpus.py:100-104 | one top-level statement: a class is walked only in methods mode, a function is processed with class line -1, anything else adds nothing; the corpus gains exactly the records of `TopVisits` |
| Extractor.ExtractAppend | src/generate-corpus.py:84 | the records of consecutive calls are the records of each call, in call order |
| Extractor.ClassVisitsAppend | src/generate-corpus.py:89-93 | a class body is walked statement by statement in declaration order |
| Extractor.ModuleVisitsAppend | src/generate-corpus.py:99-104 | a module is walked statement by statement in declaration order |
| Extractor.ClassVisitsMembers | src/generate-corpus.py:88-93 | a class walk reaches exactly the functions declared directly in the class, tagged with its line, and those declared directly in nested classes, each tagged with its own directly enclosing class's line; functions inside functions are never reached |
| Extractor.MethodsModeIsClassWalk | src/generate-corpus.py:99-104 | in methods mode the module is walked like a class body with class line -1 |
| Extractor.MethodsModeMembers | src/generate-corpus.py:99-104 | in methods mode top-level functions are reached, tagged -1, alongside the members of every class |
| Extractor.FunctionsModeMembers | src/generate-corpus.py:99-104 | in functions mode classes are skipped: exactly the top-level functions are reached, tagged -1 |
| Tokenizer.ExcludedChars | src/generate-graphs.py:25-26 | a character is in the first alternative's class exactly when it is not whitespace and not one of the twenty excluded characters |
| Tokenizer.MatchLengthZero | src/generate-graphs.py:25-26 | no alternative matches at a position exactly when its character is whitespace or one of `,` `'` `"` and the backtick |
| Tokenizer.MatchShape | src/generate-graphs.py:25-26 | a match is a run of word characters, a run of one delimiter, or one of the pairs `()`, `{}`, `[]` |
| Tokenizer.MatchNotSkipped | src/generate-graphs.py:25-26 | no match holds whitespace or one of `,` `'` `"` and the backtick |
| Tokenizer.TokensClean | src/generate-graphs.py:25-30 | every token is non-empty and holds neither whitespace nor `,` `'` `"` or the backtick |
| Tokenizer.TokensCoverInput | src/generate-graphs.py:25-30 | the tokens, joined, are the input with exactly the skipped characters removed: in order, without overlap, losing nothing else |
| Tokenizer.TokensSubsequence | src/generate-graphs.py:25-30 | the tokens, joined, are a subsequence of the input |
| Tokenizer.TokenizeFilterIsIdentity | src/generate-graphs.py:29-30 | the `None`/empty filter of `docstring_tokenize` removes nothing |
| Tokenizer.DelimiterRunIsOneToken | src/generate-graphs.py:25-26 | a run of one repeated delimiter (`...`, `((`, `==`) is one token |
| Tokenizer.PairFirst | src/generate-graphs.py:25-26 | `()`, `{}` and `[]` are taken as pairs before bracket runs are tried |
| Tokenizer.OpeningRunBeforeClose | src/generate-graphs.py:25-26 | `(()` gives `((` then `)` |
| Tokenizer.ArrowIsTwoTokens | src/generate-graphs.py:25-26 | `->` gives `-` then `>` |
| Tokenizer.WordIsOneToken | src/generate-graphs.py:25-26 | a word of word characters is one token |
| Decoder.DecodeBodyClean | src/generate-graphs.py:108-109 | a decoded body holds no `"DCNL "` and no `"DCSP "` |
| Decoder.DecodeDocstringClean | src/generate-graphs.py:111-112 | a decoded docstring holds no `"DCNL "` and no `"DCSP "` |
| Decoder.DecodeCorpusAligned | src/generate-graphs.py:108-114 | there are as many bodies as docstrings, one per record, as `main` asserts, and every docstring is decoded clean |
| Decoder.DecodeBodyUnchanged | src/generate-graphs.py:108-109 | text holding neither `"DCNL "` nor `"DCSP "` decodes to itself |
| Decoder.DecodeDocstringUnchanged | src/generate-graphs.py:111-112 | text holding neither `"DCNL "` nor `"DCSP "` decodes to itself |
| Decoder.EscapeWordIsolated | src/generate-graphs.py:108-112 | no decode pattern can overlap any of `DCQT`, `DCQS`, `DCTB`, whatever surrounds it |
| Decoder.DecodeBodyKeepsEscape | src/generate-graphs.py:108-109 | for every `a` and `b` and each of `DCQT`, `DCQS`, `DCTB` as `w`, decoding `a + w + b` gives decoded `a`, then `w` unchanged, then decoded `b` |
| Decoder.DecodeDocstringKeepsEscape | src/generate-graphs.py:111-112 | the same for the docstring decode chain |
| Decoder.LiteralSpaceBecomesTab | src/generate-graphs.py:108-109 | a literal space is encoded as " DCSP " and decodes to a tab |
| Decoder.EscapedSeparatorNotRestored | src/generate-graphs.py:108-109 | text "DCNL " is encoded as "DCQTDCNL " and decodes to "DCQT" and a newline |
| GraphStage.EdgeListLength | src/generate-graphs.py:44-46 | the edge list has one triple per edge type of each entry: its length is the sum of the type counts |
| GraphStage.EdgeListMembers | src/generate-graphs.py:44-46 | a triple is in the edge list exactly when its type belongs to the entry for its origin and destination |
| GraphStage.SortByKeySorts | src/generate-graphs.py:50-51 | the sort orders label entries by node id and is a permutation |
| GraphStage.SortByKeyStrict | src/generate-graphs.py:50-51 | with distinct ids, as in a dictionary, the order is strict, so it is the order of `sorted` on the pairs |
| GraphStage.NodeLabelsOrdered | src/generate-graphs.py:50-51 | one label per node, in ascending order of node id, each stripped |
| GraphStage.ProcessBodyResult | src/generate-graphs.py:33-61 | a sample comes back exactly when the graph is built, and never an exception; it holds the flattened edges, the terminal path, one label per node and the docstring's non-empty tokens |
| GraphStage.ProcessData | src/generate-graphs.py:72-82 | the sequential loop and filter give the present results of the `zip` of bodies and docstrings, in input order |
| GraphStage.SomesLength | src/generate-graphs.py:82 | the filter keeps no more results than it is given |
| GraphStage.SomesAllPresent | src/generate-graphs.py:82 | when no result is `None`, the filter keeps every value in order |
| GraphStage.SomesMembers | src/generate-graphs.py:82 | a sample is kept exactly when it was produced |
| GraphStage.SomesAppend | src/generate-graphs.py:82 | filtering splits over concatenation, so kept samples stay in input order |
| GraphStage.ProcessDataCount | src/generate-graphs.py:72-87 | at most one sample per input; when every graph is built, exactly one per pair, the i-th for the i-th pair |
| GraphStage.GraphDataFacts | src/generate-graphs.py:107-116 | `main` keeps at most one sample per record, and a sample is kept exactly when some record's decoded body and docstring produce it |

## Left out

- `src/scraper.py` is not part of this model. It is GitHub search, cloning, locking and pickle persistence.
- `ast.parse`, `astunparse.unparse` and `ast.get_docstring` are foreign library calls. Their results are inputs.
- `AstGraphGenerator` is not part of this model. Its final state is an input: `graph.items()` and `node_label.items()` in dictionary order, and `terminal_path`.
- Edge types are a sequence in the generator's iteration order. Iteration order of Python sets and dictionaries is not modelled.
- `textwrap.dedent` is a parameter, so decoded bodies are described before it runs.
- The joblib and multiprocessing branches are concurrency. Only the sequential mode of `process_data` and of the corpus walk is modelled.
- File walking, index caching, `realpath`, pickle I/O and the click command lines are I/O.
- `unparse` is total in the model, so exceptions during a file's walk are not modelled. In the source, `process_function`, `process_class` and `process_module` have no `try` (src/generate-corpus.py:56-104), so a raise while processing one function aborts the rest of that file's walk. The records already appended to the shared corpus (line 84) stay, because the `except` clauses of `_process_file` (lines 111-114) only print. A failing file therefore keeps the records of the functions before the failing one and loses the rest.
- Extractor.MetaReadsBack: holds only for file names without a space. A path holding spaces splits into more fields.
- Progress printing (`print(len(corpus))` and the percentage in `process_body`) is output only.
- `decl_tokenizer` is not modelled. It calls an undefined `splitter` and cannot run.
- Literals.EscapeTree: returns a new tree instead of overwriting `node.s` in place, so aliasing between tree nodes is not modelled.
- Text.IsAlnum: follows Python only for U+0000..U+00FF. Above that it says false.
- Encoder.ReduceIdentIndent: states the indentation formula only for lines holding a non-space character. Whitespace-only lines give "" (`Encoder.ReduceIdentBlank`).
- Extractor.ProcessClass: drops `process_class`'s `parent_class_lineno` parameter, which the source never reads.
- GraphStage.ProcessBody: the backbone sequence is taken as a sequence of node ids. Label entries whose `strip` would raise are not modelled.
- GraphStage.SortByKey: matches `sorted` on `(id, label)` pairs only when ids are distinct, as they are in a dictionary.
