# N1QL-to-JSON semantic-action library, modelled in Dafny

The N1QL-to-JSON translator is a PEG-generated parser. Its grammar actions
build a JSON query tree out of fleece mutable arrays and dicts. The actions
use the helper header `n1ql-to-json/n1ql_parser_internal.hh`, and this
project models that header:

- **Adding values to containers.** `setAny`, `insertAny` and `appendAny`
  store a grammar semantic value (an `antlrcpp::Any`) into a dict or an
  array. An empty `Any` is dropped by the dict form and refused by the array
  form.
- **Constructors.** `array`, `arrayWith` and `dictWith` build new
  containers. `op`, `binaryOp` and `unaryOp` build operation nodes,
  `[operator, operand, ...]`, with operands in call order.
- **`hasPathPrefix`.** A segment-aligned path-prefix test: `.x` is a prefix
  of `.x.a` and `.x[0]` but not of `.xs`.
- **`substituteVariable` and `_substituteVariable`.** They walk an
  operation tree and turn the operator-position string `.x...` into the
  variable reference `?x...`.
- **String utilities.** `replace`, `trim`, `unquote` and `quoteProperty`.
- **`isReservedWord`.** A case-insensitive lookup in the N1QL keyword table.

Modules, one per part of the header:

- `CStrings`: NUL-free C strings. `CStr` models `std::string::c_str()` read
  back as a C string, which stops at the first NUL.
- `TaggedValue`: the closed `Any` datatype and the fleece `Slot` values. The
  classes `MArray` and `MDict` are shared, mutable container handles.
- `TreeBuilder`: the container operations. `setAny`, `insertAny` and
  `appendAny` change the container they are given and return the same
  handle; the constructors and the `op` forms return a fresh container.
- `PathResolver`: `HasPathPrefix`, `Retag` (what visiting one array does)
  and the recursive walk `ResolveIn`. The walk runs over the heap and is
  specified by the ghost predicate `Walked`.
- `Scenarios`: a whole condition built with the builder and then resolved.
- `StringUtils`: the string utilities. `Replace` is the source's in-place
  find-and-replace loop, proved equal to the reference function
  `ReplaceAll`.
- `ReservedWords`: the keyword table and its case-insensitive scan.

`_substituteVariable` (lines 184-197) rewrites only element 0 of each
array. From index 1 on, it only recurses into mutable arrays. So a bare
operand string such as `".x.name"` at index 1 is never rewritten; only a
reference written as its own array, `[".x.name"]`, is.
`Scenarios.NestedSubstitution` shows both cases in one tree.

## Model

| member | source | states |
|---|---|---|
| CStrings.CStr | n1ql-to-json/n1ql_parser_internal.hh:51 | `.c_str()` keeps the longest NUL-free prefix of the string: the result is a prefix, and it stops only at a NUL |
| CStrings.CStrOfCString | n1ql-to-json/n1ql_parser_internal.hh:117 | a string without NUL passes through `.c_str()` unchanged |
| TaggedValue.ToSlot | n1ql-to-json/n1ql_parser_internal.hh:44-59 | the discriminant dispatch of `setAny` (lines 44-59 and 67-82): each variant is stored through its own `set` primitive, so the slot reads back as the same value, except that a string is first cut at its first NUL by `.c_str()` (lines 51 and 74) |
| TaggedValue.FromSlot | n1ql-to-json/n1ql_parser_internal.hh:44-59 | the inverse of the `setAny` dispatch, used to state `ToSlot` and `StoreKeepsVariant`: every slot corresponds to a present (non-empty) value |
| TaggedValue.StoreKeepsVariant | n1ql-to-json/n1ql_parser_internal.hh:44-59 | storing a present, NUL-free value and reading it back gives the same variant and payload: the dispatch never turns one variant into another |
| TreeBuilder.DictStore | n1ql-to-json/n1ql_parser_internal.hh:41-63 | an absent value leaves the dict unchanged; any other value, explicit null included, adds exactly `key`, under which the value's slot is stored, and every other key keeps its value |
| TreeBuilder.Inserted | n1ql-to-json/n1ql_parser_internal.hh:88-91 | insertion widens the array by one: `x` lands at `i`, earlier elements stay, and later elements move up by one |
| TreeBuilder.AppendIsInsertAtEnd | n1ql-to-json/n1ql_parser_internal.hh:93-97 | appending is insertion at index `count()` |
| TreeBuilder.SetAnyInDict | n1ql-to-json/n1ql_parser_internal.hh:41-63 | the dict's new entries are `DictStore` of the old ones, and the same handle is returned |
| TreeBuilder.SetAnyInArray | n1ql-to-json/n1ql_parser_internal.hh:65-86 | requires a present value (the source asserts this); exactly the slot at `index` is overwritten, and the same handle is returned |
| TreeBuilder.InsertAny | n1ql-to-json/n1ql_parser_internal.hh:88-91 | the new elements are the old ones with the value's slot inserted at `index` |
| TreeBuilder.AppendAny | n1ql-to-json/n1ql_parser_internal.hh:93-97 | the new elements are the old ones followed by the value's slot |
| TreeBuilder.NewArray | n1ql-to-json/n1ql_parser_internal.hh:103-105 | a fresh, empty array |
| TreeBuilder.ArrayWith | n1ql-to-json/n1ql_parser_internal.hh:107-112 | a fresh array holding exactly `item` |
| TreeBuilder.ArrayWithString | n1ql-to-json/n1ql_parser_internal.hh:114-119 | a fresh array holding exactly the string's `.c_str()` text |
| TreeBuilder.ArrayWithAny | n1ql-to-json/n1ql_parser_internal.hh:121-125 | a fresh array holding exactly the value's slot |
| TreeBuilder.DictWith | n1ql-to-json/n1ql_parser_internal.hh:127-132 | a fresh dict with the one entry `key := item` |
| TreeBuilder.DictWithString | n1ql-to-json/n1ql_parser_internal.hh:134-139 | a fresh dict with the one entry `key :=` the `.c_str()` text |
| TreeBuilder.DictWithAny | n1ql-to-json/n1ql_parser_internal.hh:141-146 | a fresh dict: empty for an absent item, otherwise the one entry `key :=` the item's slot |
| TreeBuilder.Op1 | n1ql-to-json/n1ql_parser_internal.hh:152-154 | a fresh operation node `[oper, op1]` |
| TreeBuilder.Op2 | n1ql-to-json/n1ql_parser_internal.hh:156-158 | a fresh operation node `[oper, op1, op2]`, operands in call order |
| TreeBuilder.Op3 | n1ql-to-json/n1ql_parser_internal.hh:160-162 | a fresh operation node `[oper, op1, op2, op3]`, operands in call order |
| TreeBuilder.BinaryOp | n1ql-to-json/n1ql_parser_internal.hh:164-166 | requires the operator value to hold a string (`as<string>()`); gives `[oper, left, right]`, putting the operator first although it is passed in the middle |
| TreeBuilder.UnaryOp | n1ql-to-json/n1ql_parser_internal.hh:168-170 | requires the operator value to hold a string; gives `[oper, right]` |
| TreeBuilder.ComparisonScenario | n1ql-to-json/n1ql_parser_internal.hh:164-166 | `binaryOp(".age", ">", 21)` gives `[">", ".age", 21]` |
| TreeBuilder.AppendAfterEmbed | n1ql-to-json/n1ql_parser_internal.hh:152-154 | an array embedded in an operation node and appended to afterwards is seen grown through its parent, because containers are shared handles |
| PathResolver.HasPathPrefix | n1ql-to-json/n1ql_parser_internal.hh:173-176 | `hasPathPrefix(path, prefix)` holds exactly when `path` is `prefix` followed by nothing, or by text that opens a new `.` or `[` segment |
| PathResolver.PathPrefixSplit | n1ql-to-json/n1ql_parser_internal.hh:173-176 | for a path that textually starts with `prefix`, the path has `prefix` as a path prefix exactly when the rest is empty or starts with `.` or `[` |
| PathResolver.PathPrefixNeedsTextualPrefix | n1ql-to-json/n1ql_parser_internal.hh:173-176 | without a textual prefix there is no path prefix |
| PathResolver.PathPrefixReflexive | n1ql-to-json/n1ql_parser_internal.hh:174 | every path is a path prefix of itself (the `path.size == prefix.size` case); for the empty path this rests on the empty-prefix reading named under "Left out" |
| PathResolver.PathPrefixTransitive | n1ql-to-json/n1ql_parser_internal.hh:173-176 | segment-aligned prefixes compose |
| PathResolver.PathPrefixExamples | n1ql-to-json/n1ql_parser_internal.hh:173-176 | `.x` is a path prefix of `.x.a`, `.x[0]` and `.x`, but not of `.xs`; `.address` is a path prefix of `.address.city` and `.addr` does not have it as one |
| PathResolver.AsString | n1ql-to-json/n1ql_parser_internal.hh:187-189 | fleece's `asString()`: the text of a string slot or of an immutable string value, and the empty slice for any other slot, so that no other slot ever has the variable as a path prefix |
| PathResolver.Retag | n1ql-to-json/n1ql_parser_internal.hh:186-192 | visiting an array changes at most element 0, keeps the length, and changes anything only when element 0's text has the variable as a path prefix |
| PathResolver.RetagRewritesFirstChar | n1ql-to-json/n1ql_parser_internal.hh:188-191 | a matching NUL-free operator string keeps its length and every character but the first, and the first becomes `?` |
| PathResolver.RetagIdempotent | n1ql-to-json/n1ql_parser_internal.hh:186-192 | visiting an array twice has the effect of visiting it once |
| PathResolver.ReachesRank | n1ql-to-json/n1ql_parser_internal.hh:193-197 | a walk stays among the described arrays and never visits one of higher rank, so the recursion terminates |
| PathResolver.WalkChildStep | n1ql-to-json/n1ql_parser_internal.hh:194-196 | recursing into the array at `index` extends the walked part by that element, even when the child shares arrays with earlier siblings |
| PathResolver.WalkDone | n1ql-to-json/n1ql_parser_internal.hh:184-198 | once the loop has handled every element, the whole walk from `expr` is complete |
| PathResolver.WalkedTwice | n1ql-to-json/n1ql_parser_internal.hh:182-199 | two walks with the same prefix have the effect of one |
| PathResolver.ResolveIn | n1ql-to-json/n1ql_parser_internal.hh:182-199 | every array reachable from `expr` through elements at index 1 or more is retagged; every other array keeps its elements; the heap keeps its shape |
| PathResolver.SubstituteVariable | n1ql-to-json/n1ql_parser_internal.hh:201-204 | the walk with prefix `"." + var`: every reachable array is retagged and nothing else changes |
| PathResolver.SubstituteVariableTwice | n1ql-to-json/n1ql_parser_internal.hh:201-204 | substituting the same variable twice leaves the tree as substituting it once does |
| Scenarios.BuildCondition | n1ql-to-json/n1ql_parser_internal.hh:152-158 | `op("NOT", op("=", [".x.a"], ".x.c"))` builds three distinct fresh arrays with exactly the expected elements |
| Scenarios.ConditionReaches | n1ql-to-json/n1ql_parser_internal.hh:193-197 | from the root, the walk reaches both nested arrays |
| Scenarios.ConditionRetags | n1ql-to-json/n1ql_parser_internal.hh:186-192 | retagging with `.x` rewrites `[".x.a"]` to `["?x.a"]` and leaves the `NOT` and `=` nodes as they are |
| Scenarios.ConditionWalked | n1ql-to-json/n1ql_parser_internal.hh:182-199 | any finished walk of `.x` over the condition changes `[".x.a"]` into `["?x.a"]` and nothing else |
| Scenarios.NestedSubstitution | n1ql-to-json/n1ql_parser_internal.hh:201-204 | substituting `x` into the built condition rewrites the nested reference array two levels down, and leaves the operand string `.x.c` and both operators unchanged |
| StringUtils.MatchShift | n1ql-to-json/n1ql_parser_internal.hh:212 | a match in a suffix at `j` is a match in the whole string at the shifted index |
| StringUtils.Find | n1ql-to-json/n1ql_parser_internal.hh:212 | `std::string::find(pat, from)`: gives the first index at or after `from` where `pat` occurs, or none (`npos`) when no index at or after `from` matches |
| StringUtils.ReplaceAllNoMatch | n1ql-to-json/n1ql_parser_internal.hh:210-216 | a suffix with no occurrence of the pattern is left unchanged by replace-all |
| StringUtils.ReplaceAllFirstMatch | n1ql-to-json/n1ql_parser_internal.hh:212-214 | replace-all of a suffix keeps the text up to the first occurrence, puts the replacement in its place, and goes on after the occurrence |
| StringUtils.ReplaceAllNotLonger | n1ql-to-json/n1ql_parser_internal.hh:227-230 | a replacement no longer than the pattern never lengthens the string |
| StringUtils.ReplaceCharAppend | n1ql-to-json/n1ql_parser_internal.hh:233-234 | replacing a single character distributes over concatenation |
| StringUtils.ReplaceStep | n1ql-to-json/n1ql_parser_internal.hh:212-214 | the text before `pos` followed by replace-all of the rest equals the text up to the match, then the replacement, then replace-all after the match |
| StringUtils.ReplaceLoopStep | n1ql-to-json/n1ql_parser_internal.hh:213-214 | one `str.replace(pos, ...)` followed by `pos += newStr.size()` preserves the loop invariant "done part + replace-all of the rest = replace-all of the input" |
| StringUtils.ReplaceLoopDone | n1ql-to-json/n1ql_parser_internal.hh:212 | when `find` reports `npos`, the string equals replace-all of the input |
| StringUtils.Replace | n1ql-to-json/n1ql_parser_internal.hh:210-216 | the in-place loop leaves `str` equal to `ReplaceAll(str, oldStr, newStr)`: every non-overlapping occurrence, scanned left to right, is replaced, and replaced text is never searched again |
| StringUtils.Unquote | n1ql-to-json/n1ql_parser_internal.hh:227-230 | every doubled quote character becomes one, and the result is no longer than the input |
| StringUtils.Doubled | n1ql-to-json/n1ql_parser_internal.hh:227-230 | doubling the quote characters never shortens a string |
| StringUtils.UnquoteDoubled | n1ql-to-json/n1ql_parser_internal.hh:227-230 | `unquote` undoes quote doubling: `Unquoted(Doubled(s, q), q) == s` for every `s` |
| StringUtils.UnquoteNoDoubled | n1ql-to-json/n1ql_parser_internal.hh:227-230 | a string with no two adjacent quote characters is left unchanged |
| StringUtils.UnquoteExamples | n1ql-to-json/n1ql_parser_internal.hh:227-230 | `unquote("it''s", '\'')` is `"it's"`, and `''''` becomes `''` (pairs, scanned left to right) |
| StringUtils.Escaped | n1ql-to-json/n1ql_parser_internal.hh:233-234 | an escaped property never starts with a bare `.` or `$` |
| StringUtils.EscapedLength | n1ql-to-json/n1ql_parser_internal.hh:233-234 | escaping adds exactly one backslash per `.` and per `$` |
| StringUtils.EscapedByReplacing | n1ql-to-json/n1ql_parser_internal.hh:233-234 | the two `replace` passes, `.` then `$`, give exactly the one-pass escape `Escaped`: the second pass never touches backslashes added by the first |
| StringUtils.QuoteProperty | n1ql-to-json/n1ql_parser_internal.hh:232-237 | the result is `.` followed by the escaped property |
| StringUtils.UnescapeEscaped | n1ql-to-json/n1ql_parser_internal.hh:233-234 | escaping can be undone: `Unescaped(Escaped(p)) == p` |
| StringUtils.QuotePropertyInjective | n1ql-to-json/n1ql_parser_internal.hh:232-237 | different properties get different quoted paths |
| StringUtils.QuotePropertyExample | n1ql-to-json/n1ql_parser_internal.hh:232-237 | `quoteProperty("a.b$c")` is `.a\.b\$c` |
| StringUtils.SkipSpace | n1ql-to-json/n1ql_parser_internal.hh:219-220 | the predicate `IsSpace` models `isspace` in the C locale (space, `\t`, `\n`, `\v`, `\f`, `\r`); the first non-space index at or after `i` (or the end), with only spaces skipped |
| StringUtils.SkipSpaceBack | n1ql-to-json/n1ql_parser_internal.hh:222-223 | the start of the run of spaces that ends at `hi`, not going below `lo` |
| StringUtils.Trim | n1ql-to-json/n1ql_parser_internal.hh:218-225 | both pointer loops together give `Trimmed(input)`, including the empty and all-space inputs where `last` ends before `input` |
| StringUtils.SkipSpaceUnique | n1ql-to-json/n1ql_parser_internal.hh:219-220 | the forward scan stops at the only index after a run of spaces that is not itself a space |
| StringUtils.SkipSpaceBackUnique | n1ql-to-json/n1ql_parser_internal.hh:222-223 | the backward scan stops at the only such index |
| StringUtils.TrimmedBounds | n1ql-to-json/n1ql_parser_internal.hh:218-225 | the trimmed text is a slice of the input; everything cut from either end is white space; and a non-empty result starts and ends with a non-space |
| StringUtils.TrimmedOfPadded | n1ql-to-json/n1ql_parser_internal.hh:218-225 | white space around a core that neither starts nor ends with a space is removed exactly |
| StringUtils.TrimIdempotent | n1ql-to-json/n1ql_parser_internal.hh:218-225 | trimming twice is trimming once |
| StringUtils.TrimEmpty | n1ql-to-json/n1ql_parser_internal.hh:218-225 | the result is empty if and only if the input is all white space |
| StringUtils.TrimExample | n1ql-to-json/n1ql_parser_internal.hh:218-225 | `"  a b \t"` trims to `"a b"` |
| ReservedWords.UpperString | n1ql-to-json/n1ql_parser_internal.hh:254 | keeps the length and upper-cases each character as the C locale does |
| ReservedWords.ScanIgnoringCase | n1ql-to-json/n1ql_parser_internal.hh:253-256 | the loop answers true exactly when some table entry equals `ident` ignoring ASCII case |
| ReservedWords.IsReservedWord | n1ql-to-json/n1ql_parser_internal.hh:243-257 | true exactly when `ident` matches one of the 46 table entries ignoring case |
| ReservedWords.TableIsCapitalised | n1ql-to-json/n1ql_parser_internal.hh:244-252 | every table entry is written in capital ASCII letters only |
| ReservedWords.SameIgnoringCaseCapital | n1ql-to-json/n1ql_parser_internal.hh:254 | the predicate `SameIgnoringCase` models `strcasecmp(a, b) == 0` in the C locale (equal lengths, equal characters after ASCII lower-casing); against a capitalised word, `strcasecmp(x, w) == 0` means exactly that upper-casing `x` gives `w` |
| ReservedWords.ReservedIffUpperInTable | n1ql-to-json/n1ql_parser_internal.hh:243-257 | a word is reserved if and only if its upper-cased form is in the table |
| ReservedWords.DuplicateHarmless | n1ql-to-json/n1ql_parser_internal.hh:247-248 | `MISSING` appears twice (indices 26 and 30), and dropping the second copy changes no answer |
| ReservedWords.ReservedInAnyCase | n1ql-to-json/n1ql_parser_internal.hh:243-257 | `select`, `Select`, `SELECT` and `missing` are reserved |
| ReservedWords.LongerWordNotReserved | n1ql-to-json/n1ql_parser_internal.hh:243-257 | `selected` is not reserved: the whole word must match, not a prefix |

## Left out

- Parser glue: the `YY_*` macros, `n1ql_input`, and the generated parser
  that includes the header (lines 13-35). Of `YYSTYPE`, only the
  `#define YYSTYPE Any` line (line 30) is glue; the semantic-value type
  itself is modelled by `TaggedValue.Any`. `n1ql_parser.h` and `Any.h` are
  not part of this model.
- PathResolver.HasPathPrefix: `hasPrefix` is read as textual prefix
  (`prefix <= path`), so an empty prefix is a path prefix of every path.
  fleece's `slice::hasPrefix` is not part of this model, and its answer for
  an empty prefix may differ. The header's only caller passes `"." + var`
  (line 203), which is never empty.
- fleece internals: containers are modelled by their contents alone
  (`seq<Slot>`, `map<string, Slot>`). Encoding, retain counts and
  copy-on-write are left out. An immutable `Value` is modelled only as "a
  string with this text" or "something else", which is all the header ever
  looks at.
- Floating point: a `double` is carried as its 64-bit pattern and never
  computed with.
- Exceptions and aborts: the `throw std::bad_cast()` fall-through (lines 61
  and 84) cannot be reached, because `Any` is a closed datatype holding only
  the dispatched variants. The `assert(!value.isNull())` at line 66 and the
  `as<string>()` casts at lines 165 and 169 become preconditions.
- TaggedValue.ToSlot: holds only for present values, because the source
  never stores an empty `Any` into an array.
- TreeBuilder.SetAnyInArray: requires `index` to be in range. fleece's own
  out-of-range `set` behaviour is not part of this model.
- `unsigned index` and `int index` are modelled as unbounded naturals. Arrays
  of more than 2^31 elements are out of scope.
- PathResolver.ResolveIn: takes ghost parameters that describe the reachable
  heap, `g` (each array's snapshot) and `rank` (a measure that decreases
  along nested arrays). So it is proved only for acyclic trees. Sharing is
  allowed. A cyclic tree makes the C++ recurse without end.
- PathResolver.RetagRewritesFirstChar: assumes NUL-free operator text. With
  an embedded NUL, `.c_str()` cuts the rewritten text short.
- Strings are values: `std::string &` parameters that are changed in place
  are modelled as a returned string.
- StringUtils.Replace: requires a non-empty `oldStr`. With an empty one,
  `find("", pos)` returns `pos` every time and `pos` grows exactly as fast as
  the string, so `npos` never comes and the source never terminates; for a
  non-empty `newStr` it grows the string without bound. No caller passes an
  empty pattern.
- `isspace` and `strcasecmp` are modelled in the C locale (`IsSpace`,
  `SameIgnoringCase`): the six ASCII white-space characters and ASCII
  letters only. Locales, and the undefined behaviour of `isspace` on
  negative `char` values, are left out. `UpperString` is a proof device for
  stating table membership, not a model of a call: the header calls no
  upper-casing function.
- Bytes: the source's `std::string` and `const char*` hold bytes, and the
  model holds Dafny `char`s. The two agree on valid UTF-8 input, because
  every character these operations test (white space, quotes, `.`, `$`,
  `[`, `?`, NUL and the letters of the keyword table) is ASCII.
- StringUtils.Trim: the pointer `input + strlen(input) - 1` for an empty
  string points before the buffer. The model treats that case as the empty
  result the loop computes.
