# BibDesk complex strings in Dafny

A model of the compound BibTeX field values of BibDesk, as declared in
`bibdesk/BDSKComplexString.h`:

- **String nodes** (`BDSKStringNode`): an immutable piece of a value, tagged
  as quoted text, a raw number or a macro reference. Nodes have structural
  equality (`isEqual:`) and a two-level comparison (`compareNode:options:`):
  first the node type, by the enum codes `BSN_STRING = 0`, `BSN_NUMBER = 1`,
  `BSN_MACRODEF = 2`; then, for equal types, the values under the comparison
  options.
- **Macro resolvers** (`BDSKMacroResolver`): a table from macro keys to
  definitions, with get-all, set-all, add, look up, remove, rename and set-one.
- **Complex strings** (`BDSKComplexString` and the
  `NSString (BDSKComplexStringExtensions)` category). A value is either simple
  (an `NSString`, or a `BDSKComplexString` that is not complex) or complex (an
  array of nodes). Both kinds carry the `inherited` flag. The model covers:
  - the expanded value, which resolves macros through a resolver's table;
  - equality and ordering "as complex strings", which compare nodes and
    never expanded values;
  - BibTeX serialisation (`stringAsBibTeXString`,
    `stringAsExpandedBibTeXString`) and the parser
    `complexStringWithBibTeXString:`, with the round trip between them;
  - node-aware substring search and replacement, including the count of
    replacements;
  - inherited and uninherited copies.

Modules:

- `Ordering` (ordering.dfy): `NSComparisonResult` and lexicographic order.
- `Search` (search.dfy): generic search and left-to-right replacement over
  sequences. Plain strings use it character by character; complex strings use
  it node by node.
- `StringNodes` (string_node.dfy): nodes and their comparison.
- `ComplexStrings` (complex_string.dfy): string values, expansion, equality,
  ordering, search and replace.
- `BibTeX` (bibtex.dfy): serialisation and parsing.
- `MacroResolvers` (macro_resolver.dfy): the resolver object.
- `ComplexStringObjects` (complex_string_object.dfy): `BDSKComplexString` as
  an object, holding a value from `ComplexStrings` and a reference to a
  resolver that can be replaced.

Modelling choices:

- **Comparison options.** The `mask` is reduced to one flag, case
  insensitivity. With it, the ASCII capitals fold to lower case. Characters
  are then compared by code point.
- **Complex or simple.** `isComplex` holds of a node array with more than one
  node, or with a single macro node. The type `BibString` enforces this.
  `complexStringWithArray:` of any other array gives the simple string of its
  text.
- **Expansion.** A quoted-string node or a number node contributes its value.
  A macro node contributes the expanded value of its definition. When the
  resolver has no definition for the key, or when the key is already being
  expanded (a cycle), it contributes the key itself. The fallback is taken
  node by node, following the header's "either the expanded value or the
  value of the macro itself". No error is reported, so a cycle can give a
  partial expansion (see "## Left out"). The set of keys being expanded is a
  device that makes expansion terminate.
- **Search and replace across kinds.** The doc comments of `hasSubstring:`
  (`BDSKComplexString.h:356`) and of the replacement method (`:364`) give two
  no-op cases: "the receiver is not complex and target is complex", and
  "target is not complex and the receiver is not complex". Read literally,
  the second one is the both-simple case, so every plain-string search would
  answer NO and every plain replacement would return the receiver. Since the
  operations are declared on every `NSString`, that cannot be meant. The
  model reads the second clause as the mirror mixed case: the receiver is
  complex and the target is not. So for mixed operands, `hasSubstring:`
  answers NO and the replacement returns the receiver unchanged with a count
  of 0.
  - Two simple strings: plain substring search and replacement in the text.
  - Two complex strings: only runs of whole nodes match. The header says
    this of replacement only (`:365`); for `hasSubstring:` (`:355-356`) it
    is the model's choice, made by analogy so that the replacement count is
    zero exactly when the search answers NO.

  Line `:365`, "When the receiver is complex, only whole node matches are
  replaced", could also be read on its own as covering a complex receiver
  with a simple target: quoted nodes equal to the target would then be
  replaced. The model does not do that, because under its reading of `:364`
  that case returns the receiver unchanged.

  An empty target never matches.
- **Replacement text for a simple receiver.** A simple receiver is rewritten
  with the replacement's plain (expanded) value. That value is computed with
  a table passed in as a parameter.
- **Serialisation and parsing.** The serialised value separates tokens with
  ` # `. Quoted text is written in braces; numbers and macro keys are written
  bare. The parser also reads double-quoted text and skips white space around
  tokens. It reports unbalanced delimiters, an empty token and an unexpected
  character as errors.

## Model

| member | source | states |
|---|---|---|
| `StringNodes.NodeWithQuotedString` | bibdesk/BDSKComplexString.h:60 | definition (with `initWithQuotedString:`, :87); its properties are in `StringNodes.NodeFactories` |
| `StringNodes.NodeWithNumberString` | bibdesk/BDSKComplexString.h:69 | definition (with `initWithNumberString:`, :96); its properties are in `StringNodes.NodeFactories` |
| `StringNodes.NodeWithMacroString` | bibdesk/BDSKComplexString.h:78 | definition (with `initWithMacroString:`, :105); its properties are in `StringNodes.NodeFactories` |
| `StringNodes.IsEqual` | bibdesk/BDSKComplexString.h:124 | definition; its properties are in `StringNodes.IsEqualIsEquivalence` |
| `StringNodes.CompareNode` | bibdesk/BDSKComplexString.h:143 | definition; its properties are in `StringNodes.NodeOrderIsTotalPreorder`, `CompareNodeAntisymmetric` and `CompareNodeTransitive` |
| `StringNodes.CompareNodeNoOptions` | bibdesk/BDSKComplexString.h:133 | definition; its properties are in `StringNodes.CompareNodeNoOptionsIsEquality` |
| `StringNodes.NodeFactories` | bibdesk/BDSKComplexString.h:53-115 | each factory tags its argument with its own node type and keeps the string unchanged as the value, so nodes from different factories are never equal |
| `StringNodes.IsEqualIsEquivalence` | bibdesk/BDSKComplexString.h:117-124 | two nodes are equal exactly when they have the same type and value; node equality is reflexive, symmetric and transitive |
| `StringNodes.CharOrderIsTotalPreorder` | bibdesk/BDSKComplexString.h:140 | character comparison under the options is antisymmetric and transitive, and without options `Same` means the same character |
| `StringNodes.CompareStringsIsTotalPreorder` | bibdesk/BDSKComplexString.h:137-140 | value comparison flips when its operands swap and is transitive; without options it answers `Same` exactly for equal strings |
| `StringNodes.NodeOrderIsTotalPreorder` | bibdesk/BDSKComplexString.h:135-143 | node comparison is a total preorder; nodes of different types never compare as the same and sort by type code |
| `StringNodes.CompareNodeAntisymmetric` | bibdesk/BDSKComplexString.h:135-143 | comparing two nodes the other way round gives the flipped result |
| `StringNodes.CompareNodeTransitive` | bibdesk/BDSKComplexString.h:135-143 | if a sorts no later than b, and b no later than c, then a sorts no later than c |
| `StringNodes.CompareNodeNoOptionsIsEquality` | bibdesk/BDSKComplexString.h:126-133 | `compareNode:` (no options) answers `Same` exactly for nodes that are `isEqual:` |
| `StringNodes.NodeOrderNoOptionsIsEquality` | bibdesk/BDSKComplexString.h:126-143 | without options, node comparison answers `Same` only for identical nodes |
| `Ordering.LexAntisymmetric` | bibdesk/BDSKComplexString.h:330 | comparing node arrays (or strings) element by element flips when the operands swap |
| `Ordering.LexTransitive` | bibdesk/BDSKComplexString.h:330 | element-by-element comparison of arrays over a total preorder is transitive |
| `Ordering.LexSame` | bibdesk/BDSKComplexString.h:330 | element-by-element comparison answers `Same` exactly when the arrays have equal lengths and every pair of elements compares as the same |
| `Ordering.LexIsTotalPreorder` | bibdesk/BDSKComplexString.h:330 | element-by-element comparison of a total preorder is a total preorder, and keeps "`Same` is equality" |
| `Search.ReplaceOccurrences` | bibdesk/BDSKComplexString.h:361-368 | the scan, whose loop accumulates the output and the count, returns exactly the left-to-right, non-overlapping replacement of every occurrence and the number of replacements |
| `Search.ReplaceAllLength` | bibdesk/BDSKComplexString.h:363 | the output length is the input length plus, for each replacement, the replacement's length minus the target's; the replacements consume at most the input |
| `Search.ReplaceAllShape` | bibdesk/BDSKComplexString.h:361-368 | the input cuts into gaps and `k` stretches that each match the target, and no match of a non-empty target starts inside a gap, so every occurrence met from the left is replaced; the output has the same gaps with the replacement in place of each stretch, where `k` is the reported count |
| `Search.CutIsUnique` | bibdesk/BDSKComplexString.h:363 | there is only one way to cut an input into stretches matching a non-empty target and gaps in which no match starts |
| `Search.ReplaceAllOfCut` | bibdesk/BDSKComplexString.h:361-368 | for any such cut of the input, the replacement is the cut with the replacement in every stretch, and the count is its number of stretches: nothing but the occurrences decides the result |
| `Search.ReplaceAllCountZero` | bibdesk/BDSKComplexString.h:353-368 | the count is zero exactly when the target does not occur, and then the output is the input |
| `ComplexStrings.Nodes` | bibdesk/BDSKComplexString.h:214-220 | a string has at least one node, and its nodes are complex exactly when the string is |
| `ComplexStrings.ComplexStringWithArray` | bibdesk/BDSKComplexString.h:247-255 | builds a non-inherited string that is complex exactly when the node array is; complex arrays and single quoted nodes are kept as the nodes, and any other array gives the simple string of its text |
| `ComplexStrings.StringWithInheritedValue` | bibdesk/BDSKComplexString.h:267-274 | the result is inherited, with the same nodes and the same complexity as the value |
| `ComplexStrings.CopyUninherited` | bibdesk/BDSKComplexString.h:276-291 | the copy is never inherited and has the same nodes and the same complexity |
| `ComplexStrings.ExpandNode` | bibdesk/BDSKComplexString.h:181-183 | definition; its properties are in `ComplexStrings.ExpandDefinedMacro`, `ExpandWithoutDefinitions` and `CyclicMacrosTerminate` |
| `ComplexStrings.ExpandNodes` | bibdesk/BDSKComplexString.h:181-183 | definition; its properties are in `ComplexStrings.ExpandNodesAppend` and `ExpandWithoutDefinitions` |
| `ComplexStrings.ExpandedValue` | bibdesk/BDSKComplexString.h:181-183 | definition; its properties are in `ComplexStrings.ExpandedValueOfNodes` |
| `ComplexStrings.ExpandNodesAppend` | bibdesk/BDSKComplexString.h:177-183 | the expansion of two node arrays joined is the two expansions joined |
| `ComplexStrings.ExpandWithoutDefinitions` | bibdesk/BDSKComplexString.h:181-183 | quoted and number nodes contribute their values, and so does every macro the resolver cannot expand, so the expansion is the raw text |
| `ComplexStrings.ExpandDefinedMacro` | bibdesk/BDSKComplexString.h:181-183 | a macro the resolver defines contributes the expanded value of its definition, nested macros expanded too, whenever expanding that definition never leads back to the macro: a set of keys closed under the macros their definitions use covers the definition, and none of them uses the macro |
| `ComplexStrings.ExpandNodesIgnoresUnreached` | bibdesk/BDSKComplexString.h:181-183 | marking as being expanded a key that expansion never meets changes no node's expansion |
| `ComplexStrings.NestedMacroExpands` | bibdesk/BDSKComplexString.h:181-183 | in a table where another definition uses the macro and the macro uses a further one, the macro still expands to the expanded value of its definition |
| `ComplexStrings.CycleGivesPartialExpansion` | bibdesk/BDSKComplexString.h:181-183 | with `a = b # {x}` and `b = a`, the macro `a` expands to "ax": only the key closing the cycle falls back to itself |
| `ComplexStrings.CyclicMacrosTerminate` | bibdesk/BDSKComplexString.h:181-183 | any two distinct macros defined as each other, in any table, expand to a finite value: the key at which the cycle closes |
| `ComplexStrings.ExpandedValueOfNodes` | bibdesk/BDSKComplexString.h:177-183 | the expanded value of a string is the expansion of its nodes, and building a string from nodes keeps their expansion |
| `ComplexStrings.IsEqualAsComplexString` | bibdesk/BDSKComplexString.h:316 | definition; its properties are in `ComplexStrings.EqualAsComplexStringIsSameNodes` and `EqualAsComplexStringIsEquivalence` |
| `ComplexStrings.CompareAsComplexString` | bibdesk/BDSKComplexString.h:335 | definition; its properties are in `ComplexStrings.CompareAsComplexStringIsTotalPreorder` |
| `ComplexStrings.CompareAsComplexStringNoOptions` | bibdesk/BDSKComplexString.h:325 | definition; its properties are in `ComplexStrings.CompareAsComplexStringNoOptionsIsEquality` |
| `ComplexStrings.EqualAsComplexStringIsSameNodes` | bibdesk/BDSKComplexString.h:309-316 | equality as complex strings holds exactly when the node arrays are equal: two simple strings with the same text, or two complex strings with the same nodes; a simple string never equals a complex one, and the inherited flag does not matter |
| `ComplexStrings.EqualAsComplexStringIsEquivalence` | bibdesk/BDSKComplexString.h:309-316 | equality as complex strings is reflexive, symmetric and transitive |
| `ComplexStrings.CompareAsComplexStringIsTotalPreorder` | bibdesk/BDSKComplexString.h:327-335 | the comparison flips when the operands swap, is transitive, and puts every simple string strictly before every complex one; no macro table takes part, so redefining a macro cannot change the order |
| `ComplexStrings.CompareAsComplexStringNoOptionsIsEquality` | bibdesk/BDSKComplexString.h:318-325 | `compareAsComplexString:` answers `Same` exactly for strings that are equal as complex strings |
| `ComplexStrings.HasSubstring` | bibdesk/BDSKComplexString.h:359 | definition; its properties are in `ComplexStrings.ReplacedCountIsZeroIffNotFound` and `Search.ReplaceAllCountZero` |
| `ComplexStrings.Replaced` | bibdesk/BDSKComplexString.h:368 | definition; its properties are in `ComplexStrings.ReplacedComplexIsWholeNode`, `ReplacedSimpleIsTextReplace` and `ReplacedCountIsZeroIffNotFound` |
| `ComplexStrings.StringByReplacingOccurrences` | bibdesk/BDSKComplexString.h:361-368 | returns the replaced string and the count; for mixed simple and complex operands, the receiver unchanged and 0 |
| `ComplexStrings.ReplacedCountIsZeroIffNotFound` | bibdesk/BDSKComplexString.h:353-368 | the count is zero exactly when `hasSubstring:options:` answers NO, which it always does for mixed operands; with no replacement the result equals the receiver as a complex string |
| `ComplexStrings.ReplacedComplexIsWholeNode` | bibdesk/BDSKComplexString.h:365 | for complex strings, only stretches of whole nodes that match the target's nodes are replaced, by the replacement's nodes; no whole-node match starts among the nodes that stay, which are kept as they were, and the count is the number of stretches |
| `ComplexStrings.ReplacedSimpleIsTextReplace` | bibdesk/BDSKComplexString.h:361-364 | for simple strings, the matched stretches of text are replaced by the replacement's plain value; no match of a non-empty target starts in the text that is kept, which stays as it was |
| `BibTeX.StringAsBibTeXString` | bibdesk/BDSKComplexString.h:343 | definition; its properties are in `BibTeX.BibTeXStringOfNodes` and `BibTeXRoundTrip` |
| `BibTeX.StringAsExpandedBibTeXString` | bibdesk/BDSKComplexString.h:351 | definition; its properties are in `BibTeX.BibTeXStringOfNodes` and `ExpandedBibTeXRoundTrip` |
| `BibTeX.ComplexStringWithBibTeXString` | bibdesk/BDSKComplexString.h:265 | definition; its properties are in `BibTeX.BibTeXRoundTrip`, `ExpandedBibTeXRoundTrip`, `UnbalancedIsMalformed` and `EmptyTokenIsMalformed` |
| `BibTeX.BibTeXStringOfNodes` | bibdesk/BDSKComplexString.h:337-351 | a simple string serialises as its text in quoting braces; a complex string as its unexpanded nodes; the expanded form is the expanded value in braces, and for a non-complex string it is the same as the unexpanded form |
| `BibTeX.ParseTokenOfNode` | bibdesk/BDSKComplexString.h:257-265 | the serialisation of a valid node, followed by nothing or by a space, parses back to that node, leaving what follows it |
| `BibTeX.ParseNodesAsBibTeX` | bibdesk/BDSKComplexString.h:257-265 | the serialisation of a non-empty array of valid nodes parses back to the same nodes |
| `BibTeX.BibTeXRoundTrip` | bibdesk/BDSKComplexString.h:257-265 | parsing `stringAsBibTeXString` of a string with valid nodes gives back the string, uninherited, which is equal to the original as a complex string |
| `BibTeX.ExpandedBibTeXRoundTrip` | bibdesk/BDSKComplexString.h:345-351 | parsing `stringAsExpandedBibTeXString` gives the simple string of the expanded value, when that value's braces balance |
| `BibTeX.UnclosedBraceIsMalformed` | bibdesk/BDSKComplexString.h:257-265 | `{` followed by text with no `}` at all is reported as unbalanced delimiters |
| `BibTeX.ParsedIsBalanced` | bibdesk/BDSKComplexString.h:257-265 | every value that parses has balanced braces |
| `BibTeX.UnbalancedIsMalformed` | bibdesk/BDSKComplexString.h:257-265 | every value whose braces do not balance is malformed, wherever the unmatched brace is (such as `{a{b}` or `{x} # {y`) |
| `BibTeX.ParseNodesThenRest` | bibdesk/BDSKComplexString.h:257-265 | valid nodes followed by ` # ` parse to those nodes in front of whatever the rest parses to, and a failure in the rest fails the whole value |
| `BibTeX.EmptyTokenIsMalformed` | bibdesk/BDSKComplexString.h:257-265 | an empty value, a value starting with `#`, and two operators with nothing between them after valid nodes are each reported as an empty token |
| `MacroResolvers.MacroResolver.SetMacroDefinitions` | bibdesk/BDSKComplexString.h:167 | the table becomes the given one |
| `MacroResolvers.MacroResolver.AddMacroDefinition` | bibdesk/BDSKComplexString.h:168 | the key is defined as the given string; the other keys keep their definitions |
| `MacroResolvers.MacroResolver.ValueOfMacro` | bibdesk/BDSKComplexString.h:169 | answers the definition exactly when the key is defined, and nothing otherwise |
| `MacroResolvers.MacroResolver.RemoveMacro` | bibdesk/BDSKComplexString.h:170 | the key is no longer defined; the other keys keep their definitions |
| `MacroResolvers.MacroResolver.ChangeMacroKey` | bibdesk/BDSKComplexString.h:171 | the definition moves from the old key to the new one; the table is unchanged when the old key is undefined |
| `MacroResolvers.MacroResolver.SetMacroDefinition` | bibdesk/BDSKComplexString.h:172 | the key is defined as the given string; the other keys keep their definitions |
| `MacroResolvers.RenamedLookup` | bibdesk/BDSKComplexString.h:171 | after a rename the new key holds the old key's definition, the old key is gone unless it is the new one, other keys are untouched, and renaming a key to itself changes nothing |
| `MacroResolvers.RenameBack` | bibdesk/BDSKComplexString.h:171 | renaming to an unused key and back restores the table |
| `ComplexStringObjects.ComplexStringObject.constructor` | bibdesk/BDSKComplexString.h:195-203 | the object holds the string built from the node array, and the given resolver |
| `ComplexStringObjects.ComplexStringObject.InheritedValue` | bibdesk/BDSKComplexString.h:205-212 | the object holds the inherited copy of the value, and resolves macros as the value does |
| `ComplexStringObjects.ComplexStringObject.ExpandedValue` | bibdesk/BDSKComplexString.h:177-183 | definition: the value's expansion under the current resolver's table, or under no definitions without a resolver; its behaviour on a change of resolver is in `ComplexStringObjects.ComplexStringObject.SetMacroResolver` |
| `ComplexStringObjects.ComplexStringObject.SetMacroResolver` | bibdesk/BDSKComplexString.h:230-237 | only the resolver changes; the expanded value then follows the new resolver's table |

## Left out

- `NSCoding` archiving, `NSCopying`, `NSZone` handling, and the masquerade of
  `BDSKComplexString` as an `NSString` subclass. These are runtime and
  Foundation machinery.
- The full Unicode semantics of the comparison `mask` (diacritics, numeric
  and literal search). Only case insensitivity is modelled, by ASCII folding.
  The anchored and backwards search options of `hasSubstring:options:` and
  of the replacement method (`BDSKComplexString.h:359`, `:368`) are not
  modelled either. They change which occurrences are found: search always
  starts at the front and matches anywhere.
- The macro resolver as an object that the value refers to. The value-level
  operations take the resolver's table as a `MacroTable` parameter; only
  `ComplexStringObjects.ComplexStringObject` holds a reference to a resolver.
  Aliasing between resolvers shared by several strings is not modelled.
- Case-insensitive macro keys, which BibTeX tools often use. The table is
  keyed by exact strings.
- `initWithType:value:` is the `Node` datatype constructor itself, and
  `type` / `value` are its fields; they have no members of their own.
- `MacroResolvers.MacroResolver.MacroDefinitions`, `isComplex`, `isInherited`
  and `macroResolver` are plain accessors without contracts of their own.
- `BibTeX.ParseNodes`: the header names no grammar for BibTeX values. The
  parser is the model's own: `#`-separated tokens of braced or double-quoted
  text, digits, or macro-key characters, with white space skipped. The node
  factories accept every string, as the header says no error checking is
  done. The round trip is proved only for nodes that `BibTeX.ValidNode`
  accepts:
  - quoted text with balanced braces;
  - a non-empty number of digits only;
  - a non-empty macro key of key characters that does not start with a
    digit.

  Other nodes need not come back. For example, the key `2006a` serialises as
  `2006a`, which parses as the number `2006` and then fails. An empty input
  is reported as an empty token.
- `ComplexStrings.StringByReplacingOccurrences` and `ComplexStrings.HasSubstring`:
  with a complex receiver and a simple target, nothing is found and nothing
  is replaced, even where a quoted node equals the target. This follows the
  model's reading of `BDSKComplexString.h:356` and `:364` (see "Search and
  replace across kinds"). It does not follow the other possible reading of
  `:365`, under which such whole quoted nodes would be replaced. Between two
  complex strings, search also matches whole nodes only. So a match that
  lies partly inside a quoted-text node is not found: with receiver
  `{Proc. of } # conf` and target `{of } # conf`, the answer is NO.
- `ComplexStrings.ExpandDefinedMacro`: the expansion of a defined macro is
  stated only when expanding its definition never leads back to it. When it
  does (a cycle), the expansion stops at the key that closes the cycle, as
  `ComplexStrings.CyclicMacrosTerminate` shows for two macros. Other
  definitions may use the macro freely.
- `ComplexStrings.ExpandNode`: no `UnknownMacro` or `CyclicMacro` error is
  observable. An undefined macro, and a macro met again while it is being
  expanded, each stand for their own key, and the expansion goes on. A
  two-macro swap gives back the starting key
  (`ComplexStrings.CyclicMacrosTerminate`). A longer cycle can give a partial
  expansion that is neither the key nor a full expansion: with `a = b # {x}`
  and `b = a`, `a` expands to "ax" (`ComplexStrings.CycleGivesPartialExpansion`).
- `ComplexStrings.Replaced`: the receiver's own resolver is not part of a
  simple replacement. The replacement's plain value is expanded under a table
  passed in.
