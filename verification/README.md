# Fragment insertion in Thymeleaf, modelled in Dafny

This project models the decision logic of Thymeleaf's
`AbstractStandardFragmentInsertionTagProcessor`. That class is the attribute
processor behind `th:insert` and `th:replace`, and behind the deprecated
`th:include`. For a host element it does the following:

- it resolves the attribute value to a fragment: a template model plus its
  parameters;
- it reshapes the parameters against the `th:fragment` signature of the
  fragment's holder element;
- it issues exactly one mutation of the host (`replaceWith` or `setBody`), or
  it throws.

The model is split into modules:

- `Model` (`model.dfy`): template modes, events, template data and models,
  fragments, parameters, and `Option` (standing for Java's null).
- `Classifier` (`classifier.dfy`): `shouldParseAsCompleteStandardExpression`.
  The scan state is a brace level, a parenthesis level that only moves at brace
  level 0, and a single-quote literal flag. `Signal` says which character
  decides and what it decides. `Step` says how the state moves. `Classify` is
  the functional scan. The method `ShouldParseAsCompleteStandardExpression`
  follows the source's loop, including the `n` countdown and the fail-fast
  skip, and is proved equal to `Classify`.
- `Directive` (`directive.dfy`): the front of `computeFragment`. A blank value
  yields no fragment. Otherwise the value goes through `String.trim`, and is
  then wrapped as `~{...}` unless it classifies as complete.
- `Envelope` (`envelope.dfy`): the backward envelope-stripping loop used by
  `th:include`. `StripEnvelopes` is the loop: it works on a copy and deletes in
  place. `TopLevelRemoved` is the reference filter. It always keeps an
  unmatched close tag. It keeps a matched close tag or a non-tag event when
  the events after it leave a positive level. It keeps an open tag when that
  level minus one is positive. `StripByDepth` reads the same strip
  forward, in terms of how many elements enclose each event.
- `Insertion` (`insertion.dfy`): `doProcess`. It selects the holder event,
  applies the signature gate, and chooses between the cross-template-mode path
  (render aside, insert as non-processable text) and the same-mode path
  (template data, local variables, processable events, optionally stripped).
- `Scenarios` (`scenarios.dfy`): concrete classifications, strips and
  dispatches.

The parser, the signature library, the attribute unescaper and the nested
template engine run are fields of the `Collaborators` datatype. Each field is
a function-typed value, so the model treats them as uninterpreted functions.
The host's template mode and whether its context is an `IEngineContext` are
plain inputs.

Four behaviours of the code are easy to misread, and the model states them
as the code has them:

- Stripping for `th:include` removes every event at level 0 except unmatched close
  tags (the comment at
  lines 240-243 of the processor). That includes every outermost open/close
  pair and any level-0 text between them, not only one envelope
  (`Envelope.SiblingEnvelopesStripped`, `Scenarios.StripEveryEnvelope`).
- A `~{` in the middle of the value decides "complete" only outside a literal
  and at brace level 0, because its test sits inside the `bracketLevel == 0`
  branch (lines 362 and 371).
- A blank value is rejected using `Character.isWhitespace` (line 301), but
  the value is then trimmed using `String.trim` (line 307), which drops every
  character up to U+0020. A value made only of characters up to U+0020, at
  least one of them outside Java's whitespace set (U+0000 to U+0008 or
  U+000E to U+001B), is therefore not rejected. It trims to nothing and reaches
  the parser as `~{}` (`Directive.UnblankControlValueReachesParser`).
- In a cross-mode insertion, parameters are set on the engine context only
  when there are any (line 185). Only then is the `IEngineContext` test made
  (`Insertion.EngineContextMattersOnlyForCrossModeParameters`).

## Model

| member | source | states |
|---|---|---|
| `Classifier.Signal` | src/main/java/org/thymeleaf/standard/processor/AbstractStandardFragmentInsertionTagProcessor.java:355-379 | a character decides only outside a literal and at brace level 0. It decides true exactly for `~` followed by `{`. It decides false exactly for `=` at parenthesis level 1, or for `::`. The lookahead is used only when a next character exists |
| `Classifier.Step` | src/main/java/org/thymeleaf/standard/processor/AbstractStandardFragmentInsertionTagProcessor.java:349-366 | a quote toggles the literal flag at any depth, and no other character changes it. Inside a literal nothing else changes. The brace level moves by one only on a brace outside a literal. The parenthesis level moves by one only on a parenthesis at brace level 0 |
| `Classifier.ShouldParseAsCompleteStandardExpression` | src/main/java/org/thymeleaf/standard/processor/AbstractStandardFragmentInsertionTagProcessor.java:331-391 | the source's loop, with its `n` countdown and its skip of lower-case letters and spaces, returns the reference scan `Classify(input)`: the skip never passes over a deciding character, and the lookahead `input[i + 1]` is read only when it exists |
| `Classifier.ClassifyIsFirstSignal` | src/main/java/org/thymeleaf/standard/processor/AbstractStandardFragmentInsertionTagProcessor.java:334-389 | an input is complete exactly when it opens with `~{` or its first deciding character decides "complete"; an input whose first deciding character is `=` or `::`, or that has none, is wrapped |
| `Classifier.DecidedByFirstSignal` | src/main/java/org/thymeleaf/standard/processor/AbstractStandardFragmentInsertionTagProcessor.java:362-379 | the first decisive character fixes the answer, whatever follows it |
| `Classifier.NoSignalIsIncomplete` | src/main/java/org/thymeleaf/standard/processor/AbstractStandardFragmentInsertionTagProcessor.java:387-389 | a string with no decisive character is not a complete expression |
| `Classifier.FastPathAgrees` | src/main/java/org/thymeleaf/standard/processor/AbstractStandardFragmentInsertionTagProcessor.java:334-338 | the `~{` prefix check never changes the answer: on such input the scan's first character already decides true |
| `Classifier.SelectorOpenerIsComplete` | src/main/java/org/thymeleaf/standard/processor/AbstractStandardFragmentInsertionTagProcessor.java:334-338 | any input longer than two characters that opens with `~{` is complete |
| `Classifier.NamedParameterIsIncomplete` | src/main/java/org/thymeleaf/standard/processor/AbstractStandardFragmentInsertionTagProcessor.java:367-370 | an `=` reached at parenthesis level 1, brace level 0 and outside a literal, with no earlier decision, makes the value one to wrap |
| `Classifier.OtherEqualsIsNotDecisive` | src/main/java/org/thymeleaf/standard/processor/AbstractStandardFragmentInsertionTagProcessor.java:362-370 | an `=` at any other parenthesis level, at brace level ≠ 0, or inside a literal decides nothing |
| `Classifier.NestedCharactersAreNotDecisive` | src/main/java/org/thymeleaf/standard/processor/AbstractStandardFragmentInsertionTagProcessor.java:355-362 | inside a literal or at brace level ≠ 0, no character decides |
| `Directive.Trim` | src/main/java/org/thymeleaf/standard/processor/AbstractStandardFragmentInsertionTagProcessor.java:307 | the trimmed value is no longer than the input. It is empty only when every character is ≤ U+0020; otherwise it starts and ends with a character above U+0020 |
| `Directive.TrimDecomposes` | src/main/java/org/thymeleaf/standard/processor/AbstractStandardFragmentInsertionTagProcessor.java:307 | the input is the trimmed value with only characters ≤ U+0020 before and after it |
| `Directive.TrimIdempotent` | src/main/java/org/thymeleaf/standard/processor/AbstractStandardFragmentInsertionTagProcessor.java:307 | trimming twice is trimming once |
| `Directive.TrimKeepsTrimmed` | src/main/java/org/thymeleaf/standard/processor/AbstractStandardFragmentInsertionTagProcessor.java:307 | a non-empty value that starts and ends above U+0020 is left unchanged by trimming |
| `Directive.Wrap` | src/main/java/org/thymeleaf/standard/processor/AbstractStandardFragmentInsertionTagProcessor.java:318 | the wrapping is `~{`, then the value unchanged, then `}` |
| `Directive.ExpressionText` | src/main/java/org/thymeleaf/standard/processor/AbstractStandardFragmentInsertionTagProcessor.java:311-318 | the text handed to the parser always classifies as complete. It is the value itself when the value classifies as complete, and its wrapping otherwise |
| `Directive.ExpressionTextIsStable` | src/main/java/org/thymeleaf/standard/processor/AbstractStandardFragmentInsertionTagProcessor.java:307-318 | the text handed to the parser needs neither trimming nor wrapping again |
| `Directive.ComputeFragment` | src/main/java/org/thymeleaf/standard/processor/AbstractStandardFragmentInsertionTagProcessor.java:299-327 | a blank value gives no fragment and the evaluator is not consulted. Otherwise the evaluator receives the trimmed value, wrapped in `~{...}` exactly when it does not classify as complete |
| `Directive.TrimmableOnlyTrimsToEmpty` | src/main/java/org/thymeleaf/standard/processor/AbstractStandardFragmentInsertionTagProcessor.java:307 | a value made only of characters up to U+0020 trims to the empty string |
| `Directive.UnblankControlValueReachesParser` | src/main/java/org/thymeleaf/standard/processor/AbstractStandardFragmentInsertionTagProcessor.java:301-318 | every value that `isWhitespace` does not call blank, yet is made only of characters up to U+0020, reaches the evaluator as `~{}` |
| `Directive.ControlCharacterReachesParser` | src/main/java/org/thymeleaf/standard/processor/AbstractStandardFragmentInsertionTagProcessor.java:301-318 | such values exist: U+0001 is not blank and reaches the evaluator as `~{}` |
| `Envelope.TopLevelRemoved` | src/main/java/org/thymeleaf/standard/processor/AbstractStandardFragmentInsertionTagProcessor.java:240-273 | the stripped events are a selection of the input's events: no more of them, and none that were not there |
| `Envelope.StripEnvelopes` | src/main/java/org/thymeleaf/standard/processor/AbstractStandardFragmentInsertionTagProcessor.java:246-275 | the backward loop on a copy returns exactly the reference strip. An unmatched close tag is always kept. A matched close tag or a non-tag event is kept when the events after it leave a positive level. An open tag is kept when that level minus one is positive. The input sequence is not changed |
| `Envelope.StripIsSubsequence` | src/main/java/org/thymeleaf/standard/processor/AbstractStandardFragmentInsertionTagProcessor.java:246-273 | stripping only deletes: the result is a subsequence of the input |
| `Envelope.UnmatchedClosesKept` | src/main/java/org/thymeleaf/standard/processor/AbstractStandardFragmentInsertionTagProcessor.java:253-257 | every unmatched close tag survives, with its multiplicity |
| `Envelope.StripSplitsAt` | src/main/java/org/thymeleaf/standard/processor/AbstractStandardFragmentInsertionTagProcessor.java:246-273 | at every position, the strip is what it keeps before that position followed by the strip of the rest |
| `Envelope.StripAtEachPosition` | src/main/java/org/thymeleaf/standard/processor/AbstractStandardFragmentInsertionTagProcessor.java:254-273 | position by position, the event at `i` appears in the result, between what is kept before and after it, exactly when `KeptAt` accepts it; otherwise it is deleted. `KeptAt` always accepts an unmatched close tag. It accepts an open tag when the level the events after it leave, minus one, is positive. It accepts any other event when that level is positive |
| `Envelope.BackwardLevelIsForwardDepth` | src/main/java/org/thymeleaf/standard/processor/AbstractStandardFragmentInsertionTagProcessor.java:240-273 | the backward-level strip equals the forward reading. In a model whose matched tags balance, an unmatched close tag is kept whether or not an element encloses it. Any other event is kept exactly when some element encloses it; for a matched close tag, the enclosing element must be one other than the element it closes |
| `Envelope.StripPreservesWellFormedness` | src/main/java/org/thymeleaf/standard/processor/AbstractStandardFragmentInsertionTagProcessor.java:240-273 | stripping a well-formed model gives a well-formed model, so no open/close pairing is broken. This includes a truncated selection whose unmatched close tags pass at any depth |
| `Envelope.StripAppend` | src/main/java/org/thymeleaf/standard/processor/AbstractStandardFragmentInsertionTagProcessor.java:246-273 | stripping a sequence followed by a balanced run gives the strip of each part, concatenated: the events after a balanced run are judged as if it were absent |
| `Envelope.EnvelopeInteriorKept` | src/main/java/org/thymeleaf/standard/processor/AbstractStandardFragmentInsertionTagProcessor.java:240-273 | stripping one element whose contents are well-formed gives exactly those contents |
| `Envelope.SiblingEnvelopesStripped` | src/main/java/org/thymeleaf/standard/processor/AbstractStandardFragmentInsertionTagProcessor.java:240-243 | for two well-formed sibling runs with a non-tag event between them, the event between goes and each run is stripped on its own |
| `Insertion.Mutate` | src/main/java/org/thymeleaf/standard/processor/AbstractStandardFragmentInsertionTagProcessor.java:288-292 | `replaceWith` exactly when the host is replaced, otherwise `setBody`. The content and the processable flag are carried unchanged |
| `Insertion.FragmentHolder` | src/main/java/org/thymeleaf/standard/processor/AbstractStandardFragmentInsertionTagProcessor.java:122-126 | the holder is the first event, unless that event is a template start. In that case the holder is the second event, and only when there are at least three events. There is no holder for an empty model, or for a template start followed by fewer than two events |
| `Insertion.ReshapedParameters` | src/main/java/org/thymeleaf/standard/processor/AbstractStandardFragmentInsertionTagProcessor.java:122-154 | the signature library reshapes the parameters exactly when four conditions hold: the holder is an element tag, it carries the `fragment` attribute, the unescaped value is not blank, and the parse gives a signature. Otherwise the parameters pass through unchanged |
| `Insertion.TemplateWrapperKeepsParameters` | src/main/java/org/thymeleaf/standard/processor/AbstractStandardFragmentInsertionTagProcessor.java:122-154 | a model wrapped in template start and end events has the same holder as the bare model, so its parameters are reshaped the same way |
| `Insertion.VariablesOf` | src/main/java/org/thymeleaf/standard/processor/AbstractStandardFragmentInsertionTagProcessor.java:227-231 | the variables set are every parameter when there are any, and nothing for null or empty parameters |
| `Insertion.InsertRendered` | src/main/java/org/thymeleaf/standard/processor/AbstractStandardFragmentInsertionTagProcessor.java:170-212 | across template modes, contents-only insertion fails with no mutation. Otherwise, non-empty parameters without an engine context fail. Otherwise the parameters are set on the context and the rendered text is inserted, not processable, by `replaceWith` or `setBody` |
| `Insertion.InsertEvents` | src/main/java/org/thymeleaf/standard/processor/AbstractStandardFragmentInsertionTagProcessor.java:220-292 | in the same mode, the template data and every reshaped parameter (as a local variable) are set, and one processable mutation is issued. Its events are the stripped model exactly for contents-only insertion of a selection, and the unmodified model otherwise |
| `Insertion.DoProcess` | src/main/java/org/thymeleaf/standard/processor/AbstractStandardFragmentInsertionTagProcessor.java:94-294 | the outcome is the "could not parse" error exactly when no fragment resolves. A mutation replaces the host exactly for `replaceHost`. It is processable exactly when the modes match, which is also exactly when it carries events and exactly when template data is set |
| `Insertion.EngineContextMattersOnlyForCrossModeParameters` | src/main/java/org/thymeleaf/standard/processor/AbstractStandardFragmentInsertionTagProcessor.java:170-212 | two hosts that differ only in being an engine context get the same outcome, unless the insertion is cross-mode, not contents-only and has parameters to set |
| `Scenarios.FragmentExpressionIsComplete` | src/main/java/org/thymeleaf/standard/processor/AbstractStandardFragmentInsertionTagProcessor.java:334-338 | `~{footer :: copy}` is complete |
| `Scenarios.ContainedFragmentExpressionIsComplete` | src/main/java/org/thymeleaf/standard/processor/AbstractStandardFragmentInsertionTagProcessor.java:371-374 | `x ? ~{a}` is complete: the `~{` is found mid-scan |
| `Scenarios.LegacySeparatorIsWrapped` | src/main/java/org/thymeleaf/standard/processor/AbstractStandardFragmentInsertionTagProcessor.java:375-378 | `footer :: copy` is wrapped |
| `Scenarios.LegacySelectorIsWrapped` | src/main/java/org/thymeleaf/standard/processor/AbstractStandardFragmentInsertionTagProcessor.java:375-378 | `frag::sel` is wrapped |
| `Scenarios.LegacyNamedParameterIsWrapped` | src/main/java/org/thymeleaf/standard/processor/AbstractStandardFragmentInsertionTagProcessor.java:367-370 | `frag(a=1)` is wrapped |
| `Scenarios.NamedParameterDecidesFirst` | src/main/java/org/thymeleaf/standard/processor/AbstractStandardFragmentInsertionTagProcessor.java:367-374 | `f(a=1) ~{x}` is wrapped: the `=` decides before the later `~{` is reached |
| `Scenarios.QuotedSeparatorIsIgnored` | src/main/java/org/thymeleaf/standard/processor/AbstractStandardFragmentInsertionTagProcessor.java:349-362 | `'a::b'` is wrapped: the `::` is inside a literal |
| `Scenarios.BracedSeparatorIsIgnored` | src/main/java/org/thymeleaf/standard/processor/AbstractStandardFragmentInsertionTagProcessor.java:355-362 | `${a::b}` is wrapped: the `::` is inside braces |
| `Scenarios.BareOpenerIsComplete` | src/main/java/org/thymeleaf/standard/processor/AbstractStandardFragmentInsertionTagProcessor.java:371-374 | `~{` alone is complete, found by the scan |
| `Scenarios.StripSingleEnvelope` | src/main/java/org/thymeleaf/standard/processor/AbstractStandardFragmentInsertionTagProcessor.java:240-273 | `<d>A<s>B</s>C</d>` strips to `A<s>B</s>C`, for any names, attributes and texts |
| `Scenarios.StripIsNotIdempotent` | src/main/java/org/thymeleaf/standard/processor/AbstractStandardFragmentInsertionTagProcessor.java:246-273 | stripping `A<s>B</s>C` (the result of stripping `<d>A<s>B</s>C</d>`) again leaves only `B` |
| `Scenarios.StripEveryEnvelope` | src/main/java/org/thymeleaf/standard/processor/AbstractStandardFragmentInsertionTagProcessor.java:240-243 | `<d>A</d>-<s>B</s>` strips to `AB`: every level-0 envelope goes, and so does the level-0 text |
| `Scenarios.StripKeepsUnmatchedClose` | src/main/java/org/thymeleaf/standard/processor/AbstractStandardFragmentInsertionTagProcessor.java:253-257 | an element followed by an unmatched `</d>` strips to its contents followed by that `</d>` |
| `Scenarios.BlankValueIsUnparsable` | src/main/java/org/thymeleaf/standard/processor/AbstractStandardFragmentInsertionTagProcessor.java:301-303 | a blank value fails as unparsable, whatever the evaluator would say |
| `Scenarios.LegacyValueIsWrapped` | src/main/java/org/thymeleaf/standard/processor/AbstractStandardFragmentInsertionTagProcessor.java:311-318 | `frag::sel` reaches the evaluator as `~{frag::sel}` |
| `Scenarios.FragmentExpressionIsEvaluatedAsIs` | src/main/java/org/thymeleaf/standard/processor/AbstractStandardFragmentInsertionTagProcessor.java:307-318 | `~{frag::sel}` and `~{frag::sel(x=1)}` reach the evaluator unchanged |
| `Scenarios.SameModeInsertSetsLocalVariable` | src/main/java/org/thymeleaf/standard/processor/AbstractStandardFragmentInsertionTagProcessor.java:220-292 | `th:insert="~{frag::sel(x=1)}"` in the same mode sets the template data and the local variable `x`, then sets the body to the unmodified events, processable |
| `Scenarios.SameModeIncludeStripsEnvelope` | src/main/java/org/thymeleaf/standard/processor/AbstractStandardFragmentInsertionTagProcessor.java:237-281 | `th:include="frag::sel"` of a selected element `<d>...</d>` with well-formed contents sets the body to those contents only |
| `Scenarios.CrossModeIncludeFails` | src/main/java/org/thymeleaf/standard/processor/AbstractStandardFragmentInsertionTagProcessor.java:170-181 | `th:include` of a TEXT fragment into an HTML template fails as a cross-mode error |

## Left out

- Expression parsing and execution are the uninterpreted `evaluate`. One value
  returned by it covers both a null expression and a null execution result. A
  result that is not a `Fragment` (a `ClassCastException` in Java) is not modelled.
- `FragmentSignatureUtils.parseFragmentSignature` and `processParameters` are the
  uninterpreted `parseSignature` and `processParameters`. How arguments are bound
  to declared names and defaults is therefore not modelled.
- `EscapedAttributeUtils.unescapeAttribute` is the uninterpreted `unescape`.
  Attribute lookup by prefix and name is a map lookup on `AttrKey(prefix, "fragment")`.
  The `th:`/`data-th-` spellings that the attribute library accepts are not modelled.
- The nested `TemplateManager.process` into a string writer is the uninterpreted
  `render`. Its result depends only on the model and on the variables set for it.
  Recursion into the engine and its unbounded depth are not modelled.
- The variables that a cross-mode insertion sets on the engine context are
  reported as an output. That they outlive the call is not modelled.
- The `instanceof IEngineContext` test is the flag `Host.engineContext`.
- Exception messages, `TemplateData` contents beyond mode and selectors, the
  constructors and the attribute-processor superclass wiring are not modelled.
  That includes removal of the host attribute.
- The body of `StringUtils.isEmptyOrWhitespace` is not part of this model.
  `Directive.IsBlank` assumes it tests every character with
  `Character.isWhitespace`. `Directive.IsWhitespace` follows the Java 9 and
  later tables; on Java 6 to 8, U+180E (Mongolian vowel separator) was also
  whitespace.
- Java strings are sequences of UTF-16 code units; Dafny's `char` is a Unicode
  scalar value. Supplementary characters and surrogates are therefore not
  represented faithfully. Nothing in this core treats them specially.
- CDATA sections, DOCTYPEs, XML declarations and processing instructions are
  not separate events. Like text, they are neither open nor close tags.
