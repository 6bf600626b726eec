# Verified model of the template runtime

`support.js` is the runtime of the design documents: it evaluates expressions in
templates, rewrites the CSS of pseudo-class attributes, renders systems of
components, swaps their logic while they run, and loads modules and sibling
components asynchronously. This project models those parts in Dafny and proves
what holds of them for every text, every run and every interleaving. Where the
code does something else than its documentation or its users would expect, the
model follows the code; the exact condition is then a theorem and a witness is given.

`dafny verify dfyconfig.toml` checks the whole project.

## How it is built

| part | specification and laws | the loops and objects |
|---|---|---|
| CSS of pseudo-classes | `CssAutomaton.dfy`, `CssImportant.dfy`, `CssRules.dfy` | `CssScanners.dfy` |
| expressions | `ExprPrint.dfy`, `ExprRoundTrip.dfy`, `ExprLaws.dfy`, `ExprScope.dfy` | `Expr.dfy` |
| `{{ }}` holes and attribute values | `Interpolation.dfy`, `WholeValues.dfy` | pure in the source |
| attribute names, host styles | `AttributeNames.dfy` | `HostStyle.dfy` |
| rendering | `Rendering.dfy`, `RenderLaws.dfy` | pure in the source |
| component life cycle | `Lifecycle.dfy` | `StreamableComponent.dfy` |
| external modules | `ModuleLoading.dfy` | `ExternalModules.dfy` |
| registry and racing writers | `FetchRaces.dfy` | `ComponentRuntime.dfy` |
| pseudo-class sheet, content key, stream tracker | `PseudoSheet.dfy`, `ContentKey.dfy`, `Radix.dfy`, `StreamTracker.dfy` | in the same files |

Scanning loops are methods with the loops of the source. The CSS passes are proved
against an automaton that reads one character at a time and never looks ahead; the
expression scanners against declarative conditions on bracket levels. Objects that
the source updates in place are classes. Each method is proved to make the step of a
state machine and to keep its invariant as part of the object's `Valid()`, so that what
holds over every run of the machine holds for every object; what a caller relies on is
stated on the method itself. The stream tracker has no machine: its `Valid()` ties the
map to the log of all pushes.

What the specification functions compute is also said without them, of the texts and
events themselves: operators, names and words of expressions in `ExprLaws`, rules as
they are written from comments, quotes, urls and parentheses in `CssRules`, what a node
shows for the trees in its attributes in `RenderLaws`, the value of every key of a
component's state over a run in `Lifecycle.StateIs`, and what can be seen of a name
after any interleaving in `FetchRaces.History`, where no sequence number occurs.

JavaScript operations whose detail is not the point are parameters: property
lookup, what objects inherit, `Number(text)`, the two equalities, truthiness and
conversion to text (`Expr.World`, `Rendering.Runtime`). React, the network, the
compiler, evaluation of foreign source and the browser's style sheet appear as steps
that succeed or fail in any order; `Lifecycle.Allowed` states the order React keeps.

Thrown values come in two kinds, `JsText.Exception`: those with a text, and those
that `String` rejects by throwing in its turn, such as an object without a prototype.
The code that records an exception calls `String` in its `catch`, so that the second
kind escapes; the model follows it there.

## What turned out otherwise

- Hooks of logic instances are paired exactly when no render swaps the logic before
  the first mount, and no instance is called that was unmounted for a replacement
  whose constructor threw what has no text (`Lifecycle.PairedIff`,
  `Lifecycle.JamUnmountsTwice`). With the registry and props unchanged until the first
  mount the one way to an early swap is a throwing constructor, a NaN prop and a
  render (`Lifecycle.PairedWhenStillIff`): the memo of the failure compares props
  with `===`, so that a NaN prop also makes every render construct again
  (`Lifecycle.UnchangedRetriedIff`).
- The comparison of props is exact only where the current ones hold neither NaN nor,
  under any name, what every object inherits under it (`Lifecycle.ShallowExactIff`).
  For most names that is `undefined`: a prop renamed to one whose new value is
  `undefined` goes unnoticed (`Lifecycle.ShallowMissesRename`), and so does any single
  prop that gives way to `constructor` holding `Object`
  (`Lifecycle.ShallowMissesConstructor`).
- The cache of modules goes back from loaded to failed exactly when a module leaves
  `null` or `undefined` for its exports, or the callback throws on it
  (`ModuleLoading.CacheForwardIff`, `ModuleLoading.NoExportsGoesBack`).
- Promises that others wait for are rejected exactly when something without a text is
  thrown, or a callback throws that is told of a failure (`ModuleLoading.RejectedIff`).
  A body that throws what has no text leaves its URL recorded as loading for ever
  (`ModuleLoading.TextlessNeverEnds`).
- An evaluation of logic that throws what has no text shows nothing, neither logic nor
  error (`FetchRaces.EndWritesIff`, `FetchRaces.TextlessKeeps`).
- A quoted text with an equality operator in it is split at the operator
  (`ExprScope.QuotedIff`).
- A value with nothing before its first hole and an end that closes one is taken for
  one hole (`Interpolation.WholeHoleIff`). If it has more than that hole it comes out
  as undefined, a boolean, or a quoted text with closing braces in it
  (`WholeValues.SeveralAreOne`). For two trees with blank ends that is never their
  concatenation (`WholeValues.TwoHolesNeverJoin`); for one tree and a literal that
  closes a hole it can be (`WholeValues.QuoteAfterHoleJoins`).
- Recursion that the data would end is still reported as a circular import
  (`Rendering.DataRecursionCut`); pages are their expansions exactly when no component
  stands inside itself in the expansion (`Rendering.RenderIsExpansionIff`).
- Pairs of pseudo name and css share a class also when a bar changed sides
  (`PseudoSheet.SameClassPairIff`, `PseudoSheet.BarShares`).
- A style property is kept exactly when it is listed or is `zIndex`
  (`HostStyle.KeptIff`). Css takes names in any case; the code agrees with it exactly on
  names without a capital, and on names that are not listed in small letters either and
  are not `zIndex` (`HostStyle.AgreesWithCssIff`).

## Model

| member | source | states |
|---|---|---|
| CssScanners.ScanUnquotedUrl | design/v11/support.js:1428-1440 | the two loops find the end of an unquoted url, or -1; an end lies between i+4 and the end of the text |
| CssScanners.UrlPass | design/v11/support.js:1428-1440 | the lookahead scan and the one-character automaton agree on where an unquoted url ends, and nothing in it is dropped or cut |
| CssScanners.StripComments | design/v11/support.js:1441-1471 | the loop computes the automaton's output: each comment outside quotes and unquoted urls becomes one space, all else is kept in order |
| CssScanners.WalkComment | design/v11/support.js:1457-1460 | at a comment the jump and the automaton write one space and continue at the same place, also for an unclosed comment |
| CssRules.StripWritten | design/v11/support.js:1441-1471 | of every text written from words, slashes, comments, quotes, urls, parentheses and semicolons the result is the text with a space for each comment outside quotes and urls |
| CssRules.StripUnclosed | design/v11/support.js:1457-1460 | a comment that is not closed leaves one space and ends with the text |
| CssAutomaton.StripIdempotent | design/v11/support.js:1441-1471 | stripping twice is stripping once, on every text |
| CssAutomaton.StripFixedIffClean | design/v11/support.js:1441-1471 | a text is left as it is exactly when it has no comment outside quotes and urls |
| CssAutomaton.StripNeverGrows | design/v11/support.js:1441-1471 | the stripped text is no longer than the text |
| CssAutomaton.StripClean | design/v11/support.js:1441-1496 | the stripped text has no comment, and the second pass ends on it in the state in which a reader of the original ends |
| CssAutomaton.SplitOfJoin | design/v11/support.js:1473-1496 | separable pieces joined by semicolons are cut at exactly those semicolons |
| CssAutomaton.JoinOfSplit | design/v11/support.js:1473-1495 | cutting loses nothing but the separators |
| CssRules.SplitWritten | design/v11/support.js:1473-1495 | such a text is cut at exactly those semicolons that stand in no quote, comment, url or parenthesis; a parenthesis that closes none counts for nothing |
| CssRules.SplitUnclosed | design/v11/support.js:1484-1489 | after a parenthesis that is not closed nothing is cut |
| CssScanners.CutDeclarations | design/v11/support.js:1473-1495 | the second loop cuts a text without comments where the automaton does: its quote, escape, parenthesis and url states are the automaton's at every index |
| CssScanners.MarkImportant | design/v11/support.js:1472-1496 | both passes together write every declaration that is read, in order, as it was if it says important and with ` !important` if not; the result is `Importantify` |
| CssRules.EndsImportantIff | design/v11/support.js:1495 | the test for a mark holds exactly of an exclamation mark, white space, and the nine letters in any case to the end |
| CssRules.ImportantifyWrites | design/v11/support.js:1472-1496 | of every text: the i-th declaration written is the i-th piece that is not blank, trimmed, itself if it says important and followed by ` !important` if not; the whole is their join by semicolons |
| CssRules.RuleWritten | design/v11/support.js:1441-1496 | for a text of the grammar those pieces are read off what it was written from |
| CssImportant.ImportantifyIdempotent | design/v11/support.js:1472-1496 | marking a rule twice is marking it once, on every text, open quotes, parentheses, comments and urls included |
| CssImportant.ImportantifyReadsBack | design/v11/support.js:1472-1496 | the declarations read back from the result are the ones written |
| CssImportant.ImportantifyPieces | design/v11/support.js:1472-1496 | the result is comment-free and splits at exactly its declarations, each trimmed, non-empty and ending in `!important`; which they are, `CssRules.ImportantifyWrites` says |
| CssImportant.ImportantifyAppend | design/v11/support.js:1441-1496 | if nothing is open at the end of the first text, the rule for both texts is the join of their non-empty rules |
| CssImportant.ImportantifyAppendIff | design/v11/support.js:1441-1496 | that law holds for every second text exactly when the first leaves no quote, parenthesis, comment or url open |
| Expr.ParensWrapWhole | design/v11/support.js:237-247 | true exactly when no round bracket before the last character brings the level to zero |
| Expr.FindTopLevelEquality | design/v11/support.js:248-262 | the loop finds the first operator outside brackets with something to its left, and which operator it is |
| Expr.FirstHitLeftmost | design/v11/support.js:248-262 | no earlier position is an operator, none anywhere if none is found, and the operator's text lies inside the expression |
| Expr.ResolvePath | design/v11/support.js:263-294 | the path loop computes the value of the path, undefined where the text stops being one |
| Expr.FindClose | design/v11/support.js:276-285 | the inner loop finds the square bracket that closes the open one, or the end of the text |
| Expr.Evaluate | design/v11/support.js:205-236 | the evaluator, total on every string, computes `Resolve`, which `ExprLaws` and `ExprRoundTrip.RoundTrip` pin down; every text it cuts off is shorter and within range |
| ExprPrint.PrintShape | design/v11/support.js:237-294 | printed text is balanced under all three bracket counters, trimmed, and free of operators outside brackets unless it is an equality |
| ExprRoundTrip.EqualHit | design/v11/support.js:248-262 | in a printed equality the operator found is the one written, and the cuts are the operands |
| ExprRoundTrip.CloseAfter | design/v11/support.js:276-285 | a balanced key is closed by the bracket after it |
| ExprRoundTrip.PathText | design/v11/support.js:263-294 | the walk over the text of a path reaches its end with the path's denotation |
| ExprRoundTrip.RoundTrip | design/v11/support.js:205-294 | evaluating the text of a tree, with any white space around it, on either side of each operator and inside each bracket, gives the tree's denotation, which is written in the operations of `World` alone |
| ExprLaws.Equalities | design/v11/support.js:211-225 | between the texts of any two trees `===`, `!==`, `==` and `!=` give the strict and the loose equality of their values and the negations |
| ExprLaws.NotAndGroup | design/v11/support.js:208-226 | `!` negates the truth of what follows it; parentheses change nothing |
| ExprLaws.OperatorFirst | design/v11/support.js:248-262 | an operator with nothing to its left is none: a text that begins with `=` has no value, and `!` before it negates that |
| ExprLaws.Words | design/v11/support.js:206-230 | the four words stand for their values in any white space; a blank text has no value |
| ExprLaws.NumberIff | design/v11/support.js:204-231 | a text that begins like a number is one exactly when it is a sign or none, digits, and perhaps a dot and digits; else it has no value |
| ExprLaws.Texts | design/v11/support.js:232-234 | a text in quotes of either kind is itself where no operator can be read in it |
| ExprLaws.NameThen | design/v11/support.js:263-292 | a name reads the property, own or inherited; one more character makes it longer, ends it if it is white space, and leaves no value otherwise, with the characters written out |
| ExprLaws.Steps | design/v11/support.js:267-288 | a step by name, by digits or by key looks up the value so far, and gives undefined for null and undefined |
| ExprLaws.OpenBracket | design/v11/support.js:275-285 | a bracket that is opened and not closed leaves no value |
| ExprScope.Frame | design/v11/support.js:205-294 | evaluation of any text depends on the object only through the names it looks up |
| ExprScope.HeadsOccur | design/v11/support.js:263-267 | the names looked up stand in the text |
| ExprScope.LoopFrame | design/v11/support.js:547-581 | a text that looks up neither the loop name nor `$index` means the same inside the loop as outside |
| ExprScope.LoopFrameText | design/v11/support.js:547-581 | in particular a text in which neither of them stands |
| ExprScope.LoopBinds | design/v11/support.js:571-577 | the loop name reads the item and `$index` the index, which wins where a loop is named so |
| ExprScope.LoopNesting | design/v11/support.js:571-577 | nested loops see the innermost binding, and outer names that no inner loop takes |
| ExprScope.QuotedIff | design/v11/support.js:213-234 | a quoted text is its body exactly when no operator is found in it |
| ExprScope.QuotedOperator | design/v11/support.js:213-234 | a text with `==` in its quotes is not its body |
| Interpolation.GlueOfSplit | design/v11/support.js:407-408 | putting the braces back gives the text that was split |
| Interpolation.SplitOfGlueIff | design/v11/support.js:407-408 | literals and hole texts survive being written and split exactly when they are canonical; holes are never empty |
| Interpolation.SplitIsCanonical | design/v11/support.js:407-408 | splitting yields literals without a hole and non-empty hole texts in turn |
| Interpolation.AttrPieces | design/v11/support.js:401-412 | a value written from literals and trees is the concatenation of the literals and the trees' values, unless nothing stands before the first hole and the end still closes one |
| Interpolation.AttrTwoHoles | design/v11/support.js:407-410 | for two holes: the three literals with the values between them, as texts, nothing for null and undefined |
| Interpolation.WholeHoleIff | design/v11/support.js:402-403 | a value of literals and holes is taken for a single hole exactly when the first literal is blank and the last is blank or ends in closing braces of its own |
| Interpolation.AttrWhole | design/v11/support.js:401-406 | a value that is one hole is the tree's value itself |
| Interpolation.AttrPlain | design/v11/support.js:407-411 | a value without a hole is its own text, single and unclosed braces included |
| WholeValues.BraceValue | design/v11/support.js:205-294 | an expression that runs into a closing brace outside brackets has no value, is the result of an operator, or is a quoted text around the brace; a path never gets past it |
| WholeValues.SeveralAreOne | design/v11/support.js:402-406 | a value taken for one hole that has more than that hole is undefined, a boolean, or a quoted text with closing braces in it |
| WholeValues.TwoHolesNeverJoin | design/v11/support.js:402-410 | for two trees with blank outer literals, and any text between them, the value differs from the concatenation |
| WholeValues.QuoteAfterHoleJoins | design/v11/support.js:402-406 | for a quoted text in one hole and the literal `'}}` after it the value is a quoted text that equals the concatenation |
| AttributeNames.KebabRoundTripIff | design/v11/support.js:388-390 | kebab to camel to kebab is the identity exactly on texts without upper-case letters |
| AttributeNames.CamelRoundTripIff | design/v11/support.js:388-390 | camel to kebab to camel is the identity exactly on names without a hyphen before a lower-case letter |
| AttributeNames.AttributeRoundTrip | design/v11/support.js:365-371 | every name the pattern accepts is decoded from a form without upper-case letters |
| AttributeNames.KebabAt | design/v11/support.js:388 | a hyphen and a small letter become the capital, wherever they stand |
| AttributeNames.KebabElsewhere | design/v11/support.js:388 | where there is no such place nothing changes |
| AttributeNames.CamelAt | design/v11/support.js:365-371 | a capital becomes a hyphen and the small letter, every other character stays |
| AttributeNames.AttributeForms | design/v11/support.js:365-371 | the encoded form is `sc-camel-` and the kebab form; a key without that prefix is left alone |
| HostStyle.CssToObj | design/v11/support.js:391-400 | the loop over declarations yields an object that holds, for every key, the value of the last declaration read under it |
| HostStyle.HostPositionStyle | design/v11/support.js:457-466 | of every css text exactly the listed properties are kept, each with its last value, `zIndex` counting as `z-index`; of an object the keys whose kebab form is listed; nothing at all where none is |
| HostStyle.TextKeeps | design/v11/support.js:457-466 | the same for any object read from a text: what is kept is declared and listed, and what is declared and listed is kept |
| HostStyle.KeptIff | design/v11/support.js:391-397 | a property is kept exactly when it is listed or is `zIndex` |
| HostStyle.StyleKept | design/v11/support.js:391-400 | for a text written from declarations with any white space: of each of the ten properties the value declared last is kept under its camelCase name |
| HostStyle.StyleObject | design/v11/support.js:391-400 | the object read from such a text holds under a key the value of the last declaration read under it, custom properties under their own names; `__proto__` is no key |
| HostStyle.ListedIff | design/v11/support.js:457-466 | of an object the ten properties and `zIndex` are kept |
| HostStyle.AgreesWithCssIff | design/v11/support.js:457-466 | the code treats a property as css, which ignores case, would, exactly when its name has no capital, or is not listed in small letters and is not `zIndex` |
| Rendering.TextShowsPieces | design/v11/support.js:510-527 | a text node written from literals and trees shows the literals and the trees' values in turn |
| RenderLaws.SourceMeans | design/v11/support.js:401-412 | an attribute written as one hole has the tree's value, one written from literals and trees their concatenation |
| RenderLaws.TextShows | design/v11/support.js:505-527 | a text node with one hole shows the literals around it and the tree's value, one without a hole its text |
| RenderLaws.IfShows | design/v11/support.js:582-596 | an `sc-if` shows its body exactly when the value of its tree is truthy, and nothing otherwise; its hint is asked exactly when that is undefined and the owner streams |
| RenderLaws.ForShows | design/v11/support.js:547-581 | an `sc-for` shows its body once for every item, in order, with the loop name and `$index` bound; for no array nothing, except while the owner streams as many bodies as the hint says, their items undefined |
| RenderLaws.ImportShows | design/v11/support.js:597-625 | an import that is none of its ancestors renders its template against its props, each the value of the last attribute of its name, and over them what the logic makes of the props; an unknown one is missing |
| RenderLaws.CycleShows | design/v11/support.js:970-985 | an import that is one of its ancestors reports the chain from its first occurrence on |
| RenderLaws.PageShows | design/v11/support.js:1015-1034 | siblings stand in order, elements around their children, and the root sees its props and its logic's values over them |
| Rendering.PageSound | design/v11/support.js:970-985 | every page of every system, cyclic or not, is rendered; no component is inside itself, nesting is bounded by the number of components, and every cycle reported is a true import cycle |
| Rendering.CycleIsTrue | design/v11/support.js:972-975 | the reported names are a closed path of imports without repetition |
| Rendering.RenderSound | design/v11/support.js:1030-1034 | below every chain of distinct components that import each other the output keeps these facts |
| Rendering.RenderIsExpansionIff | design/v11/support.js:970-985 | a page that expands is rendered as its expansion exactly when no component stands inside itself in the expansion; what either shows of a node is the subject of `RenderLaws` |
| Rendering.AcyclicIsExpansion | design/v11/support.js:547-625 | if no component imports itself, directly or through others, every page is its naive expansion, which exists, whatever the data |
| Rendering.DataRecursionCut | design/v11/support.js:970-985 | self-import under a condition that holds once has a finite expansion, and is reported as a cycle |
| Lifecycle.CompareShallow | design/v11/support.js:784-791 | the loop over keys decides `ShallowEqual`; a key that is missing reads what objects inherit |
| Lifecycle.ShallowReflexive | design/v11/support.js:784-791 | props compare equal to themselves exactly when none is NaN |
| Lifecycle.ShallowExactIff | design/v11/support.js:784-791 | the comparison tells, against every other props, whether they are the same, children aside, exactly when the current props hold neither NaN nor what every object inherits under the prop's name |
| Lifecycle.ShallowMissesRename | design/v11/support.js:784-791 | a prop renamed to one that is now undefined compares equal, and unequal the other way round |
| Lifecycle.ShallowMissesConstructor | design/v11/support.js:784-791 | a prop named `constructor` that holds `Object` compares equal to any single other prop |
| Lifecycle.PairedIff | design/v11/support.js:868-958 | over every run each logic instance is mounted and unmounted at most once, in that order, and updated only in between, exactly when no render swaps before the first mount and no instance is called after it was unmounted for a replacement that jammed |
| Lifecycle.JamUnmountsTwice | design/v11/support.js:880-922 | a constructor that throws what has no text, after the mount, leads to a second unmounting of the old instance |
| Lifecycle.NoneSurvives | design/v11/support.js:949-958 | after the component is unmounted no instance is left mounted |
| Lifecycle.FirstRenderSwaps | design/v11/support.js:906-922 | with nothing changed the first render swaps exactly when the constructor threw and a prop is NaN |
| Lifecycle.PairedWhenStillIff | design/v11/support.js:868-958 | with registry and props unchanged until the first mount, and a text to every exception, a run is paired unless the constructor threw, a prop is NaN and the component rendered before it was mounted |
| Lifecycle.StateSurvives | design/v11/support.js:887-902 | over every run, swaps and failing constructors included, each key holds the value written to it last |
| Lifecycle.SwapsIff | design/v11/support.js:906-912 | a render swaps exactly when the import is not circular, no error is shown, the registry's class is not that of the instance, and its failure is not on record for this version and equal props |
| Lifecycle.SwapMakes | design/v11/support.js:868-922 | what a swap makes of every field: the next instance of the right class, the previous state over the initial one (none for the base class), the record of a failure, the old instance unmounted if it was mounted; a swap that jams leaves the instance and its state |
| Lifecycle.StateIs | design/v11/support.js:887-902 | over every run, a key of the state holds the value written last or, until one is, that of the first instance whose initial state has it; it holds no other keys |
| Lifecycle.FailureRemembered | design/v11/support.js:877-912 | after a failure nothing is constructed while class and version stay and the props compare equal |
| Lifecycle.UnchangedRetriedIff | design/v11/support.js:877-912 | unchanged props are spared exactly when none is NaN: with one, every render constructs again |
| Lifecycle.FailureRetriedIff | design/v11/support.js:877-912 | the next render tries to construct again exactly when there is a user's class and the class or the version changed or the props compare unequal |
| StreamableComponent.Component.constructor | design/v11/support.js:822-854 | a new component is the state machine's first state; nothing has misfired |
| StreamableComponent.Component.Make | design/v11/support.js:870-890 | builds the instance of the right class, remembers or forgets a failure, and throws exactly when the exception has no text; the state has the keys of the initial and the previous state, and the previous values where there are any |
| StreamableComponent.Component.Reconcile | design/v11/support.js:906-922 | swaps exactly when the state machine must, unmounting only an instance that was mounted |
| StreamableComponent.Component.RenderStep | design/v11/support.js:970-1002 | reconciles unless the import is circular or an error is shown; without a swap nothing changes, with one the state is the previous over the initial one; the hooks stay paired unless it swaps before the first mount or swaps out what is unmounted already |
| StreamableComponent.Component.ComponentDidMount | design/v11/support.js:923-930 | afterwards the current instance is mounted, and no other instance is concerned |
| StreamableComponent.Component.ComponentDidUpdate | design/v11/support.js:931-948 | afterwards the current instance is mounted, or it waits for a template or the end of an error and nothing was called; no other instance is concerned |
| StreamableComponent.Component.ComponentWillUnmount | design/v11/support.js:949-958 | if nothing misfired, no instance is left mounted |
| StreamableComponent.Component.SetLogicState | design/v11/support.js:897-902 | each key has the value written to it last, by this call or any before it, over all swaps in between |
| ModuleLoading.EvaluatedOnce | design/v11/support.js:1123-1186 | over every interleaving no URL is loaded by two chains and no body is evaluated twice |
| ModuleLoading.CacheForwardIff | design/v11/support.js:1124-1184 | over every interleaving, once every exception is caught, the cache has gone only from absent to pending to final exactly when no module left null or undefined for its exports and no callback threw on a loaded module |
| ModuleLoading.NoExportsGoesBack | design/v11/support.js:1160-1177 | a module with such exports is in the cache as loaded, then as failed, without any callback |
| ModuleLoading.CacheFinal | design/v11/support.js:1153-1184 | while neither happens, what is loaded or failed stays so |
| ModuleLoading.RejectedIff | design/v11/support.js:1166-1185 | over every interleaving, once every exception is caught, a promise that others wait for is rejected exactly when something without a text was thrown or a callback threw that was told of a failure |
| ModuleLoading.TextlessNeverEnds | design/v11/support.js:1171-1175 | a body that throws an object without a prototype leaves its URL recorded as loading |
| ModuleLoading.ChainOrder | design/v11/support.js:1128-1133 | a load requested after another waits for an earlier one, runs only once that has resolved, and after it |
| ModuleLoading.CompilerFirst | design/v11/support.js:1128-1150 | over every interleaving the body of a load that needs the compiler is evaluated only once the compiler is usable |
| ModuleLoading.ChainWaits | design/v11/support.js:645-649 | a URL that is new in a list of URLs waits for its predecessor in the list |
| ModuleLoading.ChainKeeps | design/v11/support.js:1124-1127 | one that was requested before keeps its chain and waits for nothing more |
| ModuleLoading.Progress | design/v11/support.js:1128-1186 | while a load is unsettled some load can move, or the compiler it waits for can |
| ModuleLoading.AllSettle | design/v11/support.js:1128-1186 | runs without new requests are bounded, and one that cannot go on has settled every load: no deadlock |
| ExternalModules.Loader.Request | design/v11/support.js:1124-1127 | the same URL gets the same chain and changes nothing; a new one is recorded as pending, waits for the load it is requested after, and needs the compiler exactly if it is jsx and there is none |
| ExternalModules.Loader.EnsureCompiler | design/v11/support.js:1106-1122 | over the life of the loader the compiler's script is added at most once, and has been added once a load needs it |
| ExternalModules.Loader.RequestChain | design/v11/support.js:645-649 | requests the URLs in order, each after the promise of the one before |
| ExternalModules.Loader.TextArrived | design/v11/support.js:1140-1165 | the body was never evaluated before; the module is in the cache exactly when the body ran to its end; the phase after each way to end; no entry goes back |
| ExternalModules.Loader.CatchRuns | design/v11/support.js:1171-1177 | no other URL's entry changes; this one goes back exactly when the module was in the cache, and the promise is rejected exactly when the exception has no text |
| ExternalModules.Loader.CallbackDone | design/v11/support.js:1170-1184 | cache and evaluations stay; the promise resolves exactly when the callback returned, and is settled unless it threw on a loaded module |
| FetchRaces.FetchedOnce | design/v11/support.js:1572-1575 | over every interleaving no name is sibling-fetched twice |
| FetchRaces.SiblingFillsOnly | design/v11/support.js:1591-1607 | in every reachable state a sibling fetch, and the evaluation it starts, replace neither html nor logic that is there |
| FetchRaces.LatestStartedWins | design/v11/support.js:1631-1654 | however evaluations nest, once the one started last has ended its outcome is what the entry shows, unless it threw what has no text |
| FetchRaces.EndWritesIff | design/v11/support.js:1636-1653 | in every reachable state the end of an evaluation changes an entry exactly when no later evaluation of its name was started and what it threw, if anything, has a text |
| FetchRaces.TextlessKeeps | design/v11/support.js:1646-1652 | otherwise the entry shows in the end what it showed when the evaluation was started |
| FetchRaces.VersionTells | design/v11/support.js:1536-1540 | every change of html, logic or error of a name raises its version |
| FetchRaces.History | design/v11/support.js:1572-1697 | over every interleaving: the logic of a name is the class of the last evaluation that ended with one while no later one had been started, an error stands exactly if one ended otherwise after it, html is what was pushed or adopted last or else the first that a sibling fetch brought, and the flags are the last ones pushed |
| FetchRaces.StartsIff | design/v11/support.js:1591-1697 | an evaluation is started by a finished push of logic, by the root's own logic, and by a sibling's where none is installed, and by nothing else |
| ComponentRuntime.Runtime.EnsureFetched | design/v11/support.js:1572-1575 | no name is fetched a second time, and nothing that is shown changes |
| ComponentRuntime.Runtime.UpdateHtml | design/v11/support.js:1617-1630 | the html is shown under a new version; logic, error and all other names are left alone |
| ComponentRuntime.Runtime.StartJs | design/v11/support.js:1631-1635 | every older evaluation of the name is overtaken from now on, this one is not, and nothing that is shown changes |
| ComponentRuntime.Runtime.EndJs | design/v11/support.js:1636-1653 | if a later evaluation of the name was started, no entry changes; if not, a class is installed and clears the error, and anything else is recorded as an error and leaves the logic; html, flags and all other names stay in every case |
| ComponentRuntime.Runtime.SiblingArrived | design/v11/support.js:1591-1607 | html that is there stays, missing html is filled in, logic and everything else that is seen stay, for every name; for missing logic an evaluation is started that is not overtaken |
| ComponentRuntime.Runtime.SetStreaming | design/v11/support.js:1655-1669 | nothing that is shown changes, the version does, and a name that streams counts as fetched |
| ComponentRuntime.Runtime.DcUpdateHtml | design/v11/support.js:1670-1674 | pushed html is shown at once, streaming or not; logic and running evaluations are left alone |
| ComponentRuntime.Runtime.DcUpdateJs | design/v11/support.js:1670-1677 | pushed logic shows nothing at once: while it streams nothing is evaluated, and when it is complete its evaluation overtakes all others of the name |
| ComponentRuntime.Runtime.AdoptParsed | design/v11/support.js:1690-1697 | html is replaced even where there is some, and every running evaluation of the name is overtaken, a sibling fetch's included |
| PseudoSheet.PseudoSheet.Class | design/v11/support.js:1497-1519 | a hit returns the remembered class and changes nothing; a miss uses up a number, writes the rule of the new class, css as it is for `before` and `after` and marked for all else, and remembers it if the browser takes it |
| PseudoSheet.SameClassIff | design/v11/support.js:1501-1518 | over every run, rejected rules included, two calls return the same class exactly when their keys are equal |
| PseudoSheet.SameClassPairIff | design/v11/support.js:1501-1518 | which is when pseudo and css are equal, or a bar changed sides between them |
| PseudoSheet.SameClassSamePair | design/v11/support.js:1501-1518 | without a bar in the pseudo only equal pairs share a class |
| PseudoSheet.BarShares | design/v11/support.js:1501-1518 | a namespace bar in a selector lets two different pairs share a class |
| PseudoSheet.ExactlyOneRule | design/v11/support.js:1508-1517 | every class returned has exactly one rule, made for its key |
| Radix.RoundTrip | design/v11/support.js:1509 | reading the digits back gives the number |
| Radix.Digits | design/v11/support.js:1509 | digits are written from the right, `0` to `9` and `a` to `z` |
| ContentKey.Hash | design/v11/support.js:709-711 | the 32-bit loop computes the polynomial modulo 2^32, for every length |
| ContentKey.HashStep | design/v11/support.js:710 | one turn stays below 2^53 before it is truncated, and is one step of Horner's rule modulo 2^32 |
| ContentKey.PolynomialStep | design/v11/support.js:709-710 | the polynomial starts at 5381 and takes each character by 33 |
| ContentKey.Key | design/v11/support.js:711 | the key is the length in base 10, a dot, and the hash in base 36 |
| ContentKey.SameKeyIff | design/v11/support.js:711 | two contents have one key exactly when their lengths and hashes are equal |
| ContentKey.OneCharacterShows | design/v11/support.js:709-711 | contents that differ in exactly one character never share a hash |
| StreamTracker.Tracker.PushState | design/v11/support.js:1734-1738 | a push is added to the log, whatever the map does with it |
| StreamTracker.Tracker.LiveOne | design/v11/support.js:1724-1732 | a name is live exactly when its last push that counts was streaming and is not stale |
| StreamTracker.Tracker.LiveAny | design/v11/support.js:1739-1743 | some name is live exactly when the answer is yes, at the time of the answer, though the clock moves during the loop |
| StreamTracker.LiveIff | design/v11/support.js:1724-1738 | a name is live exactly when some streaming push of it is no older than the limit and no push of it came after, those of `dc-model` apart |

## Left out

- DOM, React, network, Babel, `new Function` and `postMessage`: foreign code; its outcomes are arguments of the steps.
- Texts are sequences of Unicode characters, not of UTF-16 units; no character the scanners test is outside the basic plane. `ContentKey` works on UTF-16 units.
- Getters, proxies and other operations on values with side effects or exceptions: property lookup, equality and conversion to text are total functions. Exports that cannot be listed are `null` and `undefined`.
- Logic instances that are no ordinary objects (frozen, or with a `constructor` that is not their class).
- `Expr.ResolvePath`: the step over `[key]` is the method `ReadKey` and its loop the method `FindClose`; nothing else is changed by that.
- Rendering: element attributes, keys, class names, host styles, slot children of imports, `x-import` nodes, component names from holes, `dcProps`, attributes whose names React or the runtime keeps for itself (`key`, `ref`, `__proto__`, `__name` and the like), the dropping of blank text nodes, and what is shown for a hole without a value.
- Rendering: per-instance logic. What logic makes of props is a function of the component's name and props, so two instances with equal props and different state are not told apart.
- `Interpolation.AttrPieces`: holds for the branch that splits; the branch for a single hole is `AttrWhole`, and what happens to holes at both ends is the subject of `WholeValues`.
- `CssRules.RuleWritten`: a rule that ends inside a quote, a url, a comment or a parenthesis is no text of the grammar; `CssRules.ImportantifyWrites` and the laws of `CssAutomaton` hold of it too.
- `WholeValues.TwoHolesNeverJoin`: for three or more holes only `SeveralAreOne` is claimed, because the value of a middle hole can be any text.
- `StreamableComponent.Component.constructor`: where the logic's constructor throws what has no text there is no component, and no run.
- `Lifecycle.StateSurvives`: a `setState` inside a logic constructor is dropped by the source, because the instance has no host yet; only calls that reach the host are writes.
- Lifecycle: direct assignments to `logic.state` outside `setState`, the contents of error messages, and props that change without a render.
- `ExternalModules.Loader.RequestChain`: which compiler a URL needs is given by a function; the file name pattern is not modelled.
- Module loading: export lookup, error messages and polling for globals (`resolve`, `resolveGlobal`, `getError`, `waitForGlobal`).
- Registry: subscribers, the compiled templates, props metadata and previews, which a sibling fetch does overwrite.
- `ComponentRuntime.Runtime.SetStreaming`: the page-wide streaming class on the document is not modelled.
- `PseudoSheet.PseudoSheet.Class`: the style element is there from the start instead of being created by the first call.
- The helmet, `boot`, `init`, parsing of documents and the constant tables: DOM plumbing and one-branch code.
- The HTML rewriting by regular expressions in `encodeCase`: it rests on the browser's HTML parser.
- The other copies of `support.js` under `design/`: the same text.
- The Go backend and the frontend: not part of this model.
