# Waterfall rule editor — a Dafny model of its parser and tree editor

Waterfall-Rules keeps business rules as an indented text document. Each rule
line looks like `[Rule-12] description`. A line holding only `OR` marks the
next rule as an alternative to its preceding sibling. Lines starting with
`## Rule Set: <label>` divide one document into named rule sets. The
repository has two pieces of logic:

* `parseMdcRules.js` reads a document into a forest of rules and splits it
  into labelled rule sets.
  - A rule's parent is the nearest open rule with a smaller indent.
  - Ids are `Rule-1`, `Rule-2`, … in document order.
* `src/components/RuleEditor.tsx` edits that forest:
  - add a child, add a top-level rule, delete, and change a description;
  - nest a rule under its previous sibling, un-nest it to just after its parent;
  - move a rule up or down among its siblings.

The project has six modules:

| module | file | contents |
|---|---|---|
| `JsText` | `text.dfy` | JavaScript's whitespace class, `trim` and trailing-space removal, splitting on `'\n'`, and decimal numerals |
| `RuleModel` | `rules.dfy` | the `Rule` node and its pre-order traversal `Collect` |
| `MdcParser` | `parser.dfy` | `parseMdcRules` |
| `RuleSets` | `registry.dfy` | `extractRuleSets`, `listRuleSetLabels` and `getRulesForLabel` |
| `Forest` | `forest.dfy` | places in the forest, the pre-order searches `findParentAndIndex*`, and `updateRules` |
| `RuleEditor` | `editor.dfy` | `getNextRuleName`, the structural edits, and the component's state as a class |

How the parser is modelled:

* The parser's loop is a method over a `RuleCounter` object, the module-level
  `ruleCounter`.
* The method is proved equal to a declarative description:
  1. The document becomes a list of line kinds.
  2. The rule lines become a list of events (indent, name, description, `OR` pending).
  3. Each event gets a parent (the nearest earlier event with a strictly smaller indent) and a depth.
  4. The forest is built by appending each node at its depth along the rightmost path.
* The parser's stack is the chain of indents along that path.
* A rule set is the datatype `RuleSet(name, content)`. Its `name` field is the
  source's `label` field; `label` is a reserved word in Dafny.

How the editor is modelled:

* Its handlers splice arrays that are shared with the previous forest value.
* Each edit is modelled as a function from forest to forest.
* The component's state (`rules`, `editDescId`, `editDescValue`) is an `Editor` class whose methods apply those functions.

## Model

| member | source | states |
|---|---|---|
| `JsText.SpaceRunSpec` | parseMdcRules.js:24 | the counted run covers exactly the whitespace characters from a position up to the first non-whitespace one |
| `JsText.LeadingSpacesSpec` | parseMdcRules.js:24-26 | a line's indent is its maximal prefix of JavaScript whitespace (`match[1].length`) |
| `JsText.StripTrailing` | parseMdcRules.js:8 | `line.replace(/\s+$/, '')`: drops the last character while it is JavaScript whitespace; `StripTrailingSpec` states the result |
| `JsText.StripTrailingSpec` | parseMdcRules.js:8 | `replace(/\s+$/, '')` yields a prefix of the line that ends in non-whitespace, and what it removes is all whitespace |
| `JsText.Trim` | parseMdcRules.js:28 | `trim()`: leading whitespace skipped, then trailing whitespace stripped; `TrimSpec` states the result |
| `JsText.TrimSpec` | parseMdcRules.js:28 | `trim()` is empty exactly for all-whitespace text, and otherwise neither starts nor ends with whitespace |
| `JsText.TrimSkipsSpaces` | parseMdcRules.js:24-28 | leading whitespace does not change the trimmed text, so the `\s*` before a description is irrelevant to it |
| `JsText.IndexOf` | parseMdcRules.js:7 | the result is the first position holding the character |
| `JsText.SplitLines` | parseMdcRules.js:7 | `split('\n')` yields at least one piece and no piece contains a newline |
| `JsText.JoinSplitLines` | parseMdcRules.js:7 | joining the pieces of `split('\n')` with newlines gives back the text |
| `JsText.SplitJoinLines` | parseMdcRules.js:7 | splitting the newline-joined text of newline-free lines gives back those lines |
| `JsText.SplitLinesAppend` | parseMdcRules.js:7 | appending `"\n" + line` to a text appends exactly that line to its split |
| `JsText.NatToString` | parseMdcRules.js:2 | the decimal numeral of a natural number is a non-empty run of digits, with no leading zero unless the number is 0 |
| `JsText.DigitsValueOfNatToString` | src/components/RuleEditor.tsx:17 | `parseInt` of the decimal numeral of `n` is `n` |
| `JsText.NatToStringInjective` | parseMdcRules.js:2 | different counters give different numerals |
| `JsText.DigitRun` | src/components/RuleEditor.tsx:15 | `\d+` takes the maximal run of digits from a position |
| `RuleModel.RuleLabelInjective` | parseMdcRules.js:1-2 | `Rule-${n}` labels of different numbers differ |
| `RuleModel.Collect` | src/components/RuleEditor.tsx:13-21 | a pre-order traversal visits every node of the forest exactly once (its length is the node count) |
| `RuleModel.CollectAppend` | src/components/RuleEditor.tsx:13-21 | traversing two forests in a row is traversing their concatenation |
| `RuleModel.DistinctIdsAround` | src/components/RuleEditor.tsx:26-35 | under distinct ids, a node's id and its subtree's ids occur nowhere else in the forest |
| `MdcParser.Kept` | parseMdcRules.js:9 | the filter's test: non-empty, not starting with `#`, not starting with `---` |
| `MdcParser.Survivors` | parseMdcRules.js:6-9 | every surviving line is non-empty, does not start with `#` or `---`, and ends in non-whitespace; `SurvivorsOne` and `SurvivorsKeepInOrder` state that every kept line survives, in order |
| `MdcParser.SurvivorsAppend` | parseMdcRules.js:9 | the line filter treats each line on its own |
| `MdcParser.SurvivorsOne` | parseMdcRules.js:6-9 | a single line survives, right-trimmed, exactly when its trimmed form is kept, and is dropped otherwise |
| `MdcParser.SurvivorsKeepInOrder` | parseMdcRules.js:6-9 | line `k` adds its right-trimmed form to the survivors of the lines before it exactly when that form is kept, and those survivors are a prefix of the survivors of the whole document: no kept line is lost and the order is kept |
| `MdcParser.Classify` | parseMdcRules.js:20-28 | the exact `OR` test, then the pattern `^(\s*)\[(Rule-\d+)\]\s*(.*)$`; `ClassifyComplete` and `ClassifySound` state what it accepts and returns |
| `MdcParser.ClassifyComplete` | parseMdcRules.js:24-28 | every line of the shape `\s*[Rule-\d+]\s*rest` is a rule line with indent = length of the leading whitespace, name = the bracketed token, description = trimmed rest |
| `MdcParser.ClassifySound` | parseMdcRules.js:24-28 | every line classified as a rule line has that shape, with those indent, name and description |
| `MdcParser.KindsAppend` | parseMdcRules.js:18-19 | lines are classified one at a time |
| `MdcParser.PendingMeansOrSinceLastRule` | parseMdcRules.js:20-23 | the `OR` flag is pending exactly when an `OR` line occurred after the last rule line |
| `MdcParser.Pending` | parseMdcRules.js:16-23 | `orPending` after some lines: set by `OR`, cleared by a rule line (line 53), kept by any other line; `PendingMeansOrSinceLastRule` states its meaning |
| `MdcParser.Events` | parseMdcRules.js:20-53 | the rule lines in order, each with its indent, name, trimmed description and the `orPending` value it was read with; `EventCount` and `TrailingNonRuleLines` state what it keeps |
| `MdcParser.TrailingNonRuleLines` | parseMdcRules.js:20-57 | lines that are not rule lines after the last rule line add no node |
| `MdcParser.EventCount` | parseMdcRules.js:18-25 | one node per line that matches the rule pattern |
| `MdcParser.Nearest` | parseMdcRules.js:37-39 | the popped stack's top is the nearest earlier rule line with a strictly smaller indent |
| `MdcParser.DepthAbove` | parseMdcRules.js:37-51 | a line whose predecessors back to some line are all deeper-indented sits deeper than that line |
| `MdcParser.ParentIsTreeParent` | parseMdcRules.js:37-51 | a node without parent is a root; otherwise its parent is one level up and has a strictly smaller indent |
| `MdcParser.EqualIndentSiblings` | parseMdcRules.js:37-51 | two consecutive rule lines with equal indent become siblings |
| `MdcParser.ShallowestIsRoot` | parseMdcRules.js:37-50 | a line whose indent is at most that of every earlier rule line becomes a root |
| `MdcParser.Build` | parseMdcRules.js:37-52 | after `n` rule lines the open chain reaches the depth of the last one |
| `MdcParser.BuildStep` | parseMdcRules.js:40-50 | the destination list is non-empty exactly when the previous rule line is not the new node's parent |
| `MdcParser.PreorderAppendAtDepth` | parseMdcRules.js:45-50 | appending a leaf at depth `d` of the rightmost path adds it at the end of the pre-order walk at depth `d` |
| `MdcParser.PreorderBuild` | parseMdcRules.js:37-52 | the pre-order walk of the built forest lists the rule lines in order, each at its depth |
| `MdcParser.BuildFirstNotOr` | parseMdcRules.js:42-49 | the first node of every list in the built forest has `isOr` false |
| `MdcParser.RuleCounter.constructor` | parseMdcRules.js:1 | the counter starts at 1 |
| `MdcParser.RuleCounter.NextRuleId` | parseMdcRules.js:2 | returns `Rule-<counter>` and increments the counter |
| `MdcParser.PopDeeper` | parseMdcRules.js:37-39 | the popped stack is the chain of the new node's parent |
| `MdcParser.PlaceRuleLine` | parseMdcRules.js:29-53 | placing a rule line extends the forest as the declarative build does and pushes it on the chain |
| `MdcParser.ScanLine` | parseMdcRules.js:19-57 | each loop step keeps the loop invariant: forest, stack, counter and `OR` flag match the lines read so far |
| `MdcParser.ParseMdcRules` | parseMdcRules.js:4-60 | the result is the declarative parse of the content, and the counter ends one past the node count |
| `MdcParser.ParseInLineOrder` | parseMdcRules.js:37-52 | the pre-order walk of the result visits the rule lines in document order, each at its depth |
| `MdcParser.ParseNodeCount` | parseMdcRules.js:18-25 | the number of nodes at all depths equals the number of surviving lines matching the rule pattern |
| `MdcParser.ParseIdsInOrder` | parseMdcRules.js:1-5 | the k-th node in pre-order has id `Rule-(k+1)` |
| `MdcParser.ParseIdsDistinct` | parseMdcRules.js:1-5 | ids are pairwise distinct within one result |
| `MdcParser.ParseFirstNotOr` | parseMdcRules.js:42-49 | the first root and the first child of every node have `isOr` false |
| `MdcParser.NormalizeAppendOr` | parseMdcRules.js:6-9 | a trailing `OR` line survives line normalisation |
| `MdcParser.TrailingOrIgnored` | parseMdcRules.js:20-23 | an `OR` with no later rule line does not change the result |
| `RuleSets.LineEnd` | parseMdcRules.js:65 | `.*` stops at the first line terminator |
| `RuleSets.SplitFrom` | parseMdcRules.js:65 | `split(/(^## Rule Set: .*)/m)` scanned from a position: the text before each header line, then the header line as the captured group; `SplitHeadersConcat`, `SplitHeadersShape`, `SplitHeadersCuts` and `SplitHeadersOddPiece` together state which pieces it returns |
| `RuleSets.SplitHeadersConcat` | parseMdcRules.js:65 | the pieces of the split, concatenated, give back the document |
| `RuleSets.SplitHeadersShape` | parseMdcRules.js:65 | the pieces alternate text, header line, text, …: an odd count, header lines at odd positions, and no header at the start of a text piece after the first |
| `RuleSets.SplitFromComplete` | parseMdcRules.js:65 | every header line at or after the scan position is cut out as an odd piece, from its start to the end of its line |
| `RuleSets.SplitFromSound` | parseMdcRules.js:65 | every odd piece is a header line that starts where the pieces before it end and runs to the end of its line |
| `RuleSets.SplitHeadersCuts` | parseMdcRules.js:65 | a header line starts at a position if and only if an odd piece of the split is cut out there |
| `RuleSets.SplitHeadersOddPiece` | parseMdcRules.js:65 | every odd piece of the split is the header line starting where the pieces before it end |
| `RuleSets.SplitFromNoHeader` | parseMdcRules.js:65 | a text without header lines splits into itself alone |
| `RuleSets.PieceKind` | parseMdcRules.js:70 | the `startsWith('## Rule Set:')` test picks out exactly the header pieces, except possibly the first |
| `RuleSets.LabelOf` | parseMdcRules.js:71 | `replace('## Rule Set:', '').trim()` on a header piece: the trimmed text after the prefix |
| `RuleSets.Labelled` | parseMdcRules.js:68-76 | the rule sets of alternating pieces, one per header with a non-empty label and non-blank following text; `ExtractFromSections` proves the loop equal to it, and `LabelledNonBlank`, `PreambleIgnored` and `LabelsInDocumentOrder` state its properties |
| `RuleSets.HeaderStep` | parseMdcRules.js:70-71 | a header piece sets the current label to its trimmed remainder |
| `RuleSets.RegisterStep` | parseMdcRules.js:72-74 | a non-blank text piece under a non-empty label registers a rule set and clears the label |
| `RuleSets.SkipStep` | parseMdcRules.js:72 | any other piece changes nothing |
| `RuleSets.ExtractSection` | parseMdcRules.js:69-75 | one loop step keeps the loop invariant over the pieces read so far |
| `RuleSets.ExtractFromSections` | parseMdcRules.js:68-76 | the loop yields the labelled sections of the pieces |
| `RuleSets.ExtractRuleSets` | parseMdcRules.js:63-78 | the result is the labelled sections of the document's split |
| `RuleSets.LabelsAt` | parseMdcRules.js:81 | the label list has one entry per rule set, its label |
| `RuleSets.ListRuleSetLabels` | parseMdcRules.js:80-82 | the labels are those of the extracted rule sets, in the same order |
| `RuleSets.FindLabel` | parseMdcRules.js:86 | the first rule set with the label, or -1 when none has it |
| `RuleSets.GetRulesForLabel` | parseMdcRules.js:84-89 | parses the first section with the label, restarting the counter so that it ends one past the node count; gives `[]` with the counter untouched when no section has it |
| `RuleSets.LabelledNonBlank` | parseMdcRules.js:72-73 | every registered rule set has a non-empty label and non-whitespace content |
| `RuleSets.PreambleIgnored` | parseMdcRules.js:72 | text before the first header does not change the rule sets |
| `RuleSets.LabelsInDocumentOrder` | parseMdcRules.js:68-76 | the registered labels are a subsequence of the header labels, in document order |
| `RuleSets.ListedInDocumentOrder` | parseMdcRules.js:80-82 | the listed labels are a subsequence of the document's header labels, in order |
| `RuleSets.NoHeaderNoRuleSets` | parseMdcRules.js:63-78 | a document without header lines has no rule sets |
| `RuleSets.FindLabelListed` | parseMdcRules.js:84-88 | a section is found exactly when its label is listed |
| `Forest.Search` | src/components/RuleEditor.tsx:26-35 | the recursive loop of the find helpers: each node is tested, then its subtree searched, before the next sibling; `SearchSpec` states the result |
| `Forest.SearchSpec` | src/components/RuleEditor.tsx:26-35 | the search fails exactly when the id is absent; otherwise it finds a place holding the id with no earlier occurrence in pre-order |
| `Forest.Locate` | src/components/RuleEditor.tsx:26-35 | the search from the start of the root list; `LocateSpec` states the result |
| `Forest.LocateSpec` | src/components/RuleEditor.tsx:26-35 | the place found is the first pre-order occurrence of the id, and none is found exactly when the id is absent |
| `Forest.NodeAtInIds` | src/components/RuleEditor.tsx:26-35 | every node at a valid place is visited by the traversal |
| `Forest.LocateUnique` | src/components/RuleEditor.tsx:26-35 | under distinct ids, searching for the id of the node at a place finds that place |
| `Forest.WithListAt` | src/components/RuleEditor.tsx:101-103 | after replacing the list at a path, that path holds the new list |
| `Forest.WithListSame` | src/components/RuleEditor.tsx:101-103 | putting a list back where it was changes nothing |
| `Forest.WithListTwice` | src/components/RuleEditor.tsx:101-103 | the later of two replacements at a path wins |
| `Forest.CollectWithList` | src/components/RuleEditor.tsx:101-103 | replacing the list at a path changes the pre-order walk only in that list's stretch |
| `Forest.FindParentAndIndex` | src/components/RuleEditor.tsx:26-35 | no result exactly when the id is absent; otherwise the result is the first pre-order match (`Locate`, with no earlier node carrying the id): `index` is its position and `parent` the node holding its list, null at the top level |
| `Forest.FindParentAndIndexWithSiblings` | src/components/RuleEditor.tsx:38-47 | no result exactly when the id is absent; otherwise the first pre-order match: `siblings` is the list holding it and `siblings[index].id == id`; the parent is null exactly when the match is at the top level, and `siblings` is then the root list, otherwise the parent's children |
| `Forest.FindParentAndIndexWithGrandparent` | src/components/RuleEditor.tsx:167-176 | no result exactly when the id is absent; otherwise the first pre-order match with its parent; parent and parent's siblings are null together; the parent lies in its siblings list, which is the list holding the parent, the grandparent's children or the root list |
| `Forest.UpdateRules` | src/components/RuleEditor.tsx:79-89 | the rebuilt list has as many roots as before |
| `Forest.UpdateRulesAbsent` | src/components/RuleEditor.tsx:79-89 | an absent id leaves the forest unchanged |
| `Forest.UpdateRulesElsewhere` | src/components/RuleEditor.tsx:79-89 | roots whose subtrees do not hold the id are untouched |
| `Forest.UpdateRulesAt` | src/components/RuleEditor.tsx:79-89 | under distinct ids, the update replaces exactly the node with the id by the updater's result |
| `RuleEditor.NumberFrom` | src/components/RuleEditor.tsx:15-17 | the unanchored `/Rule-(\d+)/` tried at each position from `from` on, with `parseInt` of the digit run at the first match; `RuleNumberComplete`, `RuleNumberSound` and `RuleNumberNone` state what it matches |
| `RuleEditor.RuleNumber` | src/components/RuleEditor.tsx:15-17 | the match of `rule.name` from position 0 |
| `RuleEditor.RuleNumberComplete` | src/components/RuleEditor.tsx:15-17 | a name `u + "Rule-" + d + v` with `d` a digit run that `v` does not continue, and with no match starting inside `u`, gives the value of `d` |
| `RuleEditor.RuleNumberSound` | src/components/RuleEditor.tsx:15-17 | every number read from a name comes from such a decomposition: the first match, its whole digit run |
| `RuleEditor.RuleNumberNone` | src/components/RuleEditor.tsx:15-17 | no number exactly when no position starts `Rule-` followed by a digit |
| `RuleEditor.MaxOfSpec` | src/components/RuleEditor.tsx:12-17 | the running maximum bounds every number and is 0 or one of them |
| `RuleEditor.MaxNumberStep` | src/components/RuleEditor.tsx:14-19 | visiting one more root folds its number and then its subtree into the maximum |
| `RuleEditor.Traverse` | src/components/RuleEditor.tsx:13-21 | the traversal leaves `max` at the larger of its start value and the forest's largest `Rule-<n>` number |
| `RuleEditor.GetNextRuleName` | src/components/RuleEditor.tsx:11-24 | returns `Rule-(m+1)` for `m` the largest `Rule-<n>` number at any depth, 0 when none |
| `RuleEditor.RuleNumberOfLabel` | src/components/RuleEditor.tsx:15-17 | the number read back from `Rule-<n>` is `n` |
| `RuleEditor.NextNumberExceeds` | src/components/RuleEditor.tsx:11-24 | the next number exceeds every existing one; the maximum is 0 or an existing number |
| `RuleEditor.NextRuleName` | src/components/RuleEditor.tsx:11-24 | the name `Rule-${max + 1}` reads back as the number one past the largest in the forest, and no node has that name yet |
| `RuleEditor.NextNameNotIn` | src/components/RuleEditor.tsx:15-17 | a name whose number exceeds the maximum is not in use |
| `RuleEditor.NextNameExample` | src/components/RuleEditor.tsx:11-24 | names Rule-1, Rule-7 (nested) and Rule-3 give Rule-8 |
| `RuleEditor.NewRule` | src/components/RuleEditor.tsx:116-122 | the node both add actions create: the given name, `'Description...'`, no children, not `OR`, and an id that starts with the name and a dash |
| `RuleEditor.AddChild` | src/components/RuleEditor.tsx:109-124 | `updateRules` with the child-appending updater keeps the number of roots; `AddChildAt` and `AddChildIds` state the rest |
| `RuleEditor.AddTopLevel` | src/components/RuleEditor.tsx:233-243 | the new node after the root list; `AddTopLevelPreorder` and `AddTopLevelIds` state the result |
| `RuleEditor.SaveDesc` | src/components/RuleEditor.tsx:156-161 | `updateRules` with the description updater keeps the number of roots; `SaveDescAt` states the rest |
| `RuleEditor.Delete` | src/components/RuleEditor.tsx:129-143 | the first match leaves its list; `DeleteAt` and `DeleteCounts` state the result |
| `RuleEditor.Nest` | src/components/RuleEditor.tsx:95-104 | the first match, when not first in its list, becomes the last child of its previous sibling; `NestAt` and `NestKeepsPreorder` state the result |
| `RuleEditor.UnNest` | src/components/RuleEditor.tsx:164-191 | the first match, when not at the top level, moves into its parent's list; `UnNestAt` and `UnNestKeepsPreorder` state the result |
| `RuleEditor.UnNestInList` | src/components/RuleEditor.tsx:180-188 | the child leaves the parent's children and is inserted after the first sibling with the parent's id; `UnNestInListDistinct` states where it lands |
| `RuleEditor.MoveUp` | src/components/RuleEditor.tsx:202-210 | the first match changes places with its previous sibling; `MoveUpAt` and `MoveUpKeepsPreorder` state the result |
| `RuleEditor.MoveDown` | src/components/RuleEditor.tsx:212-220 | the first match changes places with its next sibling; `MoveDownAt` and `MoveDownKeepsPreorder` state the result |
| `RuleEditor.Swap` | src/components/RuleEditor.tsx:207 | the destructuring swap exchanges two positions, keeps the rest and the multiset of the list |
| `RuleEditor.SwapTwice` | src/components/RuleEditor.tsx:207 | swapping twice restores the list |
| `RuleEditor.FindIndex` | src/components/RuleEditor.tsx:183 | `findIndex` gives the first position with the id, or -1 |
| `RuleEditor.FindIndexAt` | src/components/RuleEditor.tsx:183 | a node whose id occurs nowhere before it is found at its own position |
| `RuleEditor.EditsOfAbsentId` | src/components/RuleEditor.tsx:95-220 | every edit of an absent id leaves the forest unchanged |
| `RuleEditor.AddChildAt` | src/components/RuleEditor.tsx:109-124 | add child appends one new node (`getNextRuleName` name, `'Description...'`, no children, not `OR`) after the target's children, and changes nothing else |
| `RuleEditor.AddChildIds` | src/components/RuleEditor.tsx:111-124 | add child adds exactly the new id to the forest's ids; a fresh id keeps ids distinct |
| `RuleEditor.AddTopLevelPreorder` | src/components/RuleEditor.tsx:233-243 | add top-level appends the new node after all existing nodes in pre-order, with everything before it unchanged |
| `RuleEditor.AddTopLevelIds` | src/components/RuleEditor.tsx:233-243 | a fresh id keeps ids distinct |
| `RuleEditor.SaveDescAt` | src/components/RuleEditor.tsx:156-161 | saving a description changes only the target's description; ids, names, `isOr` flags and order are unchanged |
| `RuleEditor.DeleteAt` | src/components/RuleEditor.tsx:129-143 | delete removes the target from its sibling list (or the root list), the other siblings keep their order, nothing else changes |
| `RuleEditor.DeleteCounts` | src/components/RuleEditor.tsx:129-143 | for distinct ids, the nodes removed are exactly the target's subtree, so the node count drops by the subtree's size |
| `RuleEditor.NestKeepsPreorder` | src/components/RuleEditor.tsx:95-104 | nesting keeps the pre-order walk, hence the multiset of ids and every `isOr` flag |
| `RuleEditor.NestAt` | src/components/RuleEditor.tsx:95-104 | for index > 0 the target leaves its list and becomes the last child of its former previous sibling; nothing else changes |
| `RuleEditor.UnNestKeepsPreorder` | src/components/RuleEditor.tsx:177-191 | un-nesting keeps the multiset of nodes, hence of ids |
| `RuleEditor.UnNestAt` | src/components/RuleEditor.tsx:177-191 | the target leaves its parent's children and is inserted right after the parent in the parent's list; nothing else changes |
| `RuleEditor.NestThenUnNest` | src/components/RuleEditor.tsx:95-191 | for distinct ids, un-nesting a node right after nesting it restores the forest |
| `RuleEditor.MoveUpKeepsPreorder` | src/components/RuleEditor.tsx:202-210 | moving up keeps the multiset of nodes |
| `RuleEditor.MoveDownKeepsPreorder` | src/components/RuleEditor.tsx:212-220 | moving down keeps the multiset of nodes |
| `RuleEditor.MoveUpAt` | src/components/RuleEditor.tsx:202-210 | for index > 0 the target swaps with its predecessor; nothing else changes |
| `RuleEditor.MoveDownAt` | src/components/RuleEditor.tsx:212-220 | for a non-last index the target swaps with its successor; nothing else changes |
| `RuleEditor.EditsAtBoundary` | src/components/RuleEditor.tsx:95-220 | for distinct ids, nest and move up are no-ops at index 0, move down at the last index, un-nest on a root |
| `RuleEditor.MoveUpThenDown` | src/components/RuleEditor.tsx:202-220 | for distinct ids, moving down after moving up restores the forest when the target is not first |
| `RuleEditor.MoveDownThenUp` | src/components/RuleEditor.tsx:202-220 | for distinct ids, moving up after moving down restores the forest when the target is not last |
| `RuleEditor.Editor.constructor` | src/components/RuleEditor.tsx:50-58 | no rules loaded, no description being edited, empty edit value |
| `RuleEditor.Editor.Load` | src/components/RuleEditor.tsx:195-199 | the fetched forest becomes the rules; the edit state is kept |
| `RuleEditor.Editor.HandleAction` | src/components/RuleEditor.tsx:91-149 | without rules nothing changes; otherwise nest, add child or delete is applied, and any other action leaves the rules as they were |
| `RuleEditor.Editor.HandleEditDesc` | src/components/RuleEditor.tsx:151-154 | records the rule and the text being edited |
| `RuleEditor.Editor.HandleSaveDesc` | src/components/RuleEditor.tsx:156-161 | with rules loaded, stores the edited text as the rule's description and clears the edit state; without rules nothing changes |
| `RuleEditor.Editor.HandleUnNest` | src/components/RuleEditor.tsx:164-192 | applies un-nest when rules are loaded |
| `RuleEditor.Editor.MoveRuleUp` | src/components/RuleEditor.tsx:202-210 | applies move up when rules are loaded |
| `RuleEditor.Editor.MoveRuleDown` | src/components/RuleEditor.tsx:212-220 | applies move down when rules are loaded |
| `RuleEditor.Editor.AddTopLevelRule` | src/components/RuleEditor.tsx:231-244 | appends the new top-level rule; the button exists only once rules are loaded |

## Left out

- React rendering, JSX, MUI components and animations (src/components/RuleEditor.tsx:222-297, RuleComponent.tsx, App.tsx): they are presentation only.
- The `fetch` calls in `useEffect` and `handleReset`: network I/O. `Editor.Load` stands for the state update they end in.
- The rule-set selection, the add dialog, `selectedRuleId` and `actionType` (src/components/RuleEditor.tsx:92-93, 105-106, 148): they have no effect on the forest. The `'unNest'` action of `handleAction` only opens the dialog, so the rules stay unchanged.
- `Date.now()` in new ids: a clock. The actions take the time as a parameter `now`, and the lemmas about fresh ids take "the new id is not in the forest" as a hypothesis.
- In-place `splice` and element swaps on arrays that are shared with the previous state: every edit is a function on values that rebuilds the path to the changed list. Aliasing between the old and the new forest is not modelled; only the resulting forest is.
- `RuleEditor.NestAt`, `RuleEditor.UnNestAt`, `RuleEditor.DeleteAt`, `RuleEditor.MoveUpAt`, `RuleEditor.MoveDownAt`, `RuleEditor.AddChildAt`, `RuleEditor.SaveDescAt`, `RuleEditor.DeleteCounts`, `RuleEditor.NestThenUnNest`, `RuleEditor.EditsAtBoundary`, `RuleEditor.MoveUpThenDown`, `RuleEditor.MoveDownThenUp`: these assume pairwise distinct ids. Without them the round trips can fail: with roots `X`, `P`, `T` where `X` and `P` share an id, nesting `T` under `P` and un-nesting it again gives `X`, `T`, `P`, because un-nest inserts after the first sibling with the parent's id. The edits themselves follow the source for any forest: the search takes the first pre-order match, `updateRules` hits every match, and un-nest inserts after the first sibling carrying the parent's id.
- `RuleEditor.UnNestKeepsPreorder`, `RuleEditor.MoveUpKeepsPreorder`, `RuleEditor.MoveDownKeepsPreorder`: they state the multiset of nodes, not the order, because those edits reorder nodes.
- `parseInt` on very long digit runs: JavaScript numbers lose precision beyond 2^53. The model reads digit runs as unbounded naturals.
- The JavaScript regular-expression engine: each pattern used is replaced by a hand-written matcher over strings, and JavaScript's `\s` class is listed character by character.
- The dead variables `lastIndent`, `lastParent` and `lastRule` (parseMdcRules.js:13-15, 54-56): they have no observable effect.
- rule-editor-server.js and src/utils/initialRules.ts: the Express routes and file reads only wire text into the parser, and the fixture is static data.
