# astminer function descriptors, modelled in Dafny

This project models how astminer rebuilds a language-agnostic function
descriptor (`FunctionInfo`) from an ANTLR Python parse tree whose node labels
are raw grammar production names. It covers three pieces:

- **The node query layer** (`Node` and `ParseResult` in `ParsingModel.kt`):
  - `getChildrenOfType` and `getChildOfType`, with the exact label matching
    of `Node`;
  - `prettyPrint`, as the list of lines it writes;
  - `labeledWith` and `labeledWithFilePath`.
- **The `FunctionInfo` protocol** (`FunctionInfoModel.kt`):
  - every property has a default getter that signals "not implemented for
    this backend", which is different from an absent value;
  - `name`, `isBlank` and `isNotBlank` are derived from other properties;
  - `extractWithLogger` turns an `IllegalStateException` into `null`.
- **The Python builder** (`AntlrPythonFunctionInfo.kt`): it recovers three
  properties from production labels (`funcdef`, `NAME`, `parameters`,
  `typedargslist`, `tfpdef`, `test`, `classdef`, `suite`):
  - the name node;
  - the ordered parameter list;
  - the nearest enclosing class or function, classified as Class, Method or
    Function.

## How the model is built

**The tree.** A tree is an arena, `seq<NodeRec>`. Each record holds:

- the label;
- the normalised token and the original token;
- the child indices;
- the parent index.

`WellFormed` requires three things:

- parent and child links agree;
- a parent's index is smaller than its children's;
- no child is listed twice.

The index ordering is what makes the upward search of `findEnclosingNode` and
every subtree walk terminate.

**Exceptions.** Kotlin exceptions are values of `Outcome<T>`:

- `NotImplemented(property)` for `FunctionInfoPropertyNotImplementedException`;
- `IllegalState(message)` for `throw IllegalStateException`;
- `IllegalArgument(message)` for `require`.

**Descriptor properties.** Each property of a descriptor is a `Getter<T>`:
either the interface `Default` or a backend `Overridden(value)`.

**Lean functions, Meaning lemmas.** Each operation is a function whose
contract states only the shape of its result: bounds, and which exceptions it
can raise. Its full meaning is a separate lemma named `…Meaning`, which the
table below cites.

**Stated assumptions.** `AntlrNode` and the helpers the builder imports from
the ANTLR package (`decompressTypeLabel`, `lastLabelIn`, `hasLastLabel`,
`getTokensFromSubtree`) are not part of this model. `AntlrUtil` defines them
as assumptions:

- a label is a `|`-separated chain of collapsed productions, and its effective
  production is the last segment;
- `getChildOfType` and `getChildrenOfType` on an `AntlrNode` find a child by
  the first segment of its label chain. This is what the comment at
  `AntlrPythonFunctionInfo.kt:23-25` relies on: the type child it looks up
  as `test` is labelled `test|or_test|...|atom|NAME`. On children with
  single-production labels this lookup agrees with the exact one of `Node`
  (`LookupsAgreeOnPlainLabels`). On a chained label the two differ
  (`ChainedLabelLookups`);
- flattening a subtree concatenates its leaf tokens from left to right.

In the builder, an "`X` child" is a child whose label chain starts with `X`.
The `isMethod` test compares the parent's label with `suite` exactly
(line 101).

**What the code does in two notable cases.**

- **A function directly in a class body.** The search stops at the
  `classdef`, so the enclosing element is a Class named after the class
  (`FunctionInClassScenario`). A function gets a Method only when its
  enclosing `funcdef` itself sits in a class body
  (`FunctionInMethodScenario`).
- **`isBlank` on a Python descriptor.** The Python class does not override
  `body`, so `isBlank` and `isNotBlank` signal "not implemented" instead of
  answering (`PythonDescriptorReads`, `TopLevelFunctionScenario`).

## Model

| member | source | states |
|---|---|---|
| `Outcomes.Sequence` | src/main/kotlin/astminer/parse/antlr/python/AntlrPythonFunctionInfo.kt:45-47 | Kotlin `map` where a step can throw: all values in order when every step succeeds, otherwise the exception of the first failing step, with every earlier step succeeding |
| `Outcomes.SequenceFailsOnlyWith` | src/main/kotlin/astminer/parse/antlr/python/AntlrPythonFunctionInfo.kt:45-47 | if every step either succeeds or raises one given `IllegalArgumentException`, the mapped list does the same |
| `ParsingModel.FilterByLabelMeaning` | src/main/kotlin/astminer/common/model/ParsingModel.kt:29 | the filter keeps exactly the elements whose label equals the given one; its first kept element is the first element with that label |
| `ParsingModel.FilterByLabelIsSubsequence` | src/main/kotlin/astminer/common/model/ParsingModel.kt:29 | the filter keeps the original order: its result is a subsequence of the input |
| `ParsingModel.GetChildrenOfTypeMeaning` | src/main/kotlin/astminer/common/model/ParsingModel.kt:29 | exactly the direct children whose label equals the given label, in child order; empty iff no child has it |
| `ParsingModel.GetChildOfTypeMeaning` | src/main/kotlin/astminer/common/model/ParsingModel.kt:30 | absent iff no child has the label, iff `getChildrenOfType` is empty; otherwise its head, which is the first child with the label |
| `ParsingModel.FirstWithLabelUnique` | src/main/kotlin/astminer/common/model/ParsingModel.kt:30 | "the first child with this label" names at most one child |
| `ParsingModel.GetChildOfTypeIsFirst` | src/main/kotlin/astminer/common/model/ParsingModel.kt:30 | whichever child is the first with the label, `getChildOfType` returns it |
| `ParsingModel.PreOrderShape` | src/main/kotlin/astminer/common/model/ParsingModel.kt:26 | the pre-order of a subtree starts at its root; every later entry is a proper descendant, one or more levels deeper |
| `ParsingModel.PreOrderDepth` | src/main/kotlin/astminer/common/model/ParsingModel.kt:18-26 | every entry is a node of the subtree, recorded at the start depth plus its distance from the subtree root |
| `ParsingModel.PreOrderComplete` | src/main/kotlin/astminer/common/model/ParsingModel.kt:26 | every node of the subtree appears in its pre-order |
| `ParsingModel.PreOrderDistinct` | src/main/kotlin/astminer/common/model/ParsingModel.kt:26 | no node appears twice in the pre-order |
| `ParsingModel.PreOrderFromSiblingOrder` | src/main/kotlin/astminer/common/model/ParsingModel.kt:26 | children are visited left to right: every entry below an earlier child comes before every entry below a later child |
| `ParsingModel.DistanceThroughChild` | src/main/kotlin/astminer/common/model/ParsingModel.kt:26 | a node below a child of `i` is one level further from `i` than from that child |
| `ParsingModel.ChildrenDisjoint` | src/main/kotlin/astminer/common/model/ParsingModel.kt:26 | a node lies below at most one child of a given node |
| `ParsingModel.PrettyPrintFollowsPreOrder` | src/main/kotlin/astminer/common/model/ParsingModel.kt:18-27 | `prettyPrint` writes one line per entry of the pre-order (so, by the lemmas above, exactly one per node of the subtree, children left to right); each line is the indentation for that node's depth, the label, and ` : token` only when the token is not empty |
| `ParsingModel.PrettyPrintIndentation` | src/main/kotlin/astminer/common/model/ParsingModel.kt:18-27 | the first line is the root's own; every later line starts with at least one more level of indentation |
| `ParsingModel.PrettyPrintDefault` | src/main/kotlin/astminer/common/model/ParsingModel.kt:18-27 | `prettyPrint()` with its default arguments (`indent = 0`, `indentSymbol = "--"`): one line per pre-order entry, the root's line unindented, and each node's line preceded by `--` once per level the node lies below the root |
| `ParsingModel.IndentationPrefix` | src/main/kotlin/astminer/common/model/ParsingModel.kt:19 | the indentation of a smaller `indent` is a prefix of the indentation of a larger one |
| `ParsingModel.LabeledWith` | src/main/kotlin/astminer/common/model/ParsingModel.kt:65 | the tree and the file path are kept; the label is the one given |
| `ParsingModel.LabeledWithFilePath` | src/main/kotlin/astminer/common/model/ParsingModel.kt:67 | the tree and the file path are kept, and the label is the file path itself |
| `AntlrUtil.LastSegmentIsSuffix` | src/main/kotlin/astminer/parse/antlr/python/AntlrPythonFunctionInfo.kt:23-25 | the effective production is the suffix of the label after its last `\|`, or the whole label when there is none |
| `AntlrUtil.SingleSegmentUnchanged` | src/main/kotlin/astminer/parse/antlr/python/AntlrPythonFunctionInfo.kt:23-25 | a label is its own effective production iff it contains no `\|` |
| `AntlrUtil.LastSegmentOfChain` | src/main/kotlin/astminer/parse/antlr/python/AntlrPythonFunctionInfo.kt:23-25 | prefixing a chain with more collapsed productions does not change the effective production |
| `AntlrUtil.LastSegmentIdempotent` | src/main/kotlin/astminer/parse/antlr/python/AntlrPythonFunctionInfo.kt:106 | decompressing an effective production again gives it back |
| `AntlrUtil.FirstSegmentIsPrefix` | src/main/kotlin/astminer/parse/antlr/python/AntlrPythonFunctionInfo.kt:23-25 | the production a chain is found under is its prefix up to the first `\|`, or the whole label when there is none |
| `AntlrUtil.FirstSegmentOfSingle` | src/main/kotlin/astminer/parse/antlr/python/AntlrPythonFunctionInfo.kt:23-25 | a label is its own first production iff it contains no `\|` |
| `AntlrUtil.FirstSegmentOfChain` | src/main/kotlin/astminer/parse/antlr/python/AntlrPythonFunctionInfo.kt:23-25 | a chain `L\|rest` is found under `L` |
| `AntlrUtil.AntlrChildrenOfTypeMeaning` | src/main/kotlin/astminer/parse/antlr/python/AntlrPythonFunctionInfo.kt:45 | `getChildrenOfType` on an `AntlrNode`: exactly the direct children whose chain starts with the label, in child order; empty iff there is none |
| `AntlrUtil.AntlrChildOfTypeMeaning` | src/main/kotlin/astminer/parse/antlr/python/AntlrPythonFunctionInfo.kt:32 | `getChildOfType` on an `AntlrNode`: absent iff no child's chain starts with the label; otherwise the first child whose chain does |
| `AntlrUtil.AntlrChildOfTypeIsFirst` | src/main/kotlin/astminer/parse/antlr/python/AntlrPythonFunctionInfo.kt:36-37 | whichever child is the first whose chain starts with the label, the lookup returns it |
| `AntlrUtil.FirstWithHeadUnique` | src/main/kotlin/astminer/parse/antlr/python/AntlrPythonFunctionInfo.kt:36-37 | "the first child whose chain starts with this label" names at most one child |
| `AntlrUtil.LookupsAgreeOnPlainLabels` | src/main/kotlin/astminer/common/model/ParsingModel.kt:29-30 | on children with single-production labels, the lookups of `AntlrNode` and of `Node` give the same children and the same first child |
| `AntlrUtil.ChainedLabelLookups` | src/main/kotlin/astminer/common/model/ParsingModel.kt:29-30 | a child labelled `L\|rest` is a child of type `L` for `AntlrNode` but not for the exact lookup of `Node` |
| `AntlrUtil.TokensFromSubtreeIsLeafTokens` | src/main/kotlin/astminer/parse/antlr/python/AntlrPythonFunctionInfo.kt:59 | flattening a subtree yields its leaf tokens concatenated in pre-order |
| `FunctionInfoModel.Read` | src/main/kotlin/astminer/common/model/FunctionInfoModel.kt:15-16 | an overridden property yields its value; a default getter signals "not implemented" under the property's own name and never yields a value |
| `FunctionInfoModel.DefaultGettersNotImplemented` | src/main/kotlin/astminer/common/model/FunctionInfoModel.kt:18-40 | with no override, each of the ten properties signals "not implemented" under its own name |
| `FunctionInfoModel.Name` | src/main/kotlin/astminer/common/model/FunctionInfoModel.kt:21-22 | absent iff the name node is absent, otherwise the name node's original token; a backend without `nameNode` cannot answer |
| `FunctionInfoModel.IsBlank` | src/main/kotlin/astminer/common/model/FunctionInfoModel.kt:42 | true iff the body is absent or has no children; without a `body` override it signals "not implemented" instead of answering |
| `FunctionInfoModel.IsNotBlank` | src/main/kotlin/astminer/common/model/FunctionInfoModel.kt:43 | the negation of `isBlank`, failing exactly as `isBlank` fails |
| `FunctionInfoModel.ExtractWithLogger` | src/main/kotlin/astminer/common/model/FunctionInfoModel.kt:47-52 | for an extraction of a non-nullable type: a value passes through unchanged; the result is `null` exactly when the extraction raised `IllegalStateException`; every other exception propagates unchanged |
| `FunctionInfoModel.ExtractNullableWithLogger` | src/main/kotlin/astminer/common/model/FunctionInfoModel.kt:47-52 | for an extraction of a nullable type: the result is `null` exactly when the extraction raised `IllegalStateException` or itself returned `null`; a value passes through; every other exception propagates unchanged |
| `AntlrPythonFunctionInfo.CollectNameNodeMeaning` | src/main/kotlin/astminer/parse/antlr/python/AntlrPythonFunctionInfo.kt:31-33 | the name node is the first direct child whose label chain starts with `NAME`, and absent iff there is none |
| `AntlrPythonFunctionInfo.AssembleParameter` | src/main/kotlin/astminer/parse/antlr/python/AntlrPythonFunctionInfo.kt:50-65 | the only exception a parameter can raise is the `require` at line 57 |
| `AntlrPythonFunctionInfo.AssembleParameterMeaning` | src/main/kotlin/astminer/parse/antlr/python/AntlrPythonFunctionInfo.kt:50-65 | rejected iff the node's effective production is not `NAME` and no child's chain starts with `NAME`; named by its own token when its effective production is `NAME`, else by its first `NAME` child; its type is absent iff no child's chain starts with `test`, else the flattened first such child |
| `AntlrPythonFunctionInfo.AssembleAll` | src/main/kotlin/astminer/parse/antlr/python/AntlrPythonFunctionInfo.kt:45-47 | one parameter per node, in order, with the same length; it fails iff some node is rejected, and then only with the missing-name exception |
| `AntlrPythonFunctionInfo.CollectParametersFrom` | src/main/kotlin/astminer/parse/antlr/python/AntlrPythonFunctionInfo.kt:39-47 | the parameters of an inner list node raise no exception except the missing-name one |
| `AntlrPythonFunctionInfo.CollectParametersFromMeaning` | src/main/kotlin/astminer/parse/antlr/python/AntlrPythonFunctionInfo.kt:39-47 | a node whose effective production is `tfpdef` or `NAME` is the single parameter; otherwise there is one parameter per direct child whose chain starts with `tfpdef`, in child order, with the same count |
| `AntlrPythonFunctionInfo.CollectParameters` | src/main/kotlin/astminer/parse/antlr/python/AntlrPythonFunctionInfo.kt:35-48 | collecting parameters raises no exception except the missing-name one |
| `AntlrPythonFunctionInfo.CollectParametersMeaning` | src/main/kotlin/astminer/parse/antlr/python/AntlrPythonFunctionInfo.kt:35-48 | empty without a `parameters` child, or without a `typedargslist` child under the first one (children found by the first production of their chain); otherwise the parameters of that first inner node |
| `AntlrPythonFunctionInfo.NoParameterList` | src/main/kotlin/astminer/parse/antlr/python/AntlrPythonFunctionInfo.kt:36-37 | a first `parameters` child none of whose children's chains starts with `typedargslist` gives the empty list |
| `AntlrPythonFunctionInfo.ParameterList` | src/main/kotlin/astminer/parse/antlr/python/AntlrPythonFunctionInfo.kt:36-37 | with a first `parameters` child and a first `typedargslist` under it, the parameters are those of that node |
| `AntlrPythonFunctionInfo.ListedParameters` | src/main/kotlin/astminer/parse/antlr/python/AntlrPythonFunctionInfo.kt:39-47 | an inner node labelled just `typedargslist` is not the single-parameter case: one parameter per child whose chain starts with `tfpdef` |
| `AntlrPythonFunctionInfo.CollapsedListIsOneParameter` | src/main/kotlin/astminer/parse/antlr/python/AntlrPythonFunctionInfo.kt:39-43 | an inner node collapsed into `typedargslist\|...` whose effective production is `tfpdef` or `NAME` is the one parameter |
| `AntlrPythonFunctionInfo.FindEnclosingNode` | src/main/kotlin/astminer/parse/antlr/python/AntlrPythonFunctionInfo.kt:92-97 | a node is found only from a start node; it has an index no larger than the start's, and its effective production is `classdef` or `funcdef` |
| `AntlrPythonFunctionInfo.FindEnclosingNodeIsNearest` | src/main/kotlin/astminer/parse/antlr/python/AntlrPythonFunctionInfo.kt:92-97 | the node found is an ancestor of the start (or the start itself); every `classdef`/`funcdef` ancestor lies no lower; nothing is found only when there is none |
| `AntlrPythonFunctionInfo.FindEnclosingNodeLoop` | src/main/kotlin/astminer/parse/antlr/python/AntlrPythonFunctionInfo.kt:92-97 | the tail-recursive search written as a loop over parent links gives the same node |
| `AntlrPythonFunctionInfo.IsMethod` | src/main/kotlin/astminer/parse/antlr/python/AntlrPythonFunctionInfo.kt:99-108 | true iff the parent is labelled exactly `suite` and that suite's parent has effective production `classdef`; rejected iff that suite has no parent |
| `AntlrPythonFunctionInfo.EnclosingKind` | src/main/kotlin/astminer/parse/antlr/python/AntlrPythonFunctionInfo.kt:70-79 | the kind is computed or an `IllegalStateException`; the only `IllegalArgumentException` is the suite-without-parent one |
| `AntlrPythonFunctionInfo.EnclosingKindMeaning` | src/main/kotlin/astminer/parse/antlr/python/AntlrPythonFunctionInfo.kt:70-79 | Class iff `classdef`; Method or Function for a `funcdef` as `isMethod` decides; never VariableDeclaration; `IllegalStateException` iff the node is neither |
| `AntlrPythonFunctionInfo.EnclosingElementAt` | src/main/kotlin/astminer/parse/antlr/python/AntlrPythonFunctionInfo.kt:80-89 | the element's root is the found node; the only `IllegalArgumentException` is the suite-without-parent one |
| `AntlrPythonFunctionInfo.EnclosingElementAtMeaning` | src/main/kotlin/astminer/parse/antlr/python/AntlrPythonFunctionInfo.kt:70-89 | the exceptions are as for the kind; the kind is classified as above; the name is the first `NAME` child's token, absent iff there is none |
| `AntlrPythonFunctionInfo.CollectEnclosingElement` | src/main/kotlin/astminer/parse/antlr/python/AntlrPythonFunctionInfo.kt:68-90 | never raises `IllegalStateException`, so lines 78 and 83 are unreachable; the only exception is the suite-without-parent one |
| `AntlrPythonFunctionInfo.EnclosingElementOfFound` | src/main/kotlin/astminer/parse/antlr/python/AntlrPythonFunctionInfo.kt:68-90 | when the search finds a node, the result is that node's element, or the `IllegalArgumentException` exactly when `isMethod` rejects a found `funcdef` |
| `AntlrPythonFunctionInfo.TopLevelFunctionHasNoEnclosingElement` | src/main/kotlin/astminer/parse/antlr/python/AntlrPythonFunctionInfo.kt:69 | a function with no `classdef`/`funcdef` above it has no enclosing element |
| `AntlrPythonFunctionInfo.Build` | src/main/kotlin/astminer/parse/antlr/python/AntlrPythonFunctionInfo.kt:6-9 | construction succeeds iff parameters and enclosing element are computed; otherwise it fails with `IllegalArgumentException`, and since `parameters` is computed before `enclosingElement`, a missing parameter name ("Method name was not found") is the exception reported whenever it occurs, and "Found body without enclosing element" only when the parameters were computed; exactly `nameNode`, `root`, `parameters` and `enclosingElement` are overridden |
| `AntlrPythonFunctionInfo.PythonDescriptorReads` | src/main/kotlin/astminer/parse/antlr/python/AntlrPythonFunctionInfo.kt:6-9 | a built descriptor is named by the original token of the first `NAME` child; `isBlank`, `isNotBlank` and `filePath` signal "not implemented" |
| `PythonScenarios.TopLevelFunctionScenario` | src/main/kotlin/astminer/parse/antlr/python/AntlrPythonFunctionInfo.kt:31-37 | `def f()` in a file: named `f`, no parameters, no enclosing element, `isBlank` not answered |
| `PythonScenarios.FunctionInClassScenario` | src/main/kotlin/astminer/parse/antlr/python/AntlrPythonFunctionInfo.kt:70-71 | a function directly in `class C` has enclosing element Class `C` |
| `PythonScenarios.FunctionInMethodScenario` | src/main/kotlin/astminer/parse/antlr/python/AntlrPythonFunctionInfo.kt:99-108 | a function inside `m`, which sits in a class body, has enclosing element Method `m` |
| `PythonScenarios.FunctionInFunctionScenario` | src/main/kotlin/astminer/parse/antlr/python/AntlrPythonFunctionInfo.kt:99-108 | one level further down, the enclosing element is Function `inner` |
| `PythonScenarios.ParameterListScenario` | src/main/kotlin/astminer/parse/antlr/python/AntlrPythonFunctionInfo.kt:45-64 | `def g(x, y: int)`: `x` is a collapsed `tfpdef\|NAME` leaf and `y`'s type a `test\|...\|NAME` leaf; the parameters are `x` (untyped) and `y` typed `int`, in order, and the exact lookup of `Node` would have missed `x` |
| `PythonScenarios.CollapsedParameterScenario` | src/main/kotlin/astminer/parse/antlr/python/AntlrPythonFunctionInfo.kt:36-43 | `def h(x)`, whose parameter list is collapsed into one `typedargslist\|tfpdef\|NAME` leaf: the single-parameter branch gives the one parameter `x` |
| `PythonScenarios.BodyWithoutEnclosingScenario` | src/main/kotlin/astminer/parse/antlr/python/AntlrPythonFunctionInfo.kt:103-104 | a function enclosed by a function that sits in a parentless `suite` aborts construction with the `require` exception, which is not among the exceptions `extractWithLogger` catches |

## Left out

- `Parser.parseInputStream`, `parseFile` and `parseFiles` (`ParsingModel.kt:35-62`): stream and file I/O into grammar parsers that are not part of this model.
- `Node.metadata` (`ParsingModel.kt:16`): an untyped mutable map, unused by the modelled logic.
- `removeChildrenOfType` and `isLeaf` (`ParsingModel.kt:14`, `:32`): declared without an implementation.
- `TreeFunctionSplitter` (`FunctionInfoModel.kt:5-7`): an interface with no implementation among the modelled files.
- `prettyPrint` writes to standard output: it is modelled as the sequence of lines it writes, without line breaks.
- `ExtractWithLogger`: the `logger.warn` call is left out (logging), and the extraction is passed as its already-computed outcome, so laziness is not modelled.
  - The warning message reads `name` and `filePath`.
  - A backend without `filePath`, such as the Python one, would raise "not implemented" from inside the handler when the warning is rendered.
  - The model returns `null` regardless.
- `FunctionInfoPropertyNotImplementedException` (`FunctionInfoModel.kt:9-13`): only the property name is kept, not the message text.
- The `IllegalArgumentException` and `IllegalStateException` messages are kept as constants. Kotlin's exception class hierarchy is not modelled.
- `decompressTypeLabel`, `lastLabelIn`, `hasLastLabel` and `getTokensFromSubtree` are not part of this model; `AntlrUtil` defines them as stated assumptions. Token normalisation (`token` versus `originalToken`) is not modelled: both are fields of a node.
- `AntlrNode` is not part of this model. Its `getChildOfType`/`getChildrenOfType` are modelled by the stated assumption that they match the first production of a label chain (`AntlrChildOfType`, `AntlrChildrenOfType`).
- The scenario trees omit punctuation tokens and body statements; their labels are the collapsed chains of the Python 3 grammar.
- `src/main/python/parse/javalang/aw_javalang/main.py` and the example drivers `AllCppFiles.kt` and `AllJavaScriptFiles.kt`: file discovery, foreign parsers, CSV and JSON output.
