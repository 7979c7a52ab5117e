/** `AntlrPythonFunctionInfo`: rebuilds a function descriptor from an ANTLR
    Python parse tree whose labels are raw grammar production names.

    The Kotlin class computes `nameNode`, `parameters` and `enclosingElement`
    when it is constructed, so an exception raised by any of them aborts the
    construction of the whole descriptor. The child lookups go through the
    `getChildOfType`/`getChildrenOfType` of `AntlrNode`, which find a child
    by the first segment of its label chain; the checks written with
    `lastLabelIn`/`hasLastLabel`/`decompressTypeLabel` look at the last
    segment; `isMethod` compares the label of the parent with `suite`
    exactly. Below, an "`X` child" is a child whose label chain starts with
    `X`, which is how `AntlrNode` finds it.
 */
module AntlrPythonFunctionInfo {
  import opened Outcomes
  import opened ParsingModel
  import opened AntlrUtil
  import opened FunctionInfoModel

  const MethodNode := "funcdef"
  const MethodNameNode := "NAME"
  const ClassDeclarationNode := "classdef"
  const ClassNameNode := "NAME"
  const MethodParameterNode := "parameters"
  const MethodParameterInnerNode := "typedargslist"
  const MethodSingleParameterNode := "tfpdef"
  const ParameterNameNode := "NAME"
  const ParameterTypeNode := "test"
  const PossibleEnclosingElements := [ClassDeclarationNode, MethodNode]
  const BodyNode := "suite"

  const MissingParameterName := "Method name was not found"
  const BodyWithoutEnclosing := "Found body without enclosing element"
  const UnexpectedEnclosingKind := "Enclosing node can only be function or class"

  // ---------------------------------------------------------------------------
  // Name
  // ---------------------------------------------------------------------------

  /** `collectNameNode`; its meaning is stated by `CollectNameNodeMeaning`. */
  function CollectNameNode(t: Tree, root: nat): (r: Option<nat>)
    requires WellFormed(t) && root < |t|
    ensures r.Some? ==> r.value < |t|
  {
    AntlrChildOfType(t, root, MethodNameNode)
  }

  /** The name node is the first direct child whose label chain starts with
      `NAME`, and absent exactly when there is none. */
  lemma CollectNameNodeMeaning(t: Tree, root: nat)
    requires WellFormed(t) && root < |t|
    ensures var r := CollectNameNode(t, root);
      && (r.None? <==> forall c :: c in t[root].children ==> FirstSegment(t[c].typeLabel) != MethodNameNode)
      && (r.Some? ==> IsFirstWithHead(t, t[root].children, MethodNameNode, r.value))
  {
    AntlrChildOfTypeMeaning(t, root, MethodNameNode);
  }

  // ---------------------------------------------------------------------------
  // Parameters
  // ---------------------------------------------------------------------------

  /** `assembleMethodInfoParameter`; its meaning is stated by
      `AssembleParameterMeaning`. */
  function AssembleParameter(t: Tree, n: nat): (r: Outcome<Parameter>)
    requires WellFormed(t) && n < |t|
    ensures r.Ok? || r == IllegalArgument(MissingParameterName)
  {
    var name := ParameterName(t, n);
    if name.None? then IllegalArgument(MissingParameterName)
    else Ok(Parameter(name.value, ParameterType(t, n)))
  }

  /** Lines 51-56: the parameter's own token when its effective production
      is `NAME`, otherwise the token of its first `NAME` child. */
  function ParameterName(t: Tree, n: nat): Option<string>
    requires WellFormed(t) && n < |t|
  {
    if HasLastLabel(t[n].typeLabel, ParameterNameNode) then Some(t[n].token)
    else TokenOf(t, AntlrChildOfType(t, n, ParameterNameNode))
  }

  /** Line 59: the flattened tokens of the first `test` child, if any. */
  function ParameterType(t: Tree, n: nat): Option<string>
    requires WellFormed(t) && n < |t|
  {
    match AntlrChildOfType(t, n, ParameterTypeNode)
    case None => None
    case Some(c) => Some(TokensFromSubtree(t, c))
  }

  /** A node whose effective production is `NAME` is an untyped parameter
      named by its own token; otherwise the name is the token of the first
      `NAME` child, and without one the parameter is rejected (`require`), so
      no parameter without a name is ever produced. The type is absent exactly
      when there is no `test` child, and otherwise is the flattened token text
      of the first one. */
  lemma AssembleParameterMeaning(t: Tree, n: nat)
    requires WellFormed(t) && n < |t|
    ensures var r := AssembleParameter(t, n);
      && (r.IllegalArgument? <==>
            !HasLastLabel(t[n].typeLabel, ParameterNameNode) &&
            forall c :: c in t[n].children ==> FirstSegment(t[c].typeLabel) != ParameterNameNode)
      && (r.Ok? && HasLastLabel(t[n].typeLabel, ParameterNameNode) ==> r.value.name == t[n].token)
      && (r.Ok? && !HasLastLabel(t[n].typeLabel, ParameterNameNode) ==>
            exists c: nat :: IsFirstWithHead(t, t[n].children, ParameterNameNode, c) && r.value.name == t[c].token)
      && (r.Ok? ==>
            (r.value.declaredType.None? <==> forall c :: c in t[n].children ==> FirstSegment(t[c].typeLabel) != ParameterTypeNode))
      && (r.Ok? && r.value.declaredType.Some? ==>
            exists c: nat :: IsFirstWithHead(t, t[n].children, ParameterTypeNode, c) &&
              r.value.declaredType.value == TokensFromSubtree(t, c))
  {
    AntlrChildOfTypeMeaning(t, n, ParameterNameNode);
    AntlrChildOfTypeMeaning(t, n, ParameterTypeNode);
  }

  /** The `map` over parameter nodes: one parameter per node, in order; the
      first node without a name aborts the whole list. */
  function AssembleAll(t: Tree, ns: seq<nat>): (r: Outcome<seq<Parameter>>)
    requires WellFormed(t) && forall k :: 0 <= k < |ns| ==> ns[k] < |t|
    ensures r.Ok? <==> forall k :: 0 <= k < |ns| ==> AssembleParameter(t, ns[k]).Ok?
    ensures r.Ok? ==> |r.value| == |ns|
    ensures r.Ok? ==> forall k :: 0 <= k < |ns| ==> r.value[k] == AssembleParameter(t, ns[k]).value
    ensures !r.Ok? ==> r == IllegalArgument(MissingParameterName)
  {
    var steps := ParameterSteps(t, ns);
    SequenceFailsOnlyWith(steps, MissingParameterName);
    Sequence(steps)
  }

  /** One assembly step per parameter node. */
  function ParameterSteps(t: Tree, ns: seq<nat>): (r: seq<Outcome<Parameter>>)
    requires WellFormed(t) && forall k :: 0 <= k < |ns| ==> ns[k] < |t|
    ensures |r| == |ns|
    ensures forall k :: 0 <= k < |ns| ==> r[k] == AssembleParameter(t, ns[k])
  {
    seq(|ns|, k requires 0 <= k < |ns| => AssembleParameter(t, ns[k]))
  }

  /** Lines 39-47 of `collectParameters`, for a given inner parameter-list
      node; its meaning is stated by `CollectParametersFromMeaning`. */
  function CollectParametersFrom(t: Tree, inner: nat): (r: Outcome<seq<Parameter>>)
    requires WellFormed(t) && inner < |t|
    ensures r.Ok? || r == IllegalArgument(MissingParameterName)
  {
    if LastLabelIn(t[inner].typeLabel, [MethodSingleParameterNode, ParameterNameNode]) then
      var p :- AssembleParameter(t, inner);
      Ok([p])
    else
      AssembleAll(t, AntlrChildrenOfType(t, inner, MethodSingleParameterNode))
  }

  /** A node whose effective production is `tfpdef` or `NAME` is the only
      parameter; otherwise each direct `tfpdef` child is one parameter, in
      child order, and the first one without a name aborts the list. */
  lemma CollectParametersFromMeaning(t: Tree, inner: nat)
    requires WellFormed(t) && inner < |t|
    ensures var r := CollectParametersFrom(t, inner);
      LastLabelIn(t[inner].typeLabel, [MethodSingleParameterNode, ParameterNameNode]) ==>
      && (r.Ok? <==> AssembleParameter(t, inner).Ok?)
      && (r.Ok? ==> r.value == [AssembleParameter(t, inner).value])
    ensures var r := CollectParametersFrom(t, inner);
      !LastLabelIn(t[inner].typeLabel, [MethodSingleParameterNode, ParameterNameNode]) ==>
      var singles := AntlrChildrenOfType(t, inner, MethodSingleParameterNode);
      && (r.Ok? <==> forall k :: 0 <= k < |singles| ==> AssembleParameter(t, singles[k]).Ok?)
      && (r.Ok? ==> |r.value| == |singles|)
      && (r.Ok? ==> forall k :: 0 <= k < |singles| ==> r.value[k] == AssembleParameter(t, singles[k]).value)
  {
  }

  /** `collectParameters`; its meaning is stated by `CollectParametersMeaning`. */
  function CollectParameters(t: Tree, root: nat): (r: Outcome<seq<Parameter>>)
    requires WellFormed(t) && root < |t|
    ensures r.Ok? || r == IllegalArgument(MissingParameterName)
  {
    var parametersRoot := AntlrChildOfType(t, root, MethodParameterNode);
    if parametersRoot.None? then Ok([])
    else
      var innerParametersRoot := AntlrChildOfType(t, parametersRoot.value, MethodParameterInnerNode);
      if innerParametersRoot.None? then Ok([])
      else CollectParametersFrom(t, innerParametersRoot.value)
  }

  /** No parameters without a `parameters` child, or without a
      `typedargslist` child under the first one; otherwise the parameters of
      the first such inner node. */
  lemma CollectParametersMeaning(t: Tree, root: nat)
    requires WellFormed(t) && root < |t|
    ensures (forall c :: c in t[root].children ==> FirstSegment(t[c].typeLabel) != MethodParameterNode) ==>
      CollectParameters(t, root) == Ok([])
    ensures forall p: nat :: IsFirstWithHead(t, t[root].children, MethodParameterNode, p) && p < |t| ==>
      && ((forall c :: c in t[p].children ==> FirstSegment(t[c].typeLabel) != MethodParameterInnerNode) ==>
            CollectParameters(t, root) == Ok([]))
      && (forall q: nat :: IsFirstWithHead(t, t[p].children, MethodParameterInnerNode, q) && q < |t| ==>
            CollectParameters(t, root) == CollectParametersFrom(t, q))
  {
    AntlrChildOfTypeMeaning(t, root, MethodParameterNode);
    forall p: nat | IsFirstWithHead(t, t[root].children, MethodParameterNode, p) && p < |t|
      ensures (forall c :: c in t[p].children ==> FirstSegment(t[c].typeLabel) != MethodParameterInnerNode) ==>
        CollectParameters(t, root) == Ok([])
      ensures forall q: nat :: IsFirstWithHead(t, t[p].children, MethodParameterInnerNode, q) && q < |t| ==>
        CollectParameters(t, root) == CollectParametersFrom(t, q)
    {
      if forall c :: c in t[p].children ==> FirstSegment(t[c].typeLabel) != MethodParameterInnerNode {
        NoParameterList(t, root, p);
      }
      forall q: nat | IsFirstWithHead(t, t[p].children, MethodParameterInnerNode, q) && q < |t|
        ensures CollectParameters(t, root) == CollectParametersFrom(t, q)
      {
        ParameterList(t, root, p, q);
      }
    }
  }

  /** A first `parameters` child without a `typedargslist` child: no parameters. */
  lemma NoParameterList(t: Tree, root: nat, p: nat)
    requires WellFormed(t) && root < |t| && p < |t|
    requires IsFirstWithHead(t, t[root].children, MethodParameterNode, p)
    requires forall c :: c in t[p].children ==> FirstSegment(t[c].typeLabel) != MethodParameterInnerNode
    ensures CollectParameters(t, root) == Ok([])
  {
    AntlrChildOfTypeIsFirst(t, root, MethodParameterNode, p);
    AntlrChildOfTypeMeaning(t, p, MethodParameterInnerNode);
  }

  /** The parameters are those of the first `typedargslist` child of the
      first `parameters` child. */
  lemma ParameterList(t: Tree, root: nat, p: nat, q: nat)
    requires WellFormed(t) && root < |t| && p < |t| && q < |t|
    requires IsFirstWithHead(t, t[root].children, MethodParameterNode, p)
    requires IsFirstWithHead(t, t[p].children, MethodParameterInnerNode, q)
    ensures CollectParameters(t, root) == CollectParametersFrom(t, q)
  {
    AntlrChildOfTypeIsFirst(t, root, MethodParameterNode, p);
    AntlrChildOfTypeIsFirst(t, p, MethodParameterInnerNode, q);
  }

  /** A list node labelled just `typedargslist` holds several parameters:
      one per child whose chain starts with `tfpdef`, in order (lines 45-47). */
  lemma ListedParameters(t: Tree, root: nat, p: nat, q: nat)
    requires WellFormed(t) && root < |t| && p < |t| && q < |t|
    requires IsFirstWithHead(t, t[root].children, MethodParameterNode, p)
    requires IsFirstWithHead(t, t[p].children, MethodParameterInnerNode, q)
    requires t[q].typeLabel == MethodParameterInnerNode
    ensures CollectParameters(t, root) == AssembleAll(t, AntlrChildrenOfType(t, q, MethodSingleParameterNode))
  {
    ParameterList(t, root, p, q);
    InnerListIsNotParameter();
  }

  /** A list node labelled just `typedargslist` is not itself a parameter. */
  lemma InnerListIsNotParameter()
    ensures !LastLabelIn(MethodParameterInnerNode, [MethodSingleParameterNode, ParameterNameNode])
  {
    InnerLabelIsSingleSegment();
  }

  /** A list collapsed with its only parameter into one `typedargslist|...`
      node whose effective production is `tfpdef` or `NAME` is found by the
      head of its chain and read as that single parameter (lines 39-43). */
  lemma CollapsedListIsOneParameter(t: Tree, root: nat, p: nat, q: nat, rest: string)
    requires WellFormed(t) && root < |t| && p < |t| && q < |t|
    requires IsFirstWithHead(t, t[root].children, MethodParameterNode, p)
    requires IsFirstWithHead(t, t[p].children, MethodParameterInnerNode, q)
    requires t[q].typeLabel == MethodParameterInnerNode + [Delimiter] + rest
    requires LastLabelIn(rest, [MethodSingleParameterNode, ParameterNameNode])
    ensures CollectParameters(t, root).Ok? <==> AssembleParameter(t, q).Ok?
    ensures CollectParameters(t, root).Ok? ==> CollectParameters(t, root).value == [AssembleParameter(t, q).value]
  {
    ParameterList(t, root, p, q);
    LastSegmentOfChain(MethodParameterInnerNode, rest);
    assert LastLabelIn(t[q].typeLabel, [MethodSingleParameterNode, ParameterNameNode]);
  }

  // The productions the builder looks for are single segments, so a node
  // labelled exactly with one of them has it as its effective production.

  lemma MethodLabelIsSingleSegment()
    ensures LastSegment(MethodNode) == MethodNode
  {
    NoDelimiterIsSingle(MethodNode);
  }

  lemma ClassLabelIsSingleSegment()
    ensures LastSegment(ClassDeclarationNode) == ClassDeclarationNode
  {
    NoDelimiterIsSingle(ClassDeclarationNode);
  }

  lemma BodyLabelIsSingleSegment()
    ensures LastSegment(BodyNode) == BodyNode
  {
    NoDelimiterIsSingle(BodyNode);
  }

  lemma InnerLabelIsSingleSegment()
    ensures LastSegment(MethodParameterInnerNode) == MethodParameterInnerNode
  {
    NoDelimiterIsSingle(MethodParameterInnerNode);
  }

  lemma SingleParameterLabelIsSingleSegment()
    ensures LastSegment(MethodSingleParameterNode) == MethodSingleParameterNode
  {
    NoDelimiterIsSingle(MethodSingleParameterNode);
  }

  lemma NameLabelIsSingleSegment()
    ensures LastSegment(ParameterNameNode) == ParameterNameNode
  {
    NoDelimiterIsSingle(ParameterNameNode);
  }

  // ---------------------------------------------------------------------------
  // Enclosing element
  // ---------------------------------------------------------------------------

  /** `findEnclosingNode`: from `node` upward, the first node (itself
      included) whose effective production is `classdef` or `funcdef`; none
      once the walk passes the tree root. `FindEnclosingNodeIsNearest` states
      that the result is the nearest such ancestor. */
  function FindEnclosingNode(t: Tree, node: Option<nat>): (r: Option<nat>)
    requires WellFormed(t) && (node.Some? ==> node.value < |t|)
    ensures r.Some? ==> node.Some? && r.value <= node.value
    ensures r.Some? ==> LastLabelIn(t[r.value].typeLabel, PossibleEnclosingElements)
    decreases if node.None? then 0 else node.value + 1
  {
    if node.None? || LastLabelIn(t[node.value].typeLabel, PossibleEnclosingElements) then node
    else FindEnclosingNode(t, t[node.value].parent)
  }

  /** The found node is an ancestor of the start (or the start itself), and
      every such ancestor that is a `classdef`/`funcdef` lies no lower than
      it: the search stops at the nearest one, and finds nothing only when
      there is none. */
  lemma {:induction false} FindEnclosingNodeIsNearest(t: Tree, node: Option<nat>)
    requires WellFormed(t) && (node.Some? ==> node.value < |t|)
    ensures var r := FindEnclosingNode(t, node);
      r.Some? ==> IsAncestorOrSelf(t, r.value, node.value)
    ensures var r := FindEnclosingNode(t, node);
      node.Some? ==> forall a: nat ::
        (a < |t| && IsAncestorOrSelf(t, a, node.value) && LastLabelIn(t[a].typeLabel, PossibleEnclosingElements)) ==>
        r.Some? && a <= r.value
    decreases if node.None? then 0 else node.value + 1
  {
    if node.Some? {
      var n := node.value;
      if LastLabelIn(t[n].typeLabel, PossibleEnclosingElements) {
        AncestorsAreNotAfter(t, n);
      } else {
        var up := t[n].parent;
        FindEnclosingNodeIsNearest(t, up);
        forall a: nat | a < |t| && IsAncestorOrSelf(t, a, n) && LastLabelIn(t[a].typeLabel, PossibleEnclosingElements)
          ensures up.Some? && IsAncestorOrSelf(t, a, up.value)
        {
          assert a != n;
        }
      }
    }
  }

  /** The same upward search as an explicit loop over parent links. */
  method FindEnclosingNodeLoop(t: Tree, start: Option<nat>) returns (r: Option<nat>)
    requires WellFormed(t) && (start.Some? ==> start.value < |t|)
    ensures r == FindEnclosingNode(t, start)
  {
    var node: Option<nat> := start;
    while node.Some? && !LastLabelIn(t[node.value].typeLabel, PossibleEnclosingElements)
      invariant node.Some? ==> node.value < |t|
      invariant FindEnclosingNode(t, node) == FindEnclosingNode(t, start)
      decreases if node.None? then 0 else node.value + 1
    {
      node := t[node.value].parent;
    }
    r := node;
  }

  /** `isMethod`: the node's parent is labelled exactly `suite` and that
      suite's parent has the effective production `classdef`; a `suite` with
      no parent is rejected (`require`). */
  function IsMethod(t: Tree, e: nat): (r: Outcome<bool>)
    requires WellFormed(t) && e < |t|
    ensures r.Ok? || r == IllegalArgument(BodyWithoutEnclosing)
    ensures r.IllegalArgument? <==>
      t[e].parent.Some? && t[t[e].parent.value].typeLabel == BodyNode && t[t[e].parent.value].parent.None?
    ensures r == Ok(true) <==>
      && t[e].parent.Some?
      && t[t[e].parent.value].typeLabel == BodyNode
      && t[t[e].parent.value].parent.Some?
      && HasLastLabel(t[t[t[e].parent.value].parent.value].typeLabel, ClassDeclarationNode)
  {
    match t[e].parent
    case None => Ok(false)
    case Some(outerBody) =>
      if t[outerBody].typeLabel != BodyNode then Ok(false)
      else
        match t[outerBody].parent
        case None => IllegalArgument(BodyWithoutEnclosing)
        case Some(enclosing) => Ok(LastSegment(t[enclosing].typeLabel) == ClassDeclarationNode)
  }

  /** Lines 70-79 of `collectEnclosingElement`: the kind of an enclosing
      node; `EnclosingKindMeaning` states the classification. */
  function EnclosingKind(t: Tree, e: nat): (r: Outcome<EnclosingElementType>)
    requires WellFormed(t) && e < |t|
    ensures r.Ok? || r.IllegalState? || r == IllegalArgument(BodyWithoutEnclosing)
  {
    if HasLastLabel(t[e].typeLabel, ClassDeclarationNode) then Ok(Class)
    else if HasLastLabel(t[e].typeLabel, MethodNode) then
      var isMethod :- IsMethod(t, e);
      Ok(if isMethod then Method else Function)
    else IllegalState(UnexpectedEnclosingKind)
  }

  /** Class exactly for a `classdef`; for a `funcdef`, Method or Function as
      `isMethod` decides, or its `IllegalArgumentException`; never
      VariableDeclaration; and an `IllegalStateException` exactly for a node
      whose effective production is neither. */
  lemma EnclosingKindMeaning(t: Tree, e: nat)
    requires WellFormed(t) && e < |t|
    ensures var r := EnclosingKind(t, e);
      && (r == Ok(Class) <==> HasLastLabel(t[e].typeLabel, ClassDeclarationNode))
      && (r == Ok(Method) <==> HasLastLabel(t[e].typeLabel, MethodNode) && IsMethod(t, e) == Ok(true))
      && (r == Ok(Function) <==> HasLastLabel(t[e].typeLabel, MethodNode) && IsMethod(t, e) == Ok(false))
      && (r.IllegalArgument? <==> HasLastLabel(t[e].typeLabel, MethodNode) && IsMethod(t, e).IllegalArgument?)
      && (r.IllegalState? <==> !LastLabelIn(t[e].typeLabel, PossibleEnclosingElements))
      && r != Ok(VariableDeclaration) && !r.NotImplemented?
  {
  }

  /** Lines 70-89 of `collectEnclosingElement` for the found node `e`: its
      kind, the token of its first `NAME` child and `e` itself as the root;
      `EnclosingElementAtMeaning` states the classification. */
  function EnclosingElementAt(t: Tree, e: nat): (r: Outcome<EnclosingElement>)
    requires WellFormed(t) && e < |t|
    ensures r.Ok? ==> r.value.root == e
    ensures r.Ok? || r.IllegalState? || r == IllegalArgument(BodyWithoutEnclosing)
  {
    var kind :- EnclosingKind(t, e);
    match kind
    case Class => Ok(EnclosingElement(kind, TokenOf(t, AntlrChildOfType(t, e, ClassNameNode)), e))
    case Method | Function => Ok(EnclosingElement(kind, TokenOf(t, AntlrChildOfType(t, e, MethodNameNode)), e))
    case VariableDeclaration => IllegalState(UnexpectedEnclosingKind)
  }

  /** Which exception the found node raises, if any: `IllegalStateException`
      exactly for a node that is neither a `classdef` nor a `funcdef`, and
      `IllegalArgumentException` exactly when `isMethod` rejects a
      `funcdef`. Otherwise the kind is Class exactly for a `classdef`, Method
      or Function for a `funcdef` as `isMethod` decides, never
      VariableDeclaration; the name is the token of the first `NAME` child,
      absent exactly when there is none. */
  lemma EnclosingElementAtMeaning(t: Tree, e: nat)
    requires WellFormed(t) && e < |t|
    ensures var r := EnclosingElementAt(t, e);
      && (r.IllegalState? <==> !LastLabelIn(t[e].typeLabel, PossibleEnclosingElements))
      && (r.IllegalArgument? <==> HasLastLabel(t[e].typeLabel, MethodNode) && IsMethod(t, e).IllegalArgument?)
    ensures var r := EnclosingElementAt(t, e);
      r.Ok? ==>
      var el := r.value;
      && (el.kind == Class <==> HasLastLabel(t[e].typeLabel, ClassDeclarationNode))
      && (el.kind == Method <==> HasLastLabel(t[e].typeLabel, MethodNode) && IsMethod(t, e) == Ok(true))
      && (el.kind == Function <==> HasLastLabel(t[e].typeLabel, MethodNode) && IsMethod(t, e) == Ok(false))
      && el.kind != VariableDeclaration
      && (el.name.None? <==> forall c :: c in t[e].children ==> FirstSegment(t[c].typeLabel) != MethodNameNode)
      && (el.name.Some? ==> exists c: nat :: IsFirstWithHead(t, t[e].children, MethodNameNode, c) && el.name.value == t[c].token)
  {
    EnclosingKindMeaning(t, e);
    AntlrChildOfTypeMeaning(t, e, MethodNameNode);
  }

  /** `collectEnclosingElement`: the element of the nearest enclosing
      `classdef`/`funcdef` strictly above the function root. Because the
      search only stops at such a node, the `IllegalStateException` branches
      (lines 78 and 83) are never reached. */
  function CollectEnclosingElement(t: Tree, root: nat): (r: Outcome<Option<EnclosingElement>>)
    requires WellFormed(t) && root < |t|
    ensures r.Ok? || r == IllegalArgument(BodyWithoutEnclosing)
  {
    var found := FindEnclosingNode(t, t[root].parent);
    if found.None? then Ok(None)
    else
      EnclosingElementAtMeaning(t, found.value);
      var element :- EnclosingElementAt(t, found.value);
      Ok(Some(element))
  }

  /** When the upward search finds `e`, the enclosing element is the one
      built at `e`, unless `isMethod` rejects the body the found function
      sits in; no other exception escapes. */
  lemma EnclosingElementOfFound(t: Tree, root: nat, e: nat)
    requires WellFormed(t) && root < |t| && e < |t|
    requires FindEnclosingNode(t, t[root].parent) == Some(e)
    ensures CollectEnclosingElement(t, root).IllegalArgument? <==>
      HasLastLabel(t[e].typeLabel, MethodNode) && IsMethod(t, e).IllegalArgument?
    ensures CollectEnclosingElement(t, root).Ok? ==>
      CollectEnclosingElement(t, root) == Ok(Some(EnclosingElementAt(t, e).value))
  {
    EnclosingElementAtMeaning(t, e);
  }

  /** `?.getToken()` on an optional node. */
  function TokenOf(t: Tree, node: Option<nat>): Option<string>
    requires node.Some? ==> node.value < |t|
  {
    match node
    case None => None
    case Some(n) => Some(t[n].token)
  }

  /** A function with no `classdef`/`funcdef` above it, in particular a tree
      root, has no enclosing element. */
  lemma TopLevelFunctionHasNoEnclosingElement(t: Tree, root: nat)
    requires WellFormed(t) && root < |t|
    requires forall a: nat :: a < |t| && a != root && IsAncestorOrSelf(t, a, root) ==>
      !LastLabelIn(t[a].typeLabel, PossibleEnclosingElements)
    ensures CollectEnclosingElement(t, root) == Ok(None)
  {
    FindEnclosingNodeIsNearest(t, t[root].parent);
  }

  // ---------------------------------------------------------------------------
  // The descriptor
  // ---------------------------------------------------------------------------

  /** Constructing `AntlrPythonFunctionInfo(root)`: the three overridden
      properties are computed eagerly, in declaration order, so a missing
      parameter name is reported before a body without enclosing element;
      every other property keeps its default getter. */
  function Build(t: Tree, root: nat): (r: Outcome<FunctionInfo>)
    requires WellFormed(t) && root < |t|
    ensures r.Ok? <==> CollectParameters(t, root).Ok? && CollectEnclosingElement(t, root).Ok?
    ensures !r.Ok? ==> r.IllegalArgument?
    ensures !CollectParameters(t, root).Ok? ==> r == IllegalArgument(MissingParameterName)
    ensures CollectParameters(t, root).Ok? && !CollectEnclosingElement(t, root).Ok? ==>
      r == IllegalArgument(BodyWithoutEnclosing)
    ensures r.Ok? ==> RefersInto(t, r.value)
    ensures r.Ok? ==>
      && r.value.nameNode == Overridden(CollectNameNode(t, root))
      && r.value.root == Overridden(root)
      && r.value.parameters == Overridden(Some(CollectParameters(t, root).value))
      && r.value.enclosingElement == Overridden(CollectEnclosingElement(t, root).value)
    ensures r.Ok? ==>
      && r.value.body.Default? && r.value.filePath.Default?
      && r.value.annotations.Default? && r.value.modifiers.Default?
      && r.value.returnType.Default? && r.value.isConstructor.Default?
  {
    var nameNode := CollectNameNode(t, root);
    var parameters :- CollectParameters(t, root);
    var enclosingElement :- CollectEnclosingElement(t, root);
    Ok(FunctionInfo(
      nameNode := Overridden(nameNode),
      root := Overridden(root),
      body := Default,
      filePath := Default,
      annotations := Default,
      modifiers := Default,
      parameters := Overridden(Some(parameters)),
      returnType := Default,
      enclosingElement := Overridden(enclosingElement),
      isConstructor := Default))
  }

  /** What a caller reads from a Python descriptor: the name is the original
      token of the first `NAME` child, while `body`, `filePath` and therefore
      `isBlank`/`isNotBlank` signal "not implemented" rather than an answer. */
  lemma PythonDescriptorReads(t: Tree, root: nat)
    requires WellFormed(t) && root < |t|
    requires Build(t, root).Ok?
    ensures var fi := Build(t, root).value;
      && (CollectNameNode(t, root).None? ==> Name(t, fi) == Ok(None))
      && (forall c: nat :: IsFirstWithHead(t, t[root].children, MethodNameNode, c) && c < |t| ==>
            Name(t, fi) == Ok(Some(t[c].originalToken)))
      && IsBlank(t, fi) == NotImplemented("body")
      && IsNotBlank(t, fi) == NotImplemented("body")
      && FilePath(fi) == NotImplemented("filePath")
      && Parameters(fi) == Ok(Some(CollectParameters(t, root).value))
  {
    var fi := Build(t, root).value;
    var n := CollectNameNode(t, root);
    CollectNameNodeMeaning(t, root);
    if n.Some? {
      FirstWithHeadUnique(t, t[root].children, MethodNameNode, n.value);
    }
  }
}
