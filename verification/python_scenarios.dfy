/** Concrete trees for the behaviour the Python descriptor builder promises
    on small programs. The trees carry the labels of a compressed ANTLR
    tree: a chain of single-child productions is one node labelled with the
    productions joined by `|` (`stmt|compound_stmt|funcdef`, a `tfpdef|NAME`
    leaf, a `test|...|atom|NAME` leaf for a type). Punctuation leaves and
    the statements of bodies are left out, since no step of the builder
    looks at them. */
module PythonScenarios {
  import opened Outcomes
  import opened ParsingModel
  import opened AntlrUtil
  import opened FunctionInfoModel
  import opened AntlrPythonFunctionInfo

  /** A scenario tree is written as two lists in pre-order: each node's
      label and token, and the index of each node's parent (-1 for the root). */
  type Row = (string, string)

  /** The nodes from `from` on whose parent is `i`, in order. */
  function ChildrenAmong(parents: seq<int>, i: nat, from: nat): seq<nat>
    decreases |parents| - from
  {
    if from >= |parents| then []
    else if parents[from] == i then [from] + ChildrenAmong(parents, i, from + 1)
    else ChildrenAmong(parents, i, from + 1)
  }

  /** Every node `ChildrenAmong` lists comes from `from` on and has parent `i`. */
  lemma {:induction false} ChildrenAmongSound(parents: seq<int>, i: nat, from: nat)
    ensures forall k :: 0 <= k < |ChildrenAmong(parents, i, from)| ==>
      from <= ChildrenAmong(parents, i, from)[k] < |parents| && parents[ChildrenAmong(parents, i, from)[k]] == i
    decreases |parents| - from
  {
    if from < |parents| {
      ChildrenAmongSound(parents, i, from + 1);
    }
  }

  /** Every node from `from` on whose parent is `i` is listed. */
  lemma {:induction false} ChildrenAmongComplete(parents: seq<int>, i: nat, from: nat)
    ensures forall j :: from <= j < |parents| && parents[j] == i ==> j in ChildrenAmong(parents, i, from)
    decreases |parents| - from
  {
    if from < |parents| {
      ChildrenAmongComplete(parents, i, from + 1);
    }
  }

  /** The listed nodes are in increasing order. */
  lemma {:induction false} ChildrenAmongIncreasing(parents: seq<int>, i: nat, from: nat)
    ensures forall k, l :: 0 <= k < l < |ChildrenAmong(parents, i, from)| ==>
      ChildrenAmong(parents, i, from)[k] < ChildrenAmong(parents, i, from)[l]
    decreases |parents| - from
  {
    if from < |parents| {
      ChildrenAmongSound(parents, i, from + 1);
      ChildrenAmongIncreasing(parents, i, from + 1);
      var rest := ChildrenAmong(parents, i, from + 1);
      if parents[from] == i {
        var r := [from] + rest;
        assert ChildrenAmong(parents, i, from) == r;
        assert forall k :: 1 <= k < |r| ==> r[k] == rest[k - 1];
      }
    }
  }

  /** The arena tree the lists describe; a node's token is also its original token. */
  function TreeOf(rows: seq<Row>, parents: seq<int>): (t: Tree)
    requires |rows| == |parents|
    ensures |t| == |rows|
  {
    seq(|rows|, i requires 0 <= i < |rows| =>
      NodeRec(rows[i].0, rows[i].1, rows[i].1, ChildrenAmong(parents, i, i + 1),
        if parents[i] < 0 then None else Some(parents[i] as nat)))
  }

  /** Parents that come before their children describe a well-formed tree. */
  lemma TreeOfWellFormed(rows: seq<Row>, parents: seq<int>)
    requires |rows| == |parents|
    requires forall j :: 0 <= j < |parents| ==> parents[j] < j
    ensures WellFormed(TreeOf(rows, parents))
  {
    var t := TreeOf(rows, parents);
    forall i | 0 <= i < |t|
      ensures NodeWellFormed(t, i)
    {
      assert t[i].children == ChildrenAmong(parents, i, i + 1);
      ChildrenAmongSound(parents, i, i + 1);
      ChildrenAmongIncreasing(parents, i, i + 1);
      if parents[i] >= 0 {
        var p := parents[i] as nat;
        assert t[p].children == ChildrenAmong(parents, p, p + 1);
        ChildrenAmongComplete(parents, p, p + 1);
      }
    }
    WellFormedByNodes(t);
  }

  // ---------------------------------------------------------------------------
  // Labels
  // ---------------------------------------------------------------------------

  /** The label of a node into which the production `head` and then those
      of `rest` were collapsed. */
  function Chain(head: string, rest: string): string {
    head + [Delimiter] + rest
  }

  /** How a `def` or a `class` appears in a file or a body: a statement that
      is a compound statement. */
  const CompoundStatement := Chain("stmt", "compound_stmt")
  const FunctionStatement := Chain(CompoundStatement, MethodNode)
  const ClassStatement := Chain(CompoundStatement, ClassDeclarationNode)
  /** A parameter that is just a name. */
  const NamedParameter := Chain(MethodSingleParameterNode, ParameterNameNode)
  /** A parameter list holding one parameter that is just a name. */
  const CollapsedList := Chain(MethodParameterInnerNode, NamedParameter)
  /** A type annotation that is just a name: the expression chain of `test`
      down to the `NAME` leaf. */
  const NameType := Chain(ParameterTypeNode,
    "or_test|and_test|not_test|comparison|expr|xor_expr|and_expr|shift_expr|arith_expr|term|factor|power|atom_expr|atom|NAME")

  lemma FunctionStatementLabel()
    ensures LastSegment(FunctionStatement) == MethodNode
  {
    LastSegmentOfChain(CompoundStatement, MethodNode);
    MethodLabelIsSingleSegment();
  }

  lemma ClassStatementLabel()
    ensures LastSegment(ClassStatement) == ClassDeclarationNode
  {
    LastSegmentOfChain(CompoundStatement, ClassDeclarationNode);
    ClassLabelIsSingleSegment();
  }

  lemma NamedParameterLabel()
    ensures FirstSegment(NamedParameter) == MethodSingleParameterNode
    ensures LastSegment(NamedParameter) == ParameterNameNode
  {
    FirstSegmentOfChain(MethodSingleParameterNode, ParameterNameNode);
    LastSegmentOfChain(MethodSingleParameterNode, ParameterNameNode);
    NameLabelIsSingleSegment();
  }

  lemma CollapsedListLabel()
    ensures FirstSegment(CollapsedList) == MethodParameterInnerNode
    ensures LastSegment(CollapsedList) == ParameterNameNode
  {
    FirstSegmentOfChain(MethodParameterInnerNode, NamedParameter);
    LastSegmentOfChain(MethodParameterInnerNode, NamedParameter);
    NamedParameterLabel();
  }

  lemma NameTypeLabel()
    ensures FirstSegment(NameType) == ParameterTypeNode
  {
    FirstSegmentOfChain(ParameterTypeNode,
      "or_test|and_test|not_test|comparison|expr|xor_expr|and_expr|shift_expr|arith_expr|term|factor|power|atom_expr|atom|NAME");
  }

  lemma NameLabel()
    ensures FirstSegment(ParameterNameNode) == ParameterNameNode
  {
    FirstSegmentOfSingle(ParameterNameNode);
  }

  lemma ParametersLabel()
    ensures FirstSegment(MethodParameterNode) == MethodParameterNode
  {
    FirstSegmentOfSingle(MethodParameterNode);
  }

  lemma InnerListLabel()
    ensures FirstSegment(MethodParameterInnerNode) == MethodParameterInnerNode
  {
    FirstSegmentOfSingle(MethodParameterInnerNode);
  }

  lemma TfpdefLabel()
    ensures FirstSegment(MethodSingleParameterNode) == MethodSingleParameterNode
  {
    FirstSegmentOfSingle(MethodSingleParameterNode);
  }

  lemma FileLabel()
    ensures !LastLabelIn("file_input", PossibleEnclosingElements)
  {
    NoDelimiterIsSingle("file_input");
  }

  // ---------------------------------------------------------------------------
  // Lookup facts used by the scenarios
  // ---------------------------------------------------------------------------

  /** The child at position `k` of node `i` is its first child whose chain
      starts with `typeLabel`. */
  lemma ChildOfTypeAt(t: Tree, i: nat, k: nat, typeLabel: string)
    requires WellFormed(t) && i < |t| && k < |t[i].children|
    requires FirstSegment(t[t[i].children[k]].typeLabel) == typeLabel
    requires forall j :: 0 <= j < k ==> FirstSegment(t[t[i].children[j]].typeLabel) != typeLabel
    ensures IsFirstWithHead(t, t[i].children, typeLabel, t[i].children[k])
    ensures AntlrChildOfType(t, i, typeLabel) == Some(t[i].children[k])
  {
    AntlrChildOfTypeIsFirst(t, i, typeLabel, t[i].children[k]);
  }

  /** A node without children has no child of any type. */
  lemma NoChildren(t: Tree, i: nat, typeLabel: string)
    requires WellFormed(t) && i < |t| && t[i].children == []
    ensures AntlrChildOfType(t, i, typeLabel) == None
  {
    AntlrChildOfTypeMeaning(t, i, typeLabel);
  }

  /** A parameter leaf whose effective production is `NAME` is an untyped
      parameter named by its own token. */
  lemma NamedByOwnToken(t: Tree, n: nat)
    requires WellFormed(t) && n < |t| && t[n].children == []
    requires HasLastLabel(t[n].typeLabel, ParameterNameNode)
    ensures AssembleParameter(t, n) == Ok(Parameter(t[n].token, None))
  {
    NoChildren(t, n, ParameterTypeNode);
  }

  /** A parameter node that is not itself a `NAME` takes its name from its
      first `NAME` child and its type from its first `test` child, if any. */
  lemma NamedByChild(t: Tree, n: nat, c: nat, ty: Option<nat>)
    requires WellFormed(t) && n < |t|
    requires !HasLastLabel(t[n].typeLabel, ParameterNameNode)
    requires AntlrChildOfType(t, n, ParameterNameNode) == Some(c)
    requires AntlrChildOfType(t, n, ParameterTypeNode) == ty
    ensures AssembleParameter(t, n) ==
      Ok(Parameter(t[c].token, if ty.None? then None else Some(TokensFromSubtree(t, ty.value))))
  {
  }

  /** Two parameter nodes that both assemble. */
  lemma AssembleTwo(t: Tree, a: nat, b: nat, p: Parameter, q: Parameter)
    requires WellFormed(t) && a < |t| && b < |t|
    requires AssembleParameter(t, a) == Ok(p) && AssembleParameter(t, b) == Ok(q)
    ensures AssembleAll(t, [a, b]) == Ok([p, q])
  {
    var r := AssembleAll(t, [a, b]);
    assert [a, b][0] == a && [a, b][1] == b;
    assert r.Ok? && |r.value| == 2 && r.value[0] == p && r.value[1] == q;
    assert r.value == [p, q];
  }

  /** A function whose `parameters` child holds no `typedargslist` has no
      parameters. */
  lemma EmptyParameterList(t: Tree, root: nat, k: nat)
    requires WellFormed(t) && root < |t| && k < |t[root].children|
    requires t[t[root].children[k]].typeLabel == MethodParameterNode
    requires forall j :: 0 <= j < k ==> FirstSegment(t[t[root].children[j]].typeLabel) != MethodParameterNode
    requires t[t[root].children[k]].children == []
    ensures CollectParameters(t, root) == Ok([])
  {
    ParametersLabel();
    var p := t[root].children[k];
    ChildOfTypeAt(t, root, k, MethodParameterNode);
    NoChildren(t, p, MethodParameterInnerNode);
    NoParameterList(t, root, p);
  }

  /** When the search finds `e`, the enclosing element is the one built at `e`. */
  lemma EnclosingFound(t: Tree, root: nat, e: nat)
    requires WellFormed(t) && root < |t| && e < |t|
    requires FindEnclosingNode(t, t[root].parent) == Some(e)
    requires EnclosingElementAt(t, e).Ok?
    ensures CollectEnclosingElement(t, root) == Ok(Some(EnclosingElementAt(t, e).value))
  {
  }

  /** A `classdef` node is of kind Class. */
  lemma ClassKind(t: Tree, e: nat)
    requires WellFormed(t) && e < |t|
    requires HasLastLabel(t[e].typeLabel, ClassDeclarationNode)
    ensures EnclosingKind(t, e) == Ok(Class)
  {
  }

  /** A `funcdef` node is a Method or a Function as `isMethod` decides. */
  lemma FunctionKind(t: Tree, e: nat, isMethod: bool)
    requires WellFormed(t) && e < |t|
    requires HasLastLabel(t[e].typeLabel, MethodNode) && IsMethod(t, e) == Ok(isMethod)
    ensures EnclosingKind(t, e) == Ok(if isMethod then Method else Function)
  {
  }

  /** The element built at a node of a known kind is named by its first `NAME` child. */
  lemma ElementOfKind(t: Tree, e: nat, kind: EnclosingElementType, n: nat)
    requires WellFormed(t) && e < |t|
    requires EnclosingKind(t, e) == Ok(kind) && kind != VariableDeclaration
    requires AntlrChildOfType(t, e, MethodNameNode) == Some(n)
    ensures EnclosingElementAt(t, e) == Ok(EnclosingElement(kind, Some(t[n].token), e))
  {
  }

  /** The enclosing node is a class. */
  lemma EnclosedByClass(t: Tree, root: nat, e: nat, n: nat)
    requires WellFormed(t) && root < |t| && e < |t|
    requires FindEnclosingNode(t, t[root].parent) == Some(e)
    requires HasLastLabel(t[e].typeLabel, ClassDeclarationNode)
    requires AntlrChildOfType(t, e, ClassNameNode) == Some(n)
    ensures CollectEnclosingElement(t, root) == Ok(Some(EnclosingElement(Class, Some(t[n].token), e)))
  {
    ClassKind(t, e);
    ElementOfKind(t, e, Class, n);
    EnclosingFound(t, root, e);
  }

  /** The enclosing node is a function that `isMethod` accepts. */
  lemma EnclosedByMethod(t: Tree, root: nat, e: nat, n: nat)
    requires WellFormed(t) && root < |t| && e < |t|
    requires FindEnclosingNode(t, t[root].parent) == Some(e)
    requires HasLastLabel(t[e].typeLabel, MethodNode)
    requires IsMethod(t, e) == Ok(true)
    requires AntlrChildOfType(t, e, MethodNameNode) == Some(n)
    ensures CollectEnclosingElement(t, root) == Ok(Some(EnclosingElement(Method, Some(t[n].token), e)))
  {
    FunctionKind(t, e, true);
    ElementOfKind(t, e, Method, n);
    EnclosingFound(t, root, e);
  }

  /** The enclosing node is a function that `isMethod` rejects. */
  lemma EnclosedByFunction(t: Tree, root: nat, e: nat, n: nat)
    requires WellFormed(t) && root < |t| && e < |t|
    requires FindEnclosingNode(t, t[root].parent) == Some(e)
    requires HasLastLabel(t[e].typeLabel, MethodNode)
    requires IsMethod(t, e) == Ok(false)
    requires AntlrChildOfType(t, e, MethodNameNode) == Some(n)
    ensures CollectEnclosingElement(t, root) == Ok(Some(EnclosingElement(Function, Some(t[n].token), e)))
  {
    FunctionKind(t, e, false);
    ElementOfKind(t, e, Function, n);
    EnclosingFound(t, root, e);
  }

  /** The enclosing node is a function whose body `isMethod` rejects. */
  lemma EnclosedByRejected(t: Tree, root: nat, e: nat)
    requires WellFormed(t) && root < |t| && e < |t|
    requires FindEnclosingNode(t, t[root].parent) == Some(e)
    requires HasLastLabel(t[e].typeLabel, MethodNode)
    requires IsMethod(t, e) == IllegalArgument(BodyWithoutEnclosing)
    ensures CollectEnclosingElement(t, root) == IllegalArgument(BodyWithoutEnclosing)
  {
    assert EnclosingKind(t, e) == IllegalArgument(BodyWithoutEnclosing);
    assert EnclosingElementAt(t, e) == IllegalArgument(BodyWithoutEnclosing);
  }

  /** Construction aborts with the exception of the enclosing-element step. */
  lemma BuildAborts(t: Tree, root: nat, message: string)
    requires WellFormed(t) && root < |t|
    requires CollectParameters(t, root).Ok?
    requires CollectEnclosingElement(t, root) == IllegalArgument(message)
    ensures Build(t, root) == IllegalArgument(message)
  {
  }

  /** The descriptor of a function whose parameters and enclosing element
      are known. */
  lemma Built(t: Tree, root: nat, ps: seq<Parameter>, enclosing: Option<EnclosingElement>)
    requires WellFormed(t) && root < |t|
    requires CollectParameters(t, root) == Ok(ps)
    requires CollectEnclosingElement(t, root) == Ok(enclosing)
    ensures Build(t, root) == Ok(FunctionInfo(
      Overridden(CollectNameNode(t, root)), Overridden(root), Default, Default, Default, Default,
      Overridden(Some(ps)), Default, Overridden(enclosing), Default))
  {
  }

  /** The search from a function root in a `suite` stops at the node that
      owns that suite, when that node is a `classdef` or `funcdef`. */
  lemma SearchPassesBody(t: Tree, root: nat, b: nat, e: nat)
    requires WellFormed(t) && root < |t| && b < |t| && e < |t|
    requires t[root].parent == Some(b) && t[b].typeLabel == BodyNode && t[b].parent == Some(e)
    requires LastLabelIn(t[e].typeLabel, PossibleEnclosingElements)
    ensures FindEnclosingNode(t, t[root].parent) == Some(e)
  {
    BodyIsNotEnclosing();
    assert !LastLabelIn(t[b].typeLabel, PossibleEnclosingElements);
    assert FindEnclosingNode(t, Some(b)) == FindEnclosingNode(t, Some(e));
  }

  /** A `suite` is not a node the search stops at. */
  lemma BodyIsNotEnclosing()
    ensures !LastLabelIn(BodyNode, PossibleEnclosingElements)
  {
    BodyLabelIsSingleSegment();
  }

  /** A function whose parent is the `file_input` root has no enclosing element. */
  lemma InFile(t: Tree, root: nat)
    requires WellFormed(t) && root < |t|
    requires t[root].parent == Some(0) && t[0].typeLabel == "file_input"
    ensures CollectEnclosingElement(t, root) == Ok(None)
  {
    FileLabel();
    forall a: nat | a < |t| && a != root && IsAncestorOrSelf(t, a, root)
      ensures a == 0
    {
      AncestorIsNotAfter(t, a, 0);
    }
    TopLevelFunctionHasNoEnclosingElement(t, root);
  }

  // ---------------------------------------------------------------------------
  // A top-level function
  // ---------------------------------------------------------------------------

  /** A file holding `def f():` and its body. */
  const TopLevelRows: seq<Row> := [
    ("file_input", ""),
    (FunctionStatement, ""),
    ("NAME", "f"),
    ("parameters", ""),
    ("suite", "")
  ]
  const TopLevelParents: seq<int> := [-1, 0, 1, 1, 1]

  const TopLevelTree: Tree := TreeOf(TopLevelRows, TopLevelParents)

  lemma TopLevelShape()
    ensures WellFormed(TopLevelTree)
    ensures TopLevelTree[1].children == [2, 3, 4]
    ensures TopLevelTree[3].children == []
  {
    TreeOfWellFormed(TopLevelRows, TopLevelParents);
    assert TopLevelTree[1].children == ChildrenAmong(TopLevelParents, 1, 2);
    assert TopLevelTree[3].children == ChildrenAmong(TopLevelParents, 3, 4);
  }

  lemma TopLevelParameters()
    ensures WellFormed(TopLevelTree)
    ensures CollectNameNode(TopLevelTree, 1) == Some(2)
    ensures CollectParameters(TopLevelTree, 1) == Ok([])
  {
    TopLevelShape();
    NameLabel();
    ChildOfTypeAt(TopLevelTree, 1, 0, MethodNameNode);
    EmptyParameterList(TopLevelTree, 1, 1);
  }

  /** A top-level function is named by its `NAME` child, has no parameters
      and no enclosing element; its `isBlank` is not answered because the
      Python backend does not compute `body`. */
  lemma TopLevelFunctionScenario()
    ensures WellFormed(TopLevelTree)
    ensures Build(TopLevelTree, 1) == Ok(FunctionInfo(
      Overridden(Some(2)), Overridden(1), Default, Default, Default, Default,
      Overridden(Some([])), Default, Overridden(None), Default))
    ensures Name(TopLevelTree, Build(TopLevelTree, 1).value) == Ok(Some("f"))
    ensures IsBlank(TopLevelTree, Build(TopLevelTree, 1).value) == NotImplemented("body")
  {
    TopLevelParameters();
    InFile(TopLevelTree, 1);
    Built(TopLevelTree, 1, [], None);
  }

  // ---------------------------------------------------------------------------
  // Class, Method and Function
  // ---------------------------------------------------------------------------

  /** `class C:` / `  def m():` / `    def inner():` / `      def innermost():`
      in a file. */
  const ClassRows: seq<Row> := [
    ("file_input", ""),
    (ClassStatement, ""),
    ("NAME", "C"),
    ("suite", ""),
    (FunctionStatement, ""),
    ("NAME", "m"),
    ("parameters", ""),
    ("suite", ""),
    (FunctionStatement, ""),
    ("NAME", "inner"),
    ("parameters", ""),
    ("suite", ""),
    (FunctionStatement, ""),
    ("NAME", "innermost"),
    ("parameters", ""),
    ("suite", "")
  ]
  const ClassParents: seq<int> := [-1, 0, 1, 1, 3, 4, 4, 4, 7, 8, 8, 8, 11, 12, 12, 12]

  const ClassTree: Tree := TreeOf(ClassRows, ClassParents)

  lemma ClassWellFormed()
    ensures WellFormed(ClassTree)
  {
    TreeOfWellFormed(ClassRows, ClassParents);
  }

  lemma ClassChildren()
    ensures ClassTree[1].children == [2, 3]
    ensures ClassTree[4].children == [5, 6, 7]
  {
    assert ClassTree[1].children == ChildrenAmong(ClassParents, 1, 2);
    assert ClassTree[4].children == ChildrenAmong(ClassParents, 4, 5);
  }

  lemma FunctionChildren()
    ensures ClassTree[8].children == [9, 10, 11]
    ensures ClassTree[12].children == [13, 14, 15]
  {
    assert ClassTree[8].children == ChildrenAmong(ClassParents, 8, 9);
    assert ClassTree[12].children == ChildrenAmong(ClassParents, 12, 13);
  }

  /** The `parameters` children hold no parameter list. */
  lemma EmptyParameterNodes()
    ensures ClassTree[6].children == [] && ClassTree[10].children == [] && ClassTree[14].children == []
  {
    assert ClassTree[6].children == ChildrenAmong(ClassParents, 6, 7);
    assert ClassTree[10].children == ChildrenAmong(ClassParents, 10, 11);
    assert ClassTree[14].children == ChildrenAmong(ClassParents, 14, 15);
  }

  /** The `parameters` child of `m` holds no parameter list. */
  lemma MethodParameters()
    ensures WellFormed(ClassTree)
    ensures CollectParameters(ClassTree, 4) == Ok([])
  {
    ClassWellFormed();
    ClassChildren();
    NameLabel();
    EmptyParameterNodes();
    EmptyParameterList(ClassTree, 4, 1);
  }

  /** The `parameters` child of `inner` holds no parameter list. */
  lemma InnerParameters()
    ensures WellFormed(ClassTree)
    ensures CollectParameters(ClassTree, 8) == Ok([])
  {
    ClassWellFormed();
    FunctionChildren();
    NameLabel();
    EmptyParameterNodes();
    EmptyParameterList(ClassTree, 8, 1);
  }

  /** The `parameters` child of `innermost` holds no parameter list. */
  lemma InnermostParameters()
    ensures WellFormed(ClassTree)
    ensures CollectParameters(ClassTree, 12) == Ok([])
  {
    ClassWellFormed();
    FunctionChildren();
    NameLabel();
    EmptyParameterNodes();
    EmptyParameterList(ClassTree, 12, 1);
  }

  /** None of the three functions declares a parameter. */
  lemma ClassParameters(root: nat)
    requires root == 4 || root == 8 || root == 12
    ensures WellFormed(ClassTree)
    ensures CollectParameters(ClassTree, root) == Ok([])
  {
    if root == 4 {
      MethodParameters();
    } else if root == 8 {
      InnerParameters();
    } else {
      InnermostParameters();
    }
  }

  /** `m` sits in the body of class `C`. */
  lemma MethodEnclosing()
    ensures WellFormed(ClassTree)
    ensures CollectEnclosingElement(ClassTree, 4) == Ok(Some(EnclosingElement(Class, Some("C"), 1)))
  {
    var t := ClassTree;
    ClassWellFormed();
    ClassChildren();
    ClassStatementLabel();
    NameLabel();
    SearchPassesBody(t, 4, 3, 1);
    ChildOfTypeAt(t, 1, 0, ClassNameNode);
    EnclosedByClass(t, 4, 1, 2);
  }

  /** `m` is a method: its parent is the `suite` of a `classdef`. */
  lemma MethodInClassBody()
    ensures WellFormed(ClassTree)
    ensures IsMethod(ClassTree, 4) == Ok(true)
  {
    var t := ClassTree;
    ClassWellFormed();
    ClassStatementLabel();
    assert t[4].parent == Some(3) && t[3].parent == Some(1) && t[3].typeLabel == BodyNode;
  }

  /** `inner` sits in the body of `m`, which sits in a class body. */
  lemma InnerEnclosing()
    ensures WellFormed(ClassTree)
    ensures CollectEnclosingElement(ClassTree, 8) == Ok(Some(EnclosingElement(Method, Some("m"), 4)))
  {
    var t := ClassTree;
    ClassWellFormed();
    ClassChildren();
    FunctionStatementLabel();
    NameLabel();
    SearchPassesBody(t, 8, 7, 4);
    MethodInClassBody();
    ChildOfTypeAt(t, 4, 0, MethodNameNode);
    EnclosedByMethod(t, 8, 4, 5);
  }

  /** `inner` is not a method: its parent is the `suite` of a `funcdef`. */
  lemma FunctionInMethodBody()
    ensures WellFormed(ClassTree)
    ensures IsMethod(ClassTree, 8) == Ok(false)
  {
    var t := ClassTree;
    ClassWellFormed();
    FunctionStatementLabel();
    assert t[8].parent == Some(7) && t[7].parent == Some(4) && t[7].typeLabel == BodyNode;
  }

  /** `innermost` sits in the body of `inner`, whose own body is not a class body. */
  lemma InnermostEnclosing()
    ensures WellFormed(ClassTree)
    ensures CollectEnclosingElement(ClassTree, 12) == Ok(Some(EnclosingElement(Function, Some("inner"), 8)))
  {
    var t := ClassTree;
    ClassWellFormed();
    FunctionChildren();
    FunctionStatementLabel();
    NameLabel();
    SearchPassesBody(t, 12, 11, 8);
    FunctionInMethodBody();
    ChildOfTypeAt(t, 8, 0, MethodNameNode);
    EnclosedByFunction(t, 12, 8, 9);
  }

  /** A function directly in a class body: the enclosing element is the class. */
  lemma FunctionInClassScenario()
    ensures WellFormed(ClassTree)
    ensures Build(ClassTree, 4).Ok?
    ensures Enclosing(Build(ClassTree, 4).value) == Ok(Some(EnclosingElement(Class, Some("C"), 1)))
  {
    ClassParameters(4);
    MethodEnclosing();
    Built(ClassTree, 4, [], Some(EnclosingElement(Class, Some("C"), 1)));
  }

  /** A function in the body of a function that sits in a class body: the
      enclosing element is that function, classified as a Method. */
  lemma FunctionInMethodScenario()
    ensures WellFormed(ClassTree)
    ensures Build(ClassTree, 8).Ok?
    ensures Enclosing(Build(ClassTree, 8).value) == Ok(Some(EnclosingElement(Method, Some("m"), 4)))
  {
    ClassParameters(8);
    InnerEnclosing();
    Built(ClassTree, 8, [], Some(EnclosingElement(Method, Some("m"), 4)));
  }

  /** One level further down the enclosing function's body is not a class
      body, so the enclosing element is a Function. */
  lemma FunctionInFunctionScenario()
    ensures WellFormed(ClassTree)
    ensures Build(ClassTree, 12).Ok?
    ensures Enclosing(Build(ClassTree, 12).value) == Ok(Some(EnclosingElement(Function, Some("inner"), 8)))
  {
    ClassParameters(12);
    InnermostEnclosing();
    Built(ClassTree, 12, [], Some(EnclosingElement(Function, Some("inner"), 8)));
  }

  // ---------------------------------------------------------------------------
  // A parameter list
  // ---------------------------------------------------------------------------

  /** A file holding `def g(x, y: int):`: `x` is a `tfpdef|NAME` leaf, `y`
      a `tfpdef` over its `NAME` and the expression chain of its type. */
  const ParameterRows: seq<Row> := [
    ("file_input", ""),
    (FunctionStatement, ""),
    ("NAME", "g"),
    ("parameters", ""),
    ("typedargslist", ""),
    (NamedParameter, "x"),
    ("tfpdef", ""),
    ("NAME", "y"),
    (NameType, "int"),
    ("suite", "")
  ]
  const ParameterParents: seq<int> := [-1, 0, 1, 1, 3, 4, 4, 6, 6, 1]

  const ParameterTree: Tree := TreeOf(ParameterRows, ParameterParents)

  lemma ParameterWellFormed()
    ensures WellFormed(ParameterTree)
  {
    TreeOfWellFormed(ParameterRows, ParameterParents);
  }

  lemma ParameterOuterChildren()
    ensures ParameterTree[1].children == [2, 3, 9]
    ensures ParameterTree[3].children == [4]
    ensures ParameterTree[4].children == [5, 6]
  {
    assert ParameterTree[1].children == ChildrenAmong(ParameterParents, 1, 2);
    assert ParameterTree[3].children == ChildrenAmong(ParameterParents, 3, 4);
    assert ParameterTree[4].children == ChildrenAmong(ParameterParents, 4, 5);
  }

  lemma ParameterInnerChildren()
    ensures ParameterTree[5].children == []
    ensures ParameterTree[6].children == [7, 8]
    ensures ParameterTree[8].children == []
  {
    assert ParameterTree[5].children == ChildrenAmong(ParameterParents, 5, 6);
    assert ParameterTree[6].children == ChildrenAmong(ParameterParents, 6, 7);
    assert ParameterTree[8].children == ChildrenAmong(ParameterParents, 8, 9);
  }

  /** The function's parameters come from the `tfpdef` children of its
      parameter list, which are nodes 5 and 6; the whole-label lookup of
      `Node` would miss the collapsed `tfpdef|NAME` leaf. */
  lemma ParameterListNodes()
    ensures WellFormed(ParameterTree)
    ensures CollectParameters(ParameterTree, 1) == AssembleAll(ParameterTree, [5, 6])
    ensures GetChildrenOfType(ParameterTree, 4, MethodSingleParameterNode) == [6]
  {
    var t := ParameterTree;
    ParameterListFound();
    ListedParameters(t, 1, 3, 4);
    ParameterNodes();
  }

  lemma ParameterListFound()
    ensures WellFormed(ParameterTree)
    ensures IsFirstWithHead(ParameterTree, ParameterTree[1].children, MethodParameterNode, 3)
    ensures IsFirstWithHead(ParameterTree, ParameterTree[3].children, MethodParameterInnerNode, 4)
    ensures ParameterTree[4].typeLabel == MethodParameterInnerNode
  {
    var t := ParameterTree;
    ParameterWellFormed();
    ParameterOuterChildren();
    NameLabel();
    ParametersLabel();
    ChildOfTypeAt(t, 1, 1, MethodParameterNode);
    InnerListLabel();
    ChildOfTypeAt(t, 3, 0, MethodParameterInnerNode);
  }

  lemma ParameterNodes()
    ensures WellFormed(ParameterTree)
    ensures AntlrChildrenOfType(ParameterTree, 4, MethodSingleParameterNode) == [5, 6]
    ensures GetChildrenOfType(ParameterTree, 4, MethodSingleParameterNode) == [6]
  {
    var t := ParameterTree;
    ParameterWellFormed();
    ParameterOuterChildren();
    NamedParameterLabel();
    TfpdefLabel();
    assert [5, 6][1..] == [6] && [6][1..] == [];
    assert FilterByHead(t, [6], MethodSingleParameterNode) == [6];
    assert t[5].typeLabel == NamedParameter;
    assert t[5].typeLabel != MethodSingleParameterNode by {
      assert |NamedParameter| > |MethodSingleParameterNode|;
    }
    assert FilterByLabel(t, [6], MethodSingleParameterNode) == [6];
  }

  /** `x` is a `tfpdef|NAME` leaf: named by its own token, untyped. */
  lemma UntypedParameter()
    ensures WellFormed(ParameterTree)
    ensures AssembleParameter(ParameterTree, 5) == Ok(Parameter("x", None))
  {
    ParameterWellFormed();
    ParameterInnerChildren();
    NamedParameterLabel();
    assert ParameterTree[5].typeLabel == NamedParameter;
    NamedByOwnToken(ParameterTree, 5);
  }

  /** `y` is named by its `NAME` child and typed by the text under its
      `test` chain. */
  lemma TypedParameter()
    ensures WellFormed(ParameterTree)
    ensures AssembleParameter(ParameterTree, 6) == Ok(Parameter("y", Some("int")))
  {
    var t := ParameterTree;
    ParameterWellFormed();
    ParameterInnerChildren();
    NameLabel();
    NameTypeLabel();
    ChildOfTypeAt(t, 6, 0, ParameterNameNode);
    assert t[8].typeLabel == NameType;
    ChildOfTypeAt(t, 6, 1, ParameterTypeNode);
    assert TokensFromSubtree(t, 8) == "int";
    SingleParameterLabelIsSingleSegment();
    assert t[6].typeLabel == MethodSingleParameterNode;
    NamedByChild(t, 6, 7, Some(8));
  }

  /** Each `tfpdef` child of the list is one parameter, in order: an untyped
      one collapsed to a `tfpdef|NAME` leaf, and one whose type is the
      flattened text of its `test` child. */
  lemma ParameterListScenario()
    ensures WellFormed(ParameterTree)
    ensures Build(ParameterTree, 1).Ok?
    ensures Parameters(Build(ParameterTree, 1).value) ==
      Ok(Some([Parameter("x", None), Parameter("y", Some("int"))]))
  {
    var t := ParameterTree;
    ParameterListNodes();
    UntypedParameter();
    TypedParameter();
    AssembleTwo(t, 5, 6, Parameter("x", None), Parameter("y", Some("int")));
    InFile(t, 1);
    Built(t, 1, [Parameter("x", None), Parameter("y", Some("int"))], None);
  }

  // ---------------------------------------------------------------------------
  // A collapsed parameter list
  // ---------------------------------------------------------------------------

  /** A file holding `def h(x):`, whose one-parameter list is collapsed
      into a single `typedargslist|tfpdef|NAME` leaf. */
  const CollapsedRows: seq<Row> := [
    ("file_input", ""),
    (FunctionStatement, ""),
    ("NAME", "h"),
    ("parameters", ""),
    (CollapsedList, "x"),
    ("suite", "")
  ]
  const CollapsedParents: seq<int> := [-1, 0, 1, 1, 3, 1]

  const CollapsedTree: Tree := TreeOf(CollapsedRows, CollapsedParents)

  lemma CollapsedShape()
    ensures WellFormed(CollapsedTree)
    ensures CollapsedTree[1].children == [2, 3, 5]
    ensures CollapsedTree[3].children == [4]
    ensures CollapsedTree[4].children == []
  {
    TreeOfWellFormed(CollapsedRows, CollapsedParents);
    assert CollapsedTree[1].children == ChildrenAmong(CollapsedParents, 1, 2);
    assert CollapsedTree[3].children == ChildrenAmong(CollapsedParents, 3, 4);
    assert CollapsedTree[4].children == ChildrenAmong(CollapsedParents, 4, 5);
  }

  /** The list collapsed with its only parameter is that parameter: the
      single-parameter branch names it by the leaf's own token. */
  lemma CollapsedParameterScenario()
    ensures WellFormed(CollapsedTree)
    ensures Build(CollapsedTree, 1).Ok?
    ensures Parameters(Build(CollapsedTree, 1).value) == Ok(Some([Parameter("x", None)]))
  {
    var t := CollapsedTree;
    CollapsedShape();
    NameLabel();
    ParametersLabel();
    CollapsedListLabel();
    NamedParameterLabel();
    ChildOfTypeAt(t, 1, 1, MethodParameterNode);
    ChildOfTypeAt(t, 3, 0, MethodParameterInnerNode);
    CollapsedListIsOneParameter(t, 1, 3, 4, NamedParameter);
    NamedByOwnToken(t, 4);
    InFile(t, 1);
    Built(t, 1, [Parameter("x", None)], None);
  }

  // ---------------------------------------------------------------------------
  // A body without an enclosing node
  // ---------------------------------------------------------------------------

  /** A `suite` at the tree root holding `def outer():` whose body holds
      `def inner():`. */
  const RootSuiteRows: seq<Row> := [
    ("suite", ""),
    (FunctionStatement, ""),
    ("NAME", "outer"),
    ("parameters", ""),
    ("suite", ""),
    (FunctionStatement, ""),
    ("NAME", "inner"),
    ("parameters", ""),
    ("suite", "")
  ]
  const RootSuiteParents: seq<int> := [-1, 0, 1, 1, 1, 4, 5, 5, 5]

  const RootSuiteTree: Tree := TreeOf(RootSuiteRows, RootSuiteParents)

  lemma RootSuiteShape()
    ensures WellFormed(RootSuiteTree)
    ensures RootSuiteTree[5].children == [6, 7, 8]
    ensures RootSuiteTree[7].children == []
  {
    TreeOfWellFormed(RootSuiteRows, RootSuiteParents);
    assert RootSuiteTree[5].children == ChildrenAmong(RootSuiteParents, 5, 6);
    assert RootSuiteTree[7].children == ChildrenAmong(RootSuiteParents, 7, 8);
  }

  lemma RootSuiteSteps()
    ensures WellFormed(RootSuiteTree)
    ensures CollectParameters(RootSuiteTree, 5) == Ok([])
    ensures FindEnclosingNode(RootSuiteTree, RootSuiteTree[5].parent) == Some(1)
    ensures IsMethod(RootSuiteTree, 1) == IllegalArgument(BodyWithoutEnclosing)
  {
    var t := RootSuiteTree;
    RootSuiteShape();
    NameLabel();
    EmptyParameterList(t, 5, 1);
    FunctionStatementLabel();
    SearchPassesBody(t, 5, 4, 1);
    assert t[1].parent == Some(0) && t[0].parent == None;
  }

  /** The enclosing function sits in a `suite` that has no parent: `isMethod`
      rejects it and construction of the inner function's descriptor aborts
      with that `IllegalArgumentException`, which is not among the
      exceptions `extractWithLogger` catches. */
  lemma BodyWithoutEnclosingScenario()
    ensures WellFormed(RootSuiteTree)
    ensures Build(RootSuiteTree, 5) == IllegalArgument(BodyWithoutEnclosing)
    ensures ExtractWithLogger(Build(RootSuiteTree, 5)) == IllegalArgument(BodyWithoutEnclosing)
  {
    RootSuiteSteps();
    FunctionStatementLabel();
    EnclosedByRejected(RootSuiteTree, 5, 1);
    BuildAborts(RootSuiteTree, 5, BodyWithoutEnclosing);
  }
}
