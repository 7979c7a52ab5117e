/** The language-agnostic function descriptor (`FunctionInfo`) and its
    capability protocol.

    Every property of the Kotlin interface has a default getter that throws
    `FunctionInfoPropertyNotImplementedException`; a backend overrides the ones
    it can compute. Here a descriptor records, per property, whether the backend
    overrides it (and with which value) or keeps the default. Reading a property
    yields an `Outcome`, so "the backend never computes this" (`NotImplemented`)
    stays distinct from "absent in this code" (`Ok(None)`).
 */
module FunctionInfoModel {
  import opened Outcomes
  import opened ParsingModel

  /** A property getter: the interface default, or a backend override. */
  datatype Getter<+T> = Default | Overridden(value: T)

  /** `FunctionInfoParameter` (the Python backend calls it `MethodInfoParameter`):
      a name that is always present and an optional declared type. */
  datatype Parameter = Parameter(name: string, declaredType: Option<string>)

  datatype EnclosingElementType = Class | Function | Method | VariableDeclaration

  /** The construct that immediately contains a function; `root` is a node of
      the same tree. */
  datatype EnclosingElement = EnclosingElement(kind: EnclosingElementType, name: Option<string>, root: nat)

  /** Node-valued properties are indices into the tree the descriptor was built from. */
  datatype FunctionInfo = FunctionInfo(
    nameNode: Getter<Option<nat>>,
    root: Getter<nat>,
    body: Getter<Option<nat>>,
    filePath: Getter<string>,
    annotations: Getter<Option<seq<string>>>,
    modifiers: Getter<Option<seq<string>>>,
    parameters: Getter<Option<seq<Parameter>>>,
    returnType: Getter<Option<string>>,
    enclosingElement: Getter<Option<EnclosingElement>>,
    isConstructor: Getter<bool>)

  /** A descriptor whose backend overrides nothing. */
  const Unimplemented: FunctionInfo :=
    FunctionInfo(Default, Default, Default, Default, Default, Default, Default, Default, Default, Default)

  /** Reads one property: an override yields its value, the default getter
      signals that `property` is not implemented (`notImplemented`). */
  function Read<T>(g: Getter<T>, property: string): (r: Outcome<T>)
    ensures r.Ok? <==> g.Overridden?
    ensures g.Overridden? ==> r.value == g.value
    ensures g.Default? ==> r == NotImplemented(property)
  {
    match g
    case Default => NotImplemented(property)
    case Overridden(v) => Ok(v)
  }

  function NameNode(fi: FunctionInfo): Outcome<Option<nat>> { Read(fi.nameNode, "nameNode") }
  function Root(fi: FunctionInfo): Outcome<nat> { Read(fi.root, "root") }
  function Body(fi: FunctionInfo): Outcome<Option<nat>> { Read(fi.body, "body") }
  function FilePath(fi: FunctionInfo): Outcome<string> { Read(fi.filePath, "filePath") }
  function Annotations(fi: FunctionInfo): Outcome<Option<seq<string>>> { Read(fi.annotations, "annotations") }
  function Modifiers(fi: FunctionInfo): Outcome<Option<seq<string>>> { Read(fi.modifiers, "modifiers") }
  function Parameters(fi: FunctionInfo): Outcome<Option<seq<Parameter>>> { Read(fi.parameters, "parameters") }
  function ReturnType(fi: FunctionInfo): Outcome<Option<string>> { Read(fi.returnType, "returnType") }
  function Enclosing(fi: FunctionInfo): Outcome<Option<EnclosingElement>> { Read(fi.enclosingElement, "enclosingElement") }
  function IsConstructor(fi: FunctionInfo): Outcome<bool> { Read(fi.isConstructor, "isConstructor") }

  /** With no override, every property signals "not implemented" under its
      own name, and none of them reads as an absent value. */
  lemma DefaultGettersNotImplemented()
    ensures NameNode(Unimplemented) == NotImplemented("nameNode")
    ensures Root(Unimplemented) == NotImplemented("root")
    ensures Body(Unimplemented) == NotImplemented("body")
    ensures FilePath(Unimplemented) == NotImplemented("filePath")
    ensures Annotations(Unimplemented) == NotImplemented("annotations")
    ensures Modifiers(Unimplemented) == NotImplemented("modifiers")
    ensures Parameters(Unimplemented) == NotImplemented("parameters")
    ensures ReturnType(Unimplemented) == NotImplemented("returnType")
    ensures Enclosing(Unimplemented) == NotImplemented("enclosingElement")
    ensures IsConstructor(Unimplemented) == NotImplemented("isConstructor")
  {
  }

  /** The tree nodes the descriptor refers to exist. */
  predicate RefersInto(t: Tree, fi: FunctionInfo) {
    && (fi.nameNode.Overridden? && fi.nameNode.value.Some? ==> fi.nameNode.value.value < |t|)
    && (fi.body.Overridden? && fi.body.value.Some? ==> fi.body.value.value < |t|)
  }

  /** `name`: the original token of the name node; absent exactly when the
      name node is absent. */
  function Name(t: Tree, fi: FunctionInfo): (r: Outcome<Option<string>>)
    requires RefersInto(t, fi)
    ensures fi.nameNode.Default? ==> r == NotImplemented("nameNode")
    ensures fi.nameNode.Overridden? ==> r.Ok? && (r.value.None? <==> fi.nameNode.value.None?)
    ensures fi.nameNode.Overridden? && fi.nameNode.value.Some? ==>
      r == Ok(Some(t[fi.nameNode.value.value].originalToken))
  {
    var node :- NameNode(fi);
    match node
    case None => Ok(None)
    case Some(n) => Ok(Some(t[n].originalToken))
  }

  /** `isBlank`: true exactly when the body is absent or has no children; a
      backend that does not compute `body` cannot answer. */
  function IsBlank(t: Tree, fi: FunctionInfo): (r: Outcome<bool>)
    requires RefersInto(t, fi)
    ensures fi.body.Default? ==> r == NotImplemented("body")
    ensures fi.body.Overridden? ==> r.Ok?
    ensures fi.body.Overridden? ==>
      (r.value <==> fi.body.value.None? || |t[fi.body.value.value].children| == 0)
  {
    var body :- Body(fi);
    match body
    case None => Ok(true)
    case Some(b) => Ok(|t[b].children| == 0)
  }

  /** `isNotBlank`: the negation of `isBlank`, failing exactly when it fails. */
  function IsNotBlank(t: Tree, fi: FunctionInfo): (r: Outcome<bool>)
    requires RefersInto(t, fi)
    ensures IsBlank(t, fi).Ok? ==> r == Ok(!IsBlank(t, fi).value)
    ensures !IsBlank(t, fi).Ok? ==> SameFailure(IsBlank(t, fi), r)
  {
    var blank :- IsBlank(t, fi);
    Ok(!blank)
  }

  /** `extractWithLogger` for an extraction of a non-nullable type: runs one
      extraction step (given by its outcome). A value is passed through, an
      `IllegalStateException` becomes `null` (here `Ok(None)`), and every
      other exception propagates unchanged. */
  function ExtractWithLogger<T>(step: Outcome<T>): (r: Outcome<Option<T>>)
    ensures step.Ok? ==> r == Ok(Some(step.value))
    ensures r == Ok(None) <==> step.IllegalState?
    ensures !step.Ok? && !step.IllegalState? ==> SameFailure(step, r)
  {
    match step
    case Ok(v) => Ok(Some(v))
    case IllegalState(_) => Ok(None)
    case NotImplemented(p) => NotImplemented(p)
    case IllegalArgument(m) => IllegalArgument(m)
  }

  /** `extractWithLogger` for an extraction of a nullable type (`nameNode`,
      `name`, `enclosingElement`, ...): Kotlin's `T?` does not nest, so a
      `null` the extraction returns and a caught `IllegalStateException`
      yield the same `null`. */
  function ExtractNullableWithLogger<T>(step: Outcome<Option<T>>): (r: Outcome<Option<T>>)
    ensures r == Ok(None) <==> step.IllegalState? || step == Ok(None)
    ensures step.Ok? ==> r == step
    ensures !step.Ok? && !step.IllegalState? ==> SameFailure(step, r)
  {
    var extracted :- ExtractWithLogger(step);
    Ok(if extracted.None? then None else extracted.value)
  }
}
