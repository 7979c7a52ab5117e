/** The generic syntax tree and its query helpers (astminer's `Node` interface
    and `ParseResult`).

    A tree is an arena: a sequence of node records addressed by index. Each
    record stores its children as indices into the same arena and an optional
    parent index. A parent always has a smaller index than its children, which
    makes every upward walk and every subtree walk terminate.
 */
module ParsingModel {
  import opened Outcomes

  /** One tree node: the grammar label (possibly a `|`-separated chain of
      collapsed productions), the normalised token, the token as it appeared in
      the source text, the ordered children and the parent. */
  datatype NodeRec = NodeRec(
    typeLabel: string,
    token: string,
    originalToken: string,
    children: seq<nat>,
    parent: Option<nat>)

  type Tree = seq<NodeRec>

  /** Parent and child links agree, children follow their parent in the arena,
      and no node is listed twice among one parent's children. */
  predicate WellFormed(t: Tree) {
    && (forall i, k :: 0 <= i < |t| && 0 <= k < |t[i].children| ==>
          i < t[i].children[k] < |t| && t[t[i].children[k]].parent == Some(i))
    && (forall j {:trigger t[j].parent} :: 0 <= j < |t| && t[j].parent.Some? ==>
          t[j].parent.value < j && j in t[t[j].parent.value].children)
    && (forall i, k, l :: 0 <= i < |t| && 0 <= k < l < |t[i].children| ==>
          t[i].children[k] != t[i].children[l])
  }

  /** The links of node `i` agree with those of its parent and children. */
  predicate NodeWellFormed(t: Tree, i: nat)
    requires i < |t|
  {
    && (forall k :: 0 <= k < |t[i].children| ==>
          i < t[i].children[k] < |t| && t[t[i].children[k]].parent == Some(i))
    && (t[i].parent.Some? ==> t[i].parent.value < i && i in t[t[i].parent.value].children)
    && (forall k, l :: 0 <= k < l < |t[i].children| ==> t[i].children[k] != t[i].children[l])
  }

  lemma WellFormedByNodes(t: Tree)
    requires forall i :: 0 <= i < |t| ==> NodeWellFormed(t, i)
    ensures WellFormed(t)
  {
    forall i, k | 0 <= i < |t| && 0 <= k < |t[i].children|
      ensures i < t[i].children[k] < |t| && t[t[i].children[k]].parent == Some(i)
    {
      assert NodeWellFormed(t, i);
    }
    forall j | 0 <= j < |t| && t[j].parent.Some?
      ensures t[j].parent.value < j && j in t[t[j].parent.value].children
    {
      assert NodeWellFormed(t, j);
    }
    forall i, k, l | 0 <= i < |t| && 0 <= k < l < |t[i].children|
      ensures t[i].children[k] != t[i].children[l]
    {
      assert NodeWellFormed(t, i);
    }
  }

  /** `a` is `n` itself or one of its ancestors. */
  ghost predicate IsAncestorOrSelf(t: Tree, a: nat, n: nat)
    requires WellFormed(t) && n < |t|
    decreases n
  {
    a == n || (t[n].parent.Some? && IsAncestorOrSelf(t, a, t[n].parent.value))
  }

  lemma {:induction false} AncestorIsNotAfter(t: Tree, a: nat, n: nat)
    requires WellFormed(t) && n < |t|
    requires IsAncestorOrSelf(t, a, n)
    ensures a <= n
    decreases n
  {
    if a != n {
      AncestorIsNotAfter(t, a, t[n].parent.value);
    }
  }

  lemma AncestorsAreNotAfter(t: Tree, n: nat)
    requires WellFormed(t) && n < |t|
    ensures forall a: nat :: IsAncestorOrSelf(t, a, n) ==> a <= n
  {
    forall a: nat | IsAncestorOrSelf(t, a, n)
      ensures a <= n
    {
      AncestorIsNotAfter(t, a, n);
    }
  }

  /** `a` is obtained from `b` by deleting elements, keeping the order. */
  predicate SubsequenceOf<T(==)>(a: seq<T>, b: seq<T>)
    decreases |b|
  {
    if a == [] then true
    else if b == [] then false
    else (a[0] == b[0] && SubsequenceOf(a[1..], b[1..])) || SubsequenceOf(a, b[1..])
  }

  /** `c` is the first element of `cs` whose label is exactly `typeLabel`. */
  ghost predicate IsFirstWithLabel(t: Tree, cs: seq<nat>, typeLabel: string, c: nat)
    requires forall k :: 0 <= k < |cs| ==> cs[k] < |t|
  {
    exists k :: 0 <= k < |cs| && cs[k] == c && t[c].typeLabel == typeLabel &&
      forall j :: 0 <= j < k ==> t[cs[j]].typeLabel != typeLabel
  }

  /** The elements of `cs` whose label is exactly `typeLabel`, in order;
      `FilterByLabelMeaning` states what it keeps. */
  function FilterByLabel(t: Tree, cs: seq<nat>, typeLabel: string): (r: seq<nat>)
    requires forall k :: 0 <= k < |cs| ==> cs[k] < |t|
    ensures |r| <= |cs|
    ensures forall k :: 0 <= k < |r| ==> r[k] < |t|
  {
    if cs == [] then []
    else if t[cs[0]].typeLabel == typeLabel then [cs[0]] + FilterByLabel(t, cs[1..], typeLabel)
    else FilterByLabel(t, cs[1..], typeLabel)
  }

  /** Filtering keeps exactly the elements with the label, and the first
      element kept is the first element of `cs` with that label. */
  lemma {:induction false} FilterByLabelMeaning(t: Tree, cs: seq<nat>, typeLabel: string)
    requires forall k :: 0 <= k < |cs| ==> cs[k] < |t|
    ensures var r := FilterByLabel(t, cs, typeLabel);
      && (forall c :: c in r <==> c in cs && t[c].typeLabel == typeLabel)
      && (forall k :: 0 <= k < |r| ==> t[r[k]].typeLabel == typeLabel)
      && (|r| > 0 ==> IsFirstWithLabel(t, cs, typeLabel, r[0]))
  {
    if cs != [] {
      var rest := FilterByLabel(t, cs[1..], typeLabel);
      FilterByLabelMeaning(t, cs[1..], typeLabel);
      assert cs == [cs[0]] + cs[1..];
      if t[cs[0]].typeLabel == typeLabel {
        assert IsFirstWithLabel(t, cs, typeLabel, cs[0]);
        assert forall k :: 1 <= k < |rest| + 1 ==> ([cs[0]] + rest)[k] == rest[k - 1];
      } else {
        FirstWithLabelSkipsHead(t, cs, typeLabel, rest);
      }
    }
  }

  lemma FirstWithLabelSkipsHead(t: Tree, cs: seq<nat>, typeLabel: string, rest: seq<nat>)
    requires forall k :: 0 <= k < |cs| ==> cs[k] < |t|
    requires cs != [] && t[cs[0]].typeLabel != typeLabel
    requires |rest| > 0 ==> IsFirstWithLabel(t, cs[1..], typeLabel, rest[0])
    ensures |rest| > 0 ==> IsFirstWithLabel(t, cs, typeLabel, rest[0])
  {
    if |rest| > 0 {
      var k :| 0 <= k < |cs[1..]| && cs[1..][k] == rest[0] && t[rest[0]].typeLabel == typeLabel &&
        forall j :: 0 <= j < k ==> t[cs[1..][j]].typeLabel != typeLabel;
      assert cs[k + 1] == rest[0];
      forall j | 0 <= j < k + 1
        ensures t[cs[j]].typeLabel != typeLabel
      {
        if j > 0 {
          assert cs[j] == cs[1..][j - 1];
        }
      }
    }
  }

  /** Filtering keeps the order of the kept elements. */
  lemma {:induction false} FilterByLabelIsSubsequence(t: Tree, cs: seq<nat>, typeLabel: string)
    requires forall k :: 0 <= k < |cs| ==> cs[k] < |t|
    ensures SubsequenceOf(FilterByLabel(t, cs, typeLabel), cs)
  {
    if cs != [] {
      FilterByLabelIsSubsequence(t, cs[1..], typeLabel);
      var rest := FilterByLabel(t, cs[1..], typeLabel);
      if t[cs[0]].typeLabel == typeLabel {
        assert ([cs[0]] + rest)[1..] == rest;
      }
    }
  }

  /** `getChildrenOfType`: the direct children labelled exactly `typeLabel`;
      `GetChildrenOfTypeMeaning` states which. */
  function GetChildrenOfType(t: Tree, i: nat, typeLabel: string): (r: seq<nat>)
    requires WellFormed(t) && i < |t|
    ensures |r| <= |t[i].children|
    ensures forall k :: 0 <= k < |r| ==> r[k] < |t|
  {
    FilterByLabel(t, t[i].children, typeLabel)
  }

  /** Exactly the children whose label equals `typeLabel` (no decompression
      of chained labels), in their original order; empty exactly when no
      child has that label. */
  lemma GetChildrenOfTypeMeaning(t: Tree, i: nat, typeLabel: string)
    requires WellFormed(t) && i < |t|
    ensures var r := GetChildrenOfType(t, i, typeLabel);
      && (forall c :: c in r <==> c in t[i].children && t[c].typeLabel == typeLabel)
      && (forall k :: 0 <= k < |r| ==> t[r[k]].typeLabel == typeLabel)
      && (r == [] <==> forall c :: c in t[i].children ==> t[c].typeLabel != typeLabel)
      && SubsequenceOf(r, t[i].children)
  {
    FilterByLabelMeaning(t, t[i].children, typeLabel);
    FilterByLabelIsSubsequence(t, t[i].children, typeLabel);
    var r := GetChildrenOfType(t, i, typeLabel);
    if r != [] {
      assert r[0] in r;
    }
  }

  /** `getChildOfType`: the head of `getChildrenOfType`;
      `GetChildOfTypeMeaning` states what it finds. */
  function GetChildOfType(t: Tree, i: nat, typeLabel: string): (r: Option<nat>)
    requires WellFormed(t) && i < |t|
    ensures r.Some? ==> r.value < |t|
  {
    var cs := GetChildrenOfType(t, i, typeLabel);
    if cs == [] then None else Some(cs[0])
  }

  /** Absent exactly when no child has the label; otherwise the first child
      that has it, which is the head of `getChildrenOfType`. */
  lemma GetChildOfTypeMeaning(t: Tree, i: nat, typeLabel: string)
    requires WellFormed(t) && i < |t|
    ensures var r := GetChildOfType(t, i, typeLabel);
      && (r.None? <==> forall c :: c in t[i].children ==> t[c].typeLabel != typeLabel)
      && (r.None? <==> GetChildrenOfType(t, i, typeLabel) == [])
      && (r.Some? ==> r.value == GetChildrenOfType(t, i, typeLabel)[0])
      && (r.Some? ==> IsFirstWithLabel(t, t[i].children, typeLabel, r.value))
  {
    GetChildrenOfTypeMeaning(t, i, typeLabel);
    FilterByLabelMeaning(t, t[i].children, typeLabel);
  }

  /** Only one element can be the first with a given label. */
  lemma FirstWithLabelUnique(t: Tree, cs: seq<nat>, typeLabel: string, c: nat)
    requires forall k :: 0 <= k < |cs| ==> cs[k] < |t|
    requires IsFirstWithLabel(t, cs, typeLabel, c)
    ensures forall d: nat :: IsFirstWithLabel(t, cs, typeLabel, d) ==> d == c
  {
    forall d: nat | IsFirstWithLabel(t, cs, typeLabel, d)
      ensures d == c
    {
      var k :| 0 <= k < |cs| && cs[k] == c && t[c].typeLabel == typeLabel &&
        forall j :: 0 <= j < k ==> t[cs[j]].typeLabel != typeLabel;
      var l :| 0 <= l < |cs| && cs[l] == d && t[d].typeLabel == typeLabel &&
        forall j :: 0 <= j < l ==> t[cs[j]].typeLabel != typeLabel;
    }
  }

  /** `getChildOfType` finds the first child with the label, whichever it is. */
  lemma GetChildOfTypeIsFirst(t: Tree, i: nat, typeLabel: string, c: nat)
    requires WellFormed(t) && i < |t|
    requires IsFirstWithLabel(t, t[i].children, typeLabel, c)
    ensures GetChildOfType(t, i, typeLabel) == Some(c)
  {
    var k :| 0 <= k < |t[i].children| && t[i].children[k] == c && t[c].typeLabel == typeLabel &&
      forall j :: 0 <= j < k ==> t[t[i].children[j]].typeLabel != typeLabel;
    assert t[i].children[k] in t[i].children;
    GetChildOfTypeMeaning(t, i, typeLabel);
    FirstWithLabelUnique(t, t[i].children, typeLabel, c);
  }

  // ---------------------------------------------------------------------------
  // Pre-order enumeration and `prettyPrint`
  // ---------------------------------------------------------------------------

  /** The nodes of the subtree rooted at `i` in pre-order, each paired with
      its depth counted from `depth` at `i`. */
  function PreOrder(t: Tree, i: nat, depth: int): (r: seq<(nat, int)>)
    requires WellFormed(t) && i < |t|
    ensures forall k :: 0 <= k < |r| ==> r[k].0 < |t|
    decreases |t| - i, 1
  {
    [(i, depth)] + PreOrderFrom(t, i, 0, depth + 1)
  }

  /** Pre-order of the children of `i` from the `k`-th on, each at `depth`. */
  function PreOrderFrom(t: Tree, i: nat, k: nat, depth: int): (r: seq<(nat, int)>)
    requires WellFormed(t) && i < |t| && k <= |t[i].children|
    ensures forall m :: 0 <= m < |r| ==> r[m].0 < |t|
    decreases |t| - i, 0, |t[i].children| - k
  {
    if k == |t[i].children| then []
    else PreOrder(t, t[i].children[k], depth) + PreOrderFrom(t, i, k + 1, depth)
  }

  lemma {:induction false} PreOrderShape(t: Tree, i: nat, depth: int)
    requires WellFormed(t) && i < |t|
    ensures PreOrder(t, i, depth)[0] == (i, depth)
    ensures forall k :: 0 < k < |PreOrder(t, i, depth)| ==>
      var (n, d) := PreOrder(t, i, depth)[k];
      n < |t| && i < n && d > depth && IsAncestorOrSelf(t, i, n)
    decreases |t| - i, 1
  {
    PreOrderFromShape(t, i, 0, depth + 1);
  }

  lemma {:induction false} PreOrderFromShape(t: Tree, i: nat, k: nat, depth: int)
    requires WellFormed(t) && i < |t| && k <= |t[i].children|
    ensures forall m :: 0 <= m < |PreOrderFrom(t, i, k, depth)| ==>
      var (n, d) := PreOrderFrom(t, i, k, depth)[m];
      n < |t| && i < n && d >= depth && IsAncestorOrSelf(t, i, n)
    decreases |t| - i, 0, |t[i].children| - k
  {
    if k < |t[i].children| {
      var c := t[i].children[k];
      var head := PreOrder(t, c, depth);
      var tail := PreOrderFrom(t, i, k + 1, depth);
      PreOrderShape(t, c, depth);
      PreOrderFromShape(t, i, k + 1, depth);
      assert PreOrderFrom(t, i, k, depth) == head + tail;
      forall m | 0 <= m < |head + tail|
        ensures var (n, d) := (head + tail)[m];
          n < |t| && i < n && d >= depth && IsAncestorOrSelf(t, i, n)
      {
        if m < |head| {
          var (n, d) := head[m];
          assert IsAncestorOrSelf(t, c, n);
          AncestorChain(t, i, c, n);
        } else {
          assert (head + tail)[m] == tail[m - |head|];
        }
      }
    }
  }

  /** An ancestor of an ancestor is an ancestor. */
  lemma {:induction false} AncestorChain(t: Tree, a: nat, b: nat, n: nat)
    requires WellFormed(t) && b < |t| && n < |t|
    requires t[b].parent == Some(a) && IsAncestorOrSelf(t, b, n)
    ensures IsAncestorOrSelf(t, a, n)
    decreases n
  {
    if n != b {
      AncestorChain(t, a, b, t[n].parent.value);
    }
  }

  /** The number of parent steps from `n` up to its ancestor `a`. */
  ghost function Distance(t: Tree, a: nat, n: nat): nat
    requires WellFormed(t) && n < |t| && IsAncestorOrSelf(t, a, n)
    decreases n
  {
    if a == n then 0 else Distance(t, a, t[n].parent.value) + 1
  }

  /** A node below child `c` of `i` is one step further from `i` than from `c`. */
  lemma {:induction false} DistanceThroughChild(t: Tree, i: nat, c: nat, n: nat)
    requires WellFormed(t) && c < |t| && n < |t|
    requires t[c].parent == Some(i) && IsAncestorOrSelf(t, c, n)
    ensures IsAncestorOrSelf(t, i, n) && Distance(t, i, n) == Distance(t, c, n) + 1
    decreases n
  {
    AncestorChain(t, i, c, n);
    AncestorIsNotAfter(t, c, n);
    if n != c {
      DistanceThroughChild(t, i, c, t[n].parent.value);
    }
  }

  /** Two ancestors of one node are ancestors one of the other. */
  lemma {:induction false} AncestorsComparable(t: Tree, a: nat, b: nat, n: nat)
    requires WellFormed(t) && n < |t|
    requires IsAncestorOrSelf(t, a, n) && IsAncestorOrSelf(t, b, n)
    ensures a < |t| && b < |t|
    ensures IsAncestorOrSelf(t, a, b) || IsAncestorOrSelf(t, b, a)
    decreases n
  {
    AncestorIsNotAfter(t, a, n);
    AncestorIsNotAfter(t, b, n);
    if a != n && b != n {
      AncestorsComparable(t, a, b, t[n].parent.value);
    }
  }

  /** A node that lies below two children of `i` lies below one child only. */
  lemma ChildrenDisjoint(t: Tree, i: nat, a: nat, b: nat, n: nat)
    requires WellFormed(t) && i < |t| && n < |t| && a < |t[i].children| && b < |t[i].children|
    requires IsAncestorOrSelf(t, t[i].children[a], n) && IsAncestorOrSelf(t, t[i].children[b], n)
    ensures a == b
  {
    var ca, cb := t[i].children[a], t[i].children[b];
    AncestorsComparable(t, ca, cb, n);
    if IsAncestorOrSelf(t, ca, cb) {
      SiblingAncestor(t, i, ca, cb);
    } else {
      SiblingAncestor(t, i, cb, ca);
    }
  }

  /** A child of `i` is an ancestor of a sibling only when it is that sibling. */
  lemma SiblingAncestor(t: Tree, i: nat, x: nat, y: nat)
    requires WellFormed(t) && i < |t| && y < |t|
    requires t[y].parent == Some(i) && i < x && IsAncestorOrSelf(t, x, y)
    ensures x == y
  {
    if x != y {
      AncestorIsNotAfter(t, x, i);
      assert false;
    }
  }

  /** A proper descendant of `i` lies below one of its children. */
  lemma {:induction false} BelowSomeChild(t: Tree, i: nat, n: nat)
    requires WellFormed(t) && i < |t| && n < |t|
    requires IsAncestorOrSelf(t, i, n) && i != n
    ensures exists j :: 0 <= j < |t[i].children| && IsAncestorOrSelf(t, t[i].children[j], n)
    decreases n
  {
    var p := t[n].parent.value;
    if p == i {
      var j :| 0 <= j < |t[i].children| && t[i].children[j] == n;
    } else {
      BelowSomeChild(t, i, p);
      var j :| 0 <= j < |t[i].children| && IsAncestorOrSelf(t, t[i].children[j], p);
      AncestorIsNotAfter(t, t[i].children[j], p);
      assert IsAncestorOrSelf(t, t[i].children[j], n);
    }
  }

  /** Every entry of the pre-order of `i` is recorded at `depth` plus its
      distance from `i`. */
  lemma {:induction false} PreOrderDepth(t: Tree, i: nat, depth: int)
    requires WellFormed(t) && i < |t|
    ensures forall k :: 0 <= k < |PreOrder(t, i, depth)| ==>
      IsAncestorOrSelf(t, i, PreOrder(t, i, depth)[k].0) &&
      PreOrder(t, i, depth)[k].1 == depth + Distance(t, i, PreOrder(t, i, depth)[k].0)
    decreases |t| - i, 1
  {
    PreOrderFromDepth(t, i, 0, depth + 1);
  }

  lemma {:induction false} PreOrderFromDepth(t: Tree, i: nat, k: nat, depth: int)
    requires WellFormed(t) && i < |t| && k <= |t[i].children|
    ensures forall m :: 0 <= m < |PreOrderFrom(t, i, k, depth)| ==>
      IsAncestorOrSelf(t, i, PreOrderFrom(t, i, k, depth)[m].0) &&
      PreOrderFrom(t, i, k, depth)[m].1 + 1 == depth + Distance(t, i, PreOrderFrom(t, i, k, depth)[m].0)
    decreases |t| - i, 0, |t[i].children| - k
  {
    if k < |t[i].children| {
      var c := t[i].children[k];
      var head: seq<(nat, int)>, tail: seq<(nat, int)> := PreOrder(t, c, depth), PreOrderFrom(t, i, k + 1, depth);
      PreOrderDepth(t, c, depth);
      PreOrderFromDepth(t, i, k + 1, depth);
      assert PreOrderFrom(t, i, k, depth) == head + tail;
      forall m | 0 <= m < |head|
        ensures IsAncestorOrSelf(t, i, head[m].0) && head[m].1 + 1 == depth + Distance(t, i, head[m].0)
      {
        DistanceThroughChild(t, i, c, head[m].0);
      }
      forall m | 0 <= m < |head + tail|
        ensures IsAncestorOrSelf(t, i, (head + tail)[m].0) &&
          (head + tail)[m].1 + 1 == depth + Distance(t, i, (head + tail)[m].0)
      {
        if m >= |head| {
          assert (head + tail)[m] == tail[m - |head|];
        }
      }
    }
  }

  /** Every entry of the pre-order of the children of `i` from the `k`-th on
      lies below one of those children. */
  lemma {:induction false} PreOrderFromBelow(t: Tree, i: nat, k: nat, depth: int)
    requires WellFormed(t) && i < |t| && k <= |t[i].children|
    ensures forall m :: 0 <= m < |PreOrderFrom(t, i, k, depth)| ==>
      exists j :: k <= j < |t[i].children| && IsAncestorOrSelf(t, t[i].children[j], PreOrderFrom(t, i, k, depth)[m].0)
    decreases |t[i].children| - k
  {
    if k < |t[i].children| {
      var c := t[i].children[k];
      var head: seq<(nat, int)>, tail: seq<(nat, int)> := PreOrder(t, c, depth), PreOrderFrom(t, i, k + 1, depth);
      PreOrderDepth(t, c, depth);
      PreOrderFromBelow(t, i, k + 1, depth);
      var all := head + tail;
      assert PreOrderFrom(t, i, k, depth) == all;
      forall m | 0 <= m < |all|
        ensures exists j :: k <= j < |t[i].children| && IsAncestorOrSelf(t, t[i].children[j], all[m].0)
      {
        if m < |head| {
          assert all[m] == head[m];
          assert IsAncestorOrSelf(t, t[i].children[k], all[m].0);
        } else {
          assert all[m] == tail[m - |head|];
          var j :| k + 1 <= j < |t[i].children| && IsAncestorOrSelf(t, t[i].children[j], tail[m - |head|].0);
          assert IsAncestorOrSelf(t, t[i].children[j], all[m].0);
        }
      }
    } else {
      assert PreOrderFrom(t, i, k, depth) == [];
    }
  }

  /** No node appears twice in the pre-order of a subtree. */
  lemma {:induction false} PreOrderDistinct(t: Tree, i: nat, depth: int)
    requires WellFormed(t) && i < |t|
    ensures forall k, l :: 0 <= k < l < |PreOrder(t, i, depth)| ==>
      PreOrder(t, i, depth)[k].0 != PreOrder(t, i, depth)[l].0
    decreases |t| - i, 1
  {
    PreOrderShape(t, i, depth);
    PreOrderFromDistinct(t, i, 0, depth + 1);
    var order := PreOrder(t, i, depth);
    assert forall l :: 1 <= l < |order| ==> order[l] == PreOrderFrom(t, i, 0, depth + 1)[l - 1];
  }

  lemma {:induction false} PreOrderFromDistinct(t: Tree, i: nat, k: nat, depth: int)
    requires WellFormed(t) && i < |t| && k <= |t[i].children|
    ensures forall m, l :: 0 <= m < l < |PreOrderFrom(t, i, k, depth)| ==>
      PreOrderFrom(t, i, k, depth)[m].0 != PreOrderFrom(t, i, k, depth)[l].0
    decreases |t| - i, 0, |t[i].children| - k
  {
    if k < |t[i].children| {
      var c := t[i].children[k];
      var head: seq<(nat, int)>, tail: seq<(nat, int)> := PreOrder(t, c, depth), PreOrderFrom(t, i, k + 1, depth);
      PreOrderDistinct(t, c, depth);
      PreOrderFromDistinct(t, i, k + 1, depth);
      PreOrderDepth(t, c, depth);
      PreOrderFromBelow(t, i, k + 1, depth);
      var all := head + tail;
      assert PreOrderFrom(t, i, k, depth) == all;
      forall m, l | 0 <= m < l < |all|
        ensures all[m].0 != all[l].0
      {
        if l >= |head| {
          assert all[l] == tail[l - |head|];
          if m >= |head| {
            assert all[m] == tail[m - |head|];
          } else {
            var j :| k + 1 <= j < |t[i].children| && IsAncestorOrSelf(t, t[i].children[j], tail[l - |head|].0);
            if all[m].0 == all[l].0 {
              ChildrenDisjoint(t, i, k, j, all[m].0);
            }
          }
        }
      }
    }
  }

  /** Left-to-right sibling order: everything below an earlier child of `i`
      comes before everything below a later one. */
  lemma PreOrderFromSiblingOrder(t: Tree, i: nat, k: nat, depth: int)
    requires WellFormed(t) && i < |t| && k <= |t[i].children|
    ensures forall m, l, a, b ::
      0 <= m < |PreOrderFrom(t, i, k, depth)| && 0 <= l < |PreOrderFrom(t, i, k, depth)| &&
      0 <= a < b < |t[i].children| &&
      IsAncestorOrSelf(t, t[i].children[a], PreOrderFrom(t, i, k, depth)[m].0) &&
      IsAncestorOrSelf(t, t[i].children[b], PreOrderFrom(t, i, k, depth)[l].0)
      ==> m < l
  {
    forall m, l, a, b |
      0 <= m < |PreOrderFrom(t, i, k, depth)| && 0 <= l < |PreOrderFrom(t, i, k, depth)| &&
      0 <= a < b < |t[i].children| &&
      IsAncestorOrSelf(t, t[i].children[a], PreOrderFrom(t, i, k, depth)[m].0) &&
      IsAncestorOrSelf(t, t[i].children[b], PreOrderFrom(t, i, k, depth)[l].0)
      ensures m < l
    {
      SiblingOrderAt(t, i, k, depth, m, l, a, b);
    }
  }

  /** One instance of the sibling order: entry `m` below child `a` precedes
      entry `l` below the later child `b`. */
  lemma {:induction false} SiblingOrderAt(t: Tree, i: nat, k: nat, depth: int, m: nat, l: nat, a: nat, b: nat)
    requires WellFormed(t) && i < |t| && k <= |t[i].children|
    requires m < |PreOrderFrom(t, i, k, depth)| && l < |PreOrderFrom(t, i, k, depth)| && a < b < |t[i].children|
    requires IsAncestorOrSelf(t, t[i].children[a], PreOrderFrom(t, i, k, depth)[m].0)
    requires IsAncestorOrSelf(t, t[i].children[b], PreOrderFrom(t, i, k, depth)[l].0)
    ensures m < l
    decreases |t[i].children| - k
  {
    assert k < |t[i].children|;
    var c := t[i].children[k];
    var head: seq<(nat, int)>, tail: seq<(nat, int)> := PreOrder(t, c, depth), PreOrderFrom(t, i, k + 1, depth);
    var all := head + tail;
    assert PreOrderFrom(t, i, k, depth) == all;
    if l < |head| {
      PreOrderDepth(t, c, depth);
      assert all[l] == head[l];
      ChildrenDisjoint(t, i, k, b, all[l].0);
      if m < |head| {
        assert all[m] == head[m];
        ChildrenDisjoint(t, i, k, a, all[m].0);
        assert false;
      } else {
        assert all[m] == tail[m - |head|];
        PreOrderFromBelow(t, i, k + 1, depth);
        var j :| k + 1 <= j < |t[i].children| && IsAncestorOrSelf(t, t[i].children[j], tail[m - |head|].0);
        ChildrenDisjoint(t, i, a, j, all[m].0);
        assert false;
      }
    } else if m >= |head| {
      assert all[m] == tail[m - |head|] && all[l] == tail[l - |head|];
      SiblingOrderAt(t, i, k + 1, depth, m - |head|, l - |head|, a, b);
    }
  }

  /** Every node of the subtree of `i` appears in its pre-order. */
  lemma {:induction false} PreOrderComplete(t: Tree, i: nat, depth: int, n: nat)
    requires WellFormed(t) && i < |t| && n < |t| && IsAncestorOrSelf(t, i, n)
    ensures exists k :: 0 <= k < |PreOrder(t, i, depth)| && PreOrder(t, i, depth)[k].0 == n
    decreases |t| - i
  {
    var order := PreOrder(t, i, depth);
    if n == i {
      assert order[0].0 == n;
    } else {
      BelowSomeChild(t, i, n);
      var j :| 0 <= j < |t[i].children| && IsAncestorOrSelf(t, t[i].children[j], n);
      PreOrderComplete(t, t[i].children[j], depth + 1, n);
      PreOrderFromContains(t, i, 0, j, depth + 1, n);
      var m :| 0 <= m < |PreOrderFrom(t, i, 0, depth + 1)| && PreOrderFrom(t, i, 0, depth + 1)[m].0 == n;
      assert order[m + 1] == PreOrderFrom(t, i, 0, depth + 1)[m];
    }
  }

  lemma {:induction false} PreOrderFromContains(t: Tree, i: nat, k: nat, j: nat, depth: int, n: nat)
    requires WellFormed(t) && i < |t| && k <= j < |t[i].children|
    requires exists l :: 0 <= l < |PreOrder(t, t[i].children[j], depth)| && PreOrder(t, t[i].children[j], depth)[l].0 == n
    ensures exists m :: 0 <= m < |PreOrderFrom(t, i, k, depth)| && PreOrderFrom(t, i, k, depth)[m].0 == n
    decreases j - k
  {
    var head: seq<(nat, int)>, tail: seq<(nat, int)> := PreOrder(t, t[i].children[k], depth), PreOrderFrom(t, i, k + 1, depth);
    assert PreOrderFrom(t, i, k, depth) == head + tail;
    if k == j {
      var l :| 0 <= l < |head| && head[l].0 == n;
      assert (head + tail)[l] == head[l];
    } else {
      PreOrderFromContains(t, i, k + 1, j, depth, n);
      var m :| 0 <= m < |tail| && tail[m].0 == n;
      assert (head + tail)[|head| + m] == tail[m];
    }
  }

  /** `indent` copies of `symbol`; none when `indent` is not positive, as with
      Kotlin's `repeat`. */
  function Indentation(symbol: string, indent: int): string
    decreases if indent < 0 then 0 else indent
  {
    if indent <= 0 then "" else Indentation(symbol, indent - 1) + symbol
  }

  lemma {:induction false} IndentationPrefix(symbol: string, a: int, b: int)
    requires a <= b
    ensures Indentation(symbol, a) <= Indentation(symbol, b)
    decreases b - a
  {
    if a < b {
      IndentationPrefix(symbol, a, b - 1);
    }
  }

  /** The line `prettyPrint` writes for node `i`: indentation, the label, and
      ` : token` when the token is not empty (without the line break). */
  function Line(t: Tree, i: nat, indent: int, symbol: string): string
    requires i < |t|
  {
    Indentation(symbol, indent) + t[i].typeLabel +
      (if |t[i].token| > 0 then " : " + t[i].token else "")
  }

  /** `prettyPrint`: the lines written for the subtree of `i`. */
  function PrettyPrint(t: Tree, i: nat, indent: int, symbol: string): seq<string>
    requires WellFormed(t) && i < |t|
    decreases |t| - i, 1
  {
    [Line(t, i, indent, symbol)] + PrettyPrintFrom(t, i, 0, indent + 1, symbol)
  }

  function PrettyPrintFrom(t: Tree, i: nat, k: nat, indent: int, symbol: string): seq<string>
    requires WellFormed(t) && i < |t| && k <= |t[i].children|
    decreases |t| - i, 0, |t[i].children| - k
  {
    if k == |t[i].children| then []
    else PrettyPrint(t, t[i].children[k], indent, symbol) + PrettyPrintFrom(t, i, k + 1, indent, symbol)
  }

  /** `prettyPrint` writes exactly one line per pre-order entry, at its depth. */
  lemma {:induction false} PrettyPrintFollowsPreOrder(t: Tree, i: nat, indent: int, symbol: string)
    requires WellFormed(t) && i < |t|
    ensures |PrettyPrint(t, i, indent, symbol)| == |PreOrder(t, i, indent)|
    ensures forall k :: 0 <= k < |PreOrder(t, i, indent)| ==>
      PreOrder(t, i, indent)[k].0 < |t| &&
      PrettyPrint(t, i, indent, symbol)[k] ==
        Line(t, PreOrder(t, i, indent)[k].0, PreOrder(t, i, indent)[k].1, symbol)
    decreases |t| - i, 1
  {
    PrettyPrintFromFollowsPreOrder(t, i, 0, indent + 1, symbol);
  }

  lemma {:induction false} PrettyPrintFromFollowsPreOrder(t: Tree, i: nat, k: nat, indent: int, symbol: string)
    requires WellFormed(t) && i < |t| && k <= |t[i].children|
    ensures |PrettyPrintFrom(t, i, k, indent, symbol)| == |PreOrderFrom(t, i, k, indent)|
    ensures forall m :: 0 <= m < |PreOrderFrom(t, i, k, indent)| ==>
      PreOrderFrom(t, i, k, indent)[m].0 < |t| &&
      PrettyPrintFrom(t, i, k, indent, symbol)[m] ==
        Line(t, PreOrderFrom(t, i, k, indent)[m].0, PreOrderFrom(t, i, k, indent)[m].1, symbol)
    decreases |t| - i, 0, |t[i].children| - k
  {
    if k < |t[i].children| {
      var c := t[i].children[k];
      PrettyPrintFollowsPreOrder(t, c, indent, symbol);
      PrettyPrintFromFollowsPreOrder(t, i, k + 1, indent, symbol);
      var lines1: seq<string>, lines2: seq<string> := PrettyPrint(t, c, indent, symbol), PrettyPrintFrom(t, i, k + 1, indent, symbol);
      var order1: seq<(nat, int)>, order2: seq<(nat, int)> := PreOrder(t, c, indent), PreOrderFrom(t, i, k + 1, indent);
      assert PrettyPrintFrom(t, i, k, indent, symbol) == lines1 + lines2;
      assert PreOrderFrom(t, i, k, indent) == order1 + order2;
      forall m | 0 <= m < |order1 + order2|
        ensures (order1 + order2)[m].0 < |t|
        ensures (lines1 + lines2)[m] == Line(t, (order1 + order2)[m].0, (order1 + order2)[m].1, symbol)
      {
        if m >= |order1| {
          assert (order1 + order2)[m] == order2[m - |order1|];
          assert (lines1 + lines2)[m] == lines2[m - |lines1|];
        }
      }
    }
  }

  /** The first line is the root's own line; every other line belongs to a
      proper descendant and is indented at least one level deeper. */
  lemma PrettyPrintIndentation(t: Tree, i: nat, indent: int, symbol: string)
    requires WellFormed(t) && i < |t|
    ensures PrettyPrint(t, i, indent, symbol)[0] == Line(t, i, indent, symbol)
    ensures forall k :: 0 < k < |PrettyPrint(t, i, indent, symbol)| ==>
      Indentation(symbol, indent + 1) <= PrettyPrint(t, i, indent, symbol)[k]
  {
    PrettyPrintFollowsPreOrder(t, i, indent, symbol);
    PreOrderShape(t, i, indent);
    var lines: seq<string>, order: seq<(nat, int)> := PrettyPrint(t, i, indent, symbol), PreOrder(t, i, indent);
    forall k | 0 < k < |lines|
      ensures Indentation(symbol, indent + 1) <= lines[k]
    {
      var (n, d) := order[k];
      IndentationPrefix(symbol, indent + 1, d);
      assert lines[k] == Indentation(symbol, d) + (t[n].typeLabel +
        (if |t[n].token| > 0 then " : " + t[n].token else ""));
    }
  }

  /** The default `indentSymbol` of `prettyPrint`. */
  const DefaultIndentSymbol := "--"

  /** `prettyPrint()` with its default arguments, `indent = 0` and
      `indentSymbol = "--"`: one line per pre-order entry, the root's line
      unindented, and every node's line preceded by `--` once per level it
      lies below the root. */
  function PrettyPrintDefault(t: Tree, i: nat): (r: seq<string>)
    requires WellFormed(t) && i < |t|
    ensures r == PrettyPrint(t, i, 0, DefaultIndentSymbol)
    ensures |r| == |PreOrder(t, i, 0)|
    ensures r[0] == t[i].typeLabel + (if |t[i].token| > 0 then " : " + t[i].token else "")
    ensures forall k :: 0 <= k < |r| ==>
      PreOrder(t, i, 0)[k].0 < |t| && IsAncestorOrSelf(t, i, PreOrder(t, i, 0)[k].0) &&
      r[k] == Line(t, PreOrder(t, i, 0)[k].0, Distance(t, i, PreOrder(t, i, 0)[k].0), DefaultIndentSymbol)
  {
    PrettyPrintFollowsPreOrder(t, i, 0, DefaultIndentSymbol);
    PreOrderDepth(t, i, 0);
    PrettyPrint(t, i, 0, DefaultIndentSymbol)
  }

  // ---------------------------------------------------------------------------
  // ParseResult
  // ---------------------------------------------------------------------------

  datatype ParseResult<T> = ParseResult(root: T, filePath: string)

  datatype LabeledResult<T> = LabeledResult(root: T, resultLabel: string, filePath: string)

  /** `labeledWith`: same tree and file path, tagged with `resultLabel`. */
  function LabeledWith<T>(p: ParseResult<T>, resultLabel: string): (r: LabeledResult<T>)
    ensures r.root == p.root && r.filePath == p.filePath && r.resultLabel == resultLabel
  {
    LabeledResult(p.root, resultLabel, p.filePath)
  }

  /** `labeledWithFilePath`: the file path doubles as the result label. */
  function LabeledWithFilePath<T>(p: ParseResult<T>): (r: LabeledResult<T>)
    ensures r.resultLabel == r.filePath == p.filePath && r.root == p.root
  {
    LabeledWith(p, p.filePath)
  }
}
