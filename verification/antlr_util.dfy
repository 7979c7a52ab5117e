/** Helpers of the ANTLR backend that the Python descriptor builder relies on.

    Their Kotlin definitions (`decompressTypeLabel`, `lastLabelIn`,
    `hasLastLabel`, `getTokensFromSubtree`, and `AntlrNode` with its child
    lookup) are not part of this model; they are defined here as stated
    assumptions:
    - a node label may be a chain of collapsed productions joined by `|`
      (as in `test|or_test|...|atom|NAME`), and its effective production is the
      last segment of that chain;
    - `getChildOfType`/`getChildrenOfType` on an `AntlrNode` find a child by
      the first segment of its chain, so that a `test|...|NAME` child is found
      as `test`, as the Python builder's comment on its type lookup relies on;
    - flattening a subtree concatenates the tokens of its leaves from left to
      right.
 */
module AntlrUtil {
  import opened Outcomes
  import opened ParsingModel

  const Delimiter: char := '|'

  /** The last `|`-separated segment of a label (`decompressTypeLabel(l).last()`). */
  function LastSegment(typeLabel: string): (r: string)
    ensures Delimiter !in r
    ensures |r| <= |typeLabel|
    decreases |typeLabel|
  {
    if |typeLabel| == 0 then ""
    else if typeLabel[|typeLabel| - 1] == Delimiter then ""
    else LastSegment(typeLabel[..|typeLabel| - 1]) + [typeLabel[|typeLabel| - 1]]
  }

  /** The last segment is a suffix of the label that is either the whole
      label or preceded by a delimiter. */
  lemma {:induction false} LastSegmentIsSuffix(typeLabel: string)
    ensures var r := LastSegment(typeLabel);
      && r == typeLabel[|typeLabel| - |r|..]
      && (|r| == |typeLabel| || typeLabel[|typeLabel| - |r| - 1] == Delimiter)
    decreases |typeLabel|
  {
    var n := |typeLabel|;
    if n > 0 && typeLabel[n - 1] != Delimiter {
      var init := typeLabel[..n - 1];
      LastSegmentIsSuffix(init);
      var r := LastSegment(init);
      var m := |r|;
      assert LastSegment(typeLabel) == r + [typeLabel[n - 1]];
      assert r == typeLabel[n - 1 - m..n - 1];
      SuffixSplitsOffLast(typeLabel, n - 1 - m);
      if m < n - 1 {
        assert typeLabel[n - m - 2] == init[n - 1 - m - 1];
      }
    }
  }

  /** `lastLabelIn`: the effective production is one of `labels`. */
  predicate LastLabelIn(typeLabel: string, labels: seq<string>) {
    LastSegment(typeLabel) in labels
  }

  /** `hasLastLabel`: the effective production is `expected`. */
  predicate HasLastLabel(typeLabel: string, expected: string) {
    LastSegment(typeLabel) == expected
  }

  lemma SuffixSplitsOffLast(s: string, a: nat)
    requires a < |s|
    ensures s[a..] == s[a..|s| - 1] + [s[|s| - 1]]
  {
    var lhs := s[a..];
    var rhs := s[a..|s| - 1] + [s[|s| - 1]];
    assert |lhs| == |rhs|;
    forall j | 0 <= j < |lhs|
      ensures lhs[j] == rhs[j]
    {
      if j < |lhs| - 1 {
        assert rhs[j] == s[a..|s| - 1][j];
      }
    }
  }

  /** A label without a delimiter is its own last segment, and only such a
      label is. */
  lemma {:induction false} SingleSegmentUnchanged(typeLabel: string)
    ensures LastSegment(typeLabel) == typeLabel <==> Delimiter !in typeLabel
    decreases |typeLabel|
  {
    if |typeLabel| > 0 && Delimiter !in typeLabel {
      var init := typeLabel[..|typeLabel| - 1];
      assert Delimiter !in init by {
        forall k | 0 <= k < |init| ensures init[k] != Delimiter {
          assert init[k] == typeLabel[k];
        }
      }
      SingleSegmentUnchanged(init);
      assert typeLabel == init + [typeLabel[|typeLabel| - 1]];
    }
  }

  /** A label none of whose characters is the delimiter is its own effective
      production. */
  lemma NoDelimiterIsSingle(typeLabel: string)
    requires forall j :: 0 <= j < |typeLabel| ==> typeLabel[j] != Delimiter
    ensures LastSegment(typeLabel) == typeLabel
  {
    SingleSegmentUnchanged(typeLabel);
  }

  /** Decompressing an already decompressed label changes nothing. */
  lemma LastSegmentIdempotent(typeLabel: string)
    ensures LastSegment(LastSegment(typeLabel)) == LastSegment(typeLabel)
  {
    SingleSegmentUnchanged(LastSegment(typeLabel));
  }

  /** Prefixing a chain with more collapsed productions keeps its effective
      production. */
  lemma {:induction false} LastSegmentOfChain(prefix: string, typeLabel: string)
    ensures LastSegment(prefix + [Delimiter] + typeLabel) == LastSegment(typeLabel)
    decreases |typeLabel|
  {
    var whole := prefix + [Delimiter] + typeLabel;
    if |typeLabel| == 0 {
      assert whole[|whole| - 1] == Delimiter;
    } else {
      var init := typeLabel[..|typeLabel| - 1];
      assert whole[..|whole| - 1] == prefix + [Delimiter] + init;
      assert whole[|whole| - 1] == typeLabel[|typeLabel| - 1];
      LastSegmentOfChain(prefix, init);
    }
  }

  // ---------------------------------------------------------------------------
  // Child lookup of `AntlrNode`
  // ---------------------------------------------------------------------------

  /** The first `|`-separated segment of a label
      (`decompressTypeLabel(l).first()`): the production through which the
      chain was entered. */
  function FirstSegment(typeLabel: string): (r: string)
    ensures Delimiter !in r
    ensures |r| <= |typeLabel|
  {
    if |typeLabel| == 0 || typeLabel[0] == Delimiter then ""
    else [typeLabel[0]] + FirstSegment(typeLabel[1..])
  }

  /** The first segment is a prefix of the label that is either the whole
      label or followed by a delimiter. */
  lemma {:induction false} FirstSegmentIsPrefix(typeLabel: string)
    ensures FirstSegment(typeLabel) == typeLabel[..|FirstSegment(typeLabel)|]
    ensures |FirstSegment(typeLabel)| == |typeLabel| || typeLabel[|FirstSegment(typeLabel)|] == Delimiter
  {
    if |typeLabel| > 0 && typeLabel[0] != Delimiter {
      var tail := typeLabel[1..];
      FirstSegmentIsPrefix(tail);
      var r := FirstSegment(tail);
      assert FirstSegment(typeLabel) == [typeLabel[0]] + r;
      assert typeLabel[..|r| + 1] == [typeLabel[0]] + tail[..|r|];
      if |r| < |tail| {
        assert typeLabel[|r| + 1] == tail[|r|];
      }
    }
  }

  /** A label without a delimiter is its own first segment, and only such a
      label is. */
  lemma {:induction false} FirstSegmentOfSingle(typeLabel: string)
    ensures FirstSegment(typeLabel) == typeLabel <==> Delimiter !in typeLabel
  {
    if |typeLabel| > 0 && typeLabel[0] != Delimiter {
      var tail := typeLabel[1..];
      FirstSegmentOfSingle(tail);
      assert typeLabel == [typeLabel[0]] + tail;
      assert Delimiter in tail ==> Delimiter in typeLabel;
      assert Delimiter in typeLabel && typeLabel[0] != Delimiter ==> Delimiter in tail by {
        if Delimiter in typeLabel && typeLabel[0] != Delimiter {
          var j :| 0 <= j < |typeLabel| && typeLabel[j] == Delimiter;
          assert tail[j - 1] == Delimiter;
        }
      }
    } else if |typeLabel| > 0 {
      assert typeLabel[0] in typeLabel;
    }
  }

  /** Extending a production with more collapsed productions keeps it as the
      first segment. */
  lemma {:induction false} FirstSegmentOfChain(head: string, rest: string)
    requires Delimiter !in head
    ensures FirstSegment(head + [Delimiter] + rest) == head
    decreases |head|
  {
    var whole := head + [Delimiter] + rest;
    if |head| == 0 {
      assert whole[0] == Delimiter;
    } else {
      assert head[0] in head;
      assert whole[0] == head[0];
      assert whole[1..] == head[1..] + [Delimiter] + rest;
      FirstSegmentOfChain(head[1..], rest);
      assert head == [head[0]] + head[1..];
    }
  }

  /** `c` is the first element of `cs` whose label chain starts with `typeLabel`;
      the counterpart of `ParsingModel.IsFirstWithLabel` with the first-segment
      test in place of label equality. */
  ghost predicate IsFirstWithHead(t: Tree, cs: seq<nat>, typeLabel: string, c: nat)
    requires forall k :: 0 <= k < |cs| ==> cs[k] < |t|
  {
    exists k :: 0 <= k < |cs| && cs[k] == c && FirstSegment(t[c].typeLabel) == typeLabel &&
      forall j :: 0 <= j < k ==> FirstSegment(t[cs[j]].typeLabel) != typeLabel
  }

  /** The elements of `cs` whose label chain starts with `typeLabel`, in
      order; `ParsingModel.FilterByLabel` with the first-segment test in place
      of label equality. `FilterByHeadMeaning` states what it keeps. */
  function FilterByHead(t: Tree, cs: seq<nat>, typeLabel: string): (r: seq<nat>)
    requires forall k :: 0 <= k < |cs| ==> cs[k] < |t|
    ensures |r| <= |cs|
    ensures forall k :: 0 <= k < |r| ==> r[k] < |t|
  {
    if cs == [] then []
    else if FirstSegment(t[cs[0]].typeLabel) == typeLabel then [cs[0]] + FilterByHead(t, cs[1..], typeLabel)
    else FilterByHead(t, cs[1..], typeLabel)
  }

  /** Filtering keeps exactly the elements whose chain starts with the
      label, and the first element kept is the first such element of `cs`. */
  lemma {:induction false} FilterByHeadMeaning(t: Tree, cs: seq<nat>, typeLabel: string)
    requires forall k :: 0 <= k < |cs| ==> cs[k] < |t|
    ensures forall c :: c in FilterByHead(t, cs, typeLabel) <==> c in cs && FirstSegment(t[c].typeLabel) == typeLabel
    ensures |FilterByHead(t, cs, typeLabel)| > 0 ==>
      IsFirstWithHead(t, cs, typeLabel, FilterByHead(t, cs, typeLabel)[0])
  {
    if cs != [] {
      var rest := FilterByHead(t, cs[1..], typeLabel);
      FilterByHeadMeaning(t, cs[1..], typeLabel);
      assert cs == [cs[0]] + cs[1..];
      if FirstSegment(t[cs[0]].typeLabel) == typeLabel {
        assert IsFirstWithHead(t, cs, typeLabel, cs[0]);
      } else {
        FirstWithHeadSkipsFront(t, cs, typeLabel, rest);
      }
    }
  }

  lemma FirstWithHeadSkipsFront(t: Tree, cs: seq<nat>, typeLabel: string, rest: seq<nat>)
    requires forall k :: 0 <= k < |cs| ==> cs[k] < |t|
    requires cs != [] && FirstSegment(t[cs[0]].typeLabel) != typeLabel
    requires |rest| > 0 ==> IsFirstWithHead(t, cs[1..], typeLabel, rest[0])
    ensures |rest| > 0 ==> IsFirstWithHead(t, cs, typeLabel, rest[0])
  {
    if |rest| > 0 {
      var k :| 0 <= k < |cs[1..]| && cs[1..][k] == rest[0] && FirstSegment(t[rest[0]].typeLabel) == typeLabel &&
        forall j :: 0 <= j < k ==> FirstSegment(t[cs[1..][j]].typeLabel) != typeLabel;
      assert cs[k + 1] == rest[0];
      forall j | 0 <= j < k + 1
        ensures FirstSegment(t[cs[j]].typeLabel) != typeLabel
      {
        if j > 0 {
          assert cs[j] == cs[1..][j - 1];
        }
      }
    }
  }

  /** Filtering keeps the order of the kept elements. */
  lemma {:induction false} FilterByHeadIsSubsequence(t: Tree, cs: seq<nat>, typeLabel: string)
    requires forall k :: 0 <= k < |cs| ==> cs[k] < |t|
    ensures SubsequenceOf(FilterByHead(t, cs, typeLabel), cs)
  {
    if cs != [] {
      FilterByHeadIsSubsequence(t, cs[1..], typeLabel);
      var rest := FilterByHead(t, cs[1..], typeLabel);
      if FirstSegment(t[cs[0]].typeLabel) == typeLabel {
        assert ([cs[0]] + rest)[1..] == rest;
      }
    }
  }

  /** Only one element can be the first whose chain starts with a label. */
  lemma FirstWithHeadUnique(t: Tree, cs: seq<nat>, typeLabel: string, c: nat)
    requires forall k :: 0 <= k < |cs| ==> cs[k] < |t|
    requires IsFirstWithHead(t, cs, typeLabel, c)
    ensures forall d: nat :: IsFirstWithHead(t, cs, typeLabel, d) ==> d == c
  {
    forall d: nat | IsFirstWithHead(t, cs, typeLabel, d)
      ensures d == c
    {
      var k :| 0 <= k < |cs| && cs[k] == c && FirstSegment(t[c].typeLabel) == typeLabel &&
        forall j :: 0 <= j < k ==> FirstSegment(t[cs[j]].typeLabel) != typeLabel;
      var l :| 0 <= l < |cs| && cs[l] == d && FirstSegment(t[d].typeLabel) == typeLabel &&
        forall j :: 0 <= j < l ==> FirstSegment(t[cs[j]].typeLabel) != typeLabel;
    }
  }

  /** `getChildrenOfType` on an `AntlrNode`: the direct children whose label
      chain starts with `typeLabel`; `AntlrChildrenOfTypeMeaning` states which. */
  function AntlrChildrenOfType(t: Tree, i: nat, typeLabel: string): (r: seq<nat>)
    requires WellFormed(t) && i < |t|
    ensures |r| <= |t[i].children|
    ensures forall k :: 0 <= k < |r| ==> r[k] < |t|
  {
    FilterByHead(t, t[i].children, typeLabel)
  }

  /** Exactly the children whose chain starts with `typeLabel`, in their
      original order; empty exactly when no child's chain does. */
  lemma AntlrChildrenOfTypeMeaning(t: Tree, i: nat, typeLabel: string)
    requires WellFormed(t) && i < |t|
    ensures forall c :: c in AntlrChildrenOfType(t, i, typeLabel) <==>
      c in t[i].children && FirstSegment(t[c].typeLabel) == typeLabel
    ensures AntlrChildrenOfType(t, i, typeLabel) == [] <==>
      forall c :: c in t[i].children ==> FirstSegment(t[c].typeLabel) != typeLabel
    ensures SubsequenceOf(AntlrChildrenOfType(t, i, typeLabel), t[i].children)
  {
    FilterByHeadMeaning(t, t[i].children, typeLabel);
    FilterByHeadIsSubsequence(t, t[i].children, typeLabel);
    var r := AntlrChildrenOfType(t, i, typeLabel);
    if r != [] {
      assert r[0] in r;
    }
  }

  /** `getChildOfType` on an `AntlrNode`: the head of its `getChildrenOfType`;
      `AntlrChildOfTypeMeaning` states what it finds. */
  function AntlrChildOfType(t: Tree, i: nat, typeLabel: string): (r: Option<nat>)
    requires WellFormed(t) && i < |t|
    ensures r.Some? ==> r.value < |t|
  {
    var cs := AntlrChildrenOfType(t, i, typeLabel);
    if cs == [] then None else Some(cs[0])
  }

  /** Absent exactly when no child's chain starts with the label; otherwise
      the first child whose chain does. */
  lemma AntlrChildOfTypeMeaning(t: Tree, i: nat, typeLabel: string)
    requires WellFormed(t) && i < |t|
    ensures AntlrChildOfType(t, i, typeLabel).None? <==>
      forall c :: c in t[i].children ==> FirstSegment(t[c].typeLabel) != typeLabel
    ensures AntlrChildOfType(t, i, typeLabel).Some? ==>
      IsFirstWithHead(t, t[i].children, typeLabel, AntlrChildOfType(t, i, typeLabel).value)
  {
    AntlrChildrenOfTypeMeaning(t, i, typeLabel);
    FilterByHeadMeaning(t, t[i].children, typeLabel);
  }

  /** The lookup finds the first child whose chain starts with the label,
      whichever it is. */
  lemma AntlrChildOfTypeIsFirst(t: Tree, i: nat, typeLabel: string, c: nat)
    requires WellFormed(t) && i < |t|
    requires IsFirstWithHead(t, t[i].children, typeLabel, c)
    ensures AntlrChildOfType(t, i, typeLabel) == Some(c)
  {
    var k :| 0 <= k < |t[i].children| && t[i].children[k] == c && FirstSegment(t[c].typeLabel) == typeLabel &&
      forall j :: 0 <= j < k ==> FirstSegment(t[t[i].children[j]].typeLabel) != typeLabel;
    assert t[i].children[k] in t[i].children;
    AntlrChildOfTypeMeaning(t, i, typeLabel);
    FirstWithHeadUnique(t, t[i].children, typeLabel, c);
  }

  lemma {:induction false} FilterByHeadAgrees(t: Tree, cs: seq<nat>, typeLabel: string)
    requires forall k :: 0 <= k < |cs| ==> cs[k] < |t| && Delimiter !in t[cs[k]].typeLabel
    ensures FilterByHead(t, cs, typeLabel) == FilterByLabel(t, cs, typeLabel)
  {
    if cs != [] {
      FirstSegmentOfSingle(t[cs[0]].typeLabel);
      FilterByHeadAgrees(t, cs[1..], typeLabel);
    }
  }

  /** On children whose labels are single productions, the lookup of
      `AntlrNode` and the whole-label lookup of `Node` agree. */
  lemma LookupsAgreeOnPlainLabels(t: Tree, i: nat, typeLabel: string)
    requires WellFormed(t) && i < |t|
    requires forall c :: c in t[i].children ==> Delimiter !in t[c].typeLabel
    ensures AntlrChildrenOfType(t, i, typeLabel) == GetChildrenOfType(t, i, typeLabel)
    ensures AntlrChildOfType(t, i, typeLabel) == GetChildOfType(t, i, typeLabel)
  {
    FilterByHeadAgrees(t, t[i].children, typeLabel);
  }

  /** A child labelled with a chain `typeLabel|rest` is found by the lookup
      of `AntlrNode` but not by the whole-label lookup of `Node`. */
  lemma ChainedLabelLookups(t: Tree, i: nat, c: nat, typeLabel: string, rest: string)
    requires WellFormed(t) && i < |t| && c < |t| && c in t[i].children
    requires Delimiter !in typeLabel
    requires t[c].typeLabel == typeLabel + [Delimiter] + rest
    ensures c in AntlrChildrenOfType(t, i, typeLabel)
    ensures c !in GetChildrenOfType(t, i, typeLabel)
  {
    FirstSegmentOfChain(typeLabel, rest);
    AntlrChildrenOfTypeMeaning(t, i, typeLabel);
    GetChildrenOfTypeMeaning(t, i, typeLabel);
    assert |t[c].typeLabel| > |typeLabel|;
  }

  // ---------------------------------------------------------------------------
  // getTokensFromSubtree
  // ---------------------------------------------------------------------------

  /** `getTokensFromSubtree`: a leaf yields its token, an inner node the
      concatenation of its children's flattened tokens. */
  function TokensFromSubtree(t: Tree, i: nat): string
    requires WellFormed(t) && i < |t|
    decreases |t| - i, 1
  {
    if |t[i].children| == 0 then t[i].token else TokensFrom(t, i, 0)
  }

  function TokensFrom(t: Tree, i: nat, k: nat): string
    requires WellFormed(t) && i < |t| && k <= |t[i].children|
    decreases |t| - i, 0, |t[i].children| - k
  {
    if k == |t[i].children| then ""
    else TokensFromSubtree(t, t[i].children[k]) + TokensFrom(t, i, k + 1)
  }

  /** Reference definition: the tokens of the leaves among `order`, concatenated. */
  function LeafTokens(t: Tree, order: seq<(nat, int)>): string
    requires forall k :: 0 <= k < |order| ==> order[k].0 < |t|
  {
    if order == [] then ""
    else
      var n := order[0].0;
      (if |t[n].children| == 0 then t[n].token else "") + LeafTokens(t, order[1..])
  }

  lemma {:induction false} LeafTokensAppend(t: Tree, a: seq<(nat, int)>, b: seq<(nat, int)>)
    requires forall k :: 0 <= k < |a| ==> a[k].0 < |t|
    requires forall k :: 0 <= k < |b| ==> b[k].0 < |t|
    ensures LeafTokens(t, a + b) == LeafTokens(t, a) + LeafTokens(t, b)
    decreases |a|
  {
    if a != [] {
      assert (a + b)[1..] == a[1..] + b;
      LeafTokensAppend(t, a[1..], b);
    } else {
      assert a + b == b;
    }
  }

  /** Flattening a subtree concatenates its leaf tokens in pre-order. */
  lemma {:induction false} TokensFromSubtreeIsLeafTokens(t: Tree, i: nat, depth: int)
    requires WellFormed(t) && i < |t|
    ensures TokensFromSubtree(t, i) == LeafTokens(t, PreOrder(t, i, depth))
    decreases |t| - i, 1
  {
    var order := PreOrder(t, i, depth);
    var rest := PreOrderFrom(t, i, 0, depth + 1);
    assert order[0] == (i, depth) && order[1..] == rest;
    TokensFromIsLeafTokens(t, i, 0, depth + 1);
    if |t[i].children| == 0 {
      assert rest == [];
      assert LeafTokens(t, order) == t[i].token + LeafTokens(t, rest);
    } else {
      assert LeafTokens(t, order) == "" + LeafTokens(t, rest);
    }
  }

  lemma {:induction false} TokensFromIsLeafTokens(t: Tree, i: nat, k: nat, depth: int)
    requires WellFormed(t) && i < |t| && k <= |t[i].children|
    ensures TokensFrom(t, i, k) == LeafTokens(t, PreOrderFrom(t, i, k, depth))
    decreases |t| - i, 0, |t[i].children| - k
  {
    if k < |t[i].children| {
      var c := t[i].children[k];
      TokensFromSubtreeIsLeafTokens(t, c, depth);
      TokensFromIsLeafTokens(t, i, k + 1, depth);
      LeafTokensAppend(t, PreOrder(t, c, depth), PreOrderFrom(t, i, k + 1, depth));
    }
  }
}
