/**
 * The panel script of the monitoring dashboard (nezha/network.js): reordering
 * two sibling panels and the edge-triggered reaction to their visibility.
 *
 * The DOM is reduced to each parent's list of children and each node's parent.
 * What the selector lookups and `getComputedStyle` return is an input; the
 * timers are recorded as effects the call schedules.
 */
module PanelSwap {
  import opened Common

  predicate NoDuplicates(s: seq<NodeId>)
  {
    forall a, b :: 0 <= a < b < |s| ==> s[a] != s[b]
  }

  /** `Array.prototype.indexOf`: the first position of x, or -1. */
  function IndexOf(s: seq<NodeId>, x: NodeId): (i: int)
    ensures -1 <= i < |s|
    ensures i == -1 <==> x !in s
    ensures i >= 0 ==> s[i] == x && forall k :: 0 <= k < i ==> s[k] != x
  {
    if s == [] then -1
    else if s[0] == x then 0
    else
      var i := IndexOf(s[1..], x);
      assert forall k :: 1 <= k < |s| ==> s[k] == s[1..][k - 1];
      if i == -1 then -1 else i + 1
  }

  /** A position holding x with no x before it is the one `IndexOf` finds. */
  lemma IndexOfIs(s: seq<NodeId>, x: NodeId, i: nat)
    requires i < |s| && s[i] == x
    requires forall k :: 0 <= k < i ==> s[k] != x
    ensures IndexOf(s, x) == i
  {
  }

  /** The list without the first occurrence of x. */
  function Remove(s: seq<NodeId>, x: NodeId): (r: seq<NodeId>)
    requires x in s
    ensures |r| == |s| - 1
  {
    var i := IndexOf(s, x);
    s[..i] + s[i + 1..]
  }

  /** `node.nextSibling` among the children s. */
  function NextSibling(s: seq<NodeId>, x: NodeId): (r: Option<NodeId>)
    requires x in s
    ensures r.Some? ==> r.value in s
  {
    var i := IndexOf(s, x);
    if i + 1 < |s| then Some(s[i + 1]) else None
  }

  /** Every child other than x is still there once x is removed. */
  lemma RemoveKeeps(s: seq<NodeId>, x: NodeId, y: NodeId)
    requires x in s && y in s && x != y
    ensures y in Remove(s, x)
  {
    var i, t := IndexOf(s, x), IndexOf(s, y);
    var r := Remove(s, x);
    if t < i { assert r[t] == s[t]; } else { assert r[t - 1] == s[t]; }
  }

  /**
   * `parent.insertBefore(node, ref)` for a node already among the parent's
   * children: a reference equal to the node itself stands for the node's next
   * sibling; the node is taken out and put back before the reference, or at the
   * end when there is none.
   */
  function InsertBefore(s: seq<NodeId>, node: NodeId, ref: Option<NodeId>): seq<NodeId>
    requires NoDuplicates(s) && node in s
    requires ref.Some? ==> ref.value in s
  {
    var target := if ref == Some(node) then NextSibling(s, node) else ref;
    var rest := Remove(s, node);
    if target.None? then rest + [node]
    else
      assert target.value in rest by {
        assert target.value != node;
        RemoveKeeps(s, node, target.value);
      }
      var j := IndexOf(rest, target.value);
      rest[..j] + [node] + rest[j..]
  }

  /** The element at position j taken out and put back at position i < j. */
  function MoveBefore(s: seq<NodeId>, i: nat, j: nat): (r: seq<NodeId>)
    requires i < j < |s|
    ensures |r| == |s|
  {
    s[..i] + [s[j]] + s[i..j] + s[j + 1..]
  }

  /** Cutting a concatenation inside its first part. */
  lemma CutConcat(a: seq<NodeId>, b: seq<NodeId>, i: nat)
    requires i <= |a|
    ensures (a + b)[..i] == a[..i] && (a + b)[i..] == a[i..] + b
  {
  }

  /** Taking out position j and putting it back at i < j is `MoveBefore`. */
  lemma CutAndInsert(s: seq<NodeId>, i: nat, j: nat)
    requires i < j < |s|
    ensures var rest := s[..j] + s[j + 1..];
            rest[..i] + [s[j]] + rest[i..] == MoveBefore(s, i, j)
  {
    var rest := s[..j] + s[j + 1..];
    CutConcat(s[..j], s[j + 1..], i);
    assert s[..j][i..] == s[i..j];
    assert s[..j][..i] == s[..i];
  }

  /** The first `insertBefore` of the swap moves div4 to just before div3. */
  lemma FirstInsert(s: seq<NodeId>, d3: NodeId, d4: NodeId)
    requires NoDuplicates(s) && d3 in s && d4 in s
    requires IndexOf(s, d3) < IndexOf(s, d4)
    ensures InsertBefore(s, d4, Some(d3)) == MoveBefore(s, IndexOf(s, d3), IndexOf(s, d4))
  {
    var i, j := IndexOf(s, d3), IndexOf(s, d4);
    var rest := Remove(s, d4);
    assert rest == s[..j] + s[j + 1..];
    assert IndexOf(rest, d3) == i by {
      assert rest[i] == d3;
      assert forall k :: 0 <= k < i ==> rest[k] == s[k];
      IndexOfIs(rest, d3, i);
    }
    CutAndInsert(s, i, j);
  }

  /** Taking out position p and putting it back at p changes nothing. */
  lemma CutAndRestore(m: seq<NodeId>, p: nat)
    requires p < |m|
    ensures var rest := m[..p] + m[p + 1..];
            rest[..p] + [m[p]] + rest[p..] == m && (p + 1 == |m| ==> rest + [m[p]] == m)
  {
    var rest := m[..p] + m[p + 1..];
    CutConcat(m[..p], m[p + 1..], p);
    assert m[..p][p..] == [];
    assert m[..p][..p] == m[..p];
    assert m == m[..p] + [m[p]] + m[p + 1..];
  }

  /**
   * The second `insertBefore` of the swap names div3 itself as reference (div3
   * is then div4's next sibling) and so leaves div3 where it is.
   */
  lemma SecondInsert(m: seq<NodeId>, i: nat, d3: NodeId, d4: NodeId)
    requires NoDuplicates(m) && i + 1 < |m| && m[i] == d4 && m[i + 1] == d3
    ensures NextSibling(m, d4) == Some(d3)
    ensures InsertBefore(m, d3, NextSibling(m, d4)) == m
  {
    IndexOfUnique(m, i);
    IndexOfUnique(m, i + 1);
    var rest := Remove(m, d3);
    assert rest == m[..i + 1] + m[i + 2..];
    CutAndRestore(m, i + 1);
    if i + 2 < |m| {
      assert NextSibling(m, d3) == Some(m[i + 2]);
      CutFinds(m, i + 1);
    } else {
      assert NextSibling(m, d3) == None;
    }
  }

  /** With position p cut out, the element after it is found at p. */
  lemma CutFinds(m: seq<NodeId>, p: nat)
    requires NoDuplicates(m) && p + 1 < |m|
    ensures IndexOf(m[..p] + m[p + 1..], m[p + 1]) == p
  {
    var rest := m[..p] + m[p + 1..];
    assert rest[p] == m[p + 1];
    forall k | 0 <= k < p
      ensures rest[k] != m[p + 1]
    {
      assert rest[k] == m[k];
    }
    IndexOfIs(rest, m[p + 1], p);
  }

  /** Moving an element keeps the list free of duplicates. */
  lemma MoveBeforeNoDuplicates(s: seq<NodeId>, i: nat, j: nat)
    requires i < j < |s| && NoDuplicates(s)
    ensures NoDuplicates(MoveBefore(s, i, j))
  {
    var m := MoveBefore(s, i, j);
    forall a, b | 0 <= a < b < |m| ensures m[a] != m[b] {
      assert m[a] == s[Origin(a, i, j)] && m[b] == s[Origin(b, i, j)];
    }
  }

  /** Where the element at position k of the moved list came from. */
  function Origin(k: nat, i: nat, j: nat): nat
  {
    if k < i then k else if k == i then j else if k <= j then k - 1 else k
  }

  /** Moving an element keeps the same children, counted with multiplicity. */
  lemma MoveBeforeMultiset(s: seq<NodeId>, i: nat, j: nat)
    requires i < j < |s|
    ensures multiset(MoveBefore(s, i, j)) == multiset(s)
  {
    assert s[..j] == s[..i] + s[i..j];
    assert s == s[..j] + [s[j]] + s[j + 1..];
  }

  /** In a list without duplicates, `indexOf` finds each element at its own position. */
  lemma IndexOfUnique(s: seq<NodeId>, j: nat)
    requires j < |s| && NoDuplicates(s)
    ensures IndexOf(s, s[j]) == j
  {
    forall k | 0 <= k < j
      ensures s[k] != s[j]
    {
    }
    IndexOfIs(s, s[j], j);
  }

  /** After the move, `indexOf` finds the moved element at its new position. */
  lemma IndexOfMoved(s: seq<NodeId>, i: nat, j: nat)
    requires i < j < |s| && NoDuplicates(s)
    ensures IndexOf(MoveBefore(s, i, j), s[j]) == i
  {
    var m := MoveBefore(s, i, j);
    forall k | 0 <= k < i
      ensures m[k] != s[j]
    {
      assert m[k] == s[k];
    }
    IndexOfIs(m, s[j], i);
  }

  /** Where `indexOf` finds the moved element, before and after the move. */
  lemma MoveBeforeFinds(s: seq<NodeId>, i: nat, j: nat)
    requires i < j < |s| && NoDuplicates(s)
    ensures IndexOf(s, s[j]) == j && IndexOf(MoveBefore(s, i, j), s[j]) == i
  {
    IndexOfUnique(s, j);
    IndexOfMoved(s, i, j);
  }

  /** Cutting the moved element out of either list leaves the same list. */
  lemma MoveBeforeCut(s: seq<NodeId>, i: nat, j: nat)
    requires i < j < |s|
    ensures var m := MoveBefore(s, i, j);
            m[..i] + m[i + 1..] == s[..j] + s[j + 1..]
  {
    var m := MoveBefore(s, i, j);
    assert m[..i] == s[..i];
    assert m[i + 1..] == s[i..j] + s[j + 1..];
    assert s[..j] == s[..i] + s[i..j];
  }

  /** Moving an element keeps every other element in its relative order. */
  lemma MoveBeforeRemove(s: seq<NodeId>, i: nat, j: nat)
    requires i < j < |s| && NoDuplicates(s)
    ensures s[j] in MoveBefore(s, i, j) && Remove(MoveBefore(s, i, j), s[j]) == Remove(s, s[j])
  {
    MoveBeforeFinds(s, i, j);
    MoveBeforeCut(s, i, j);
  }

  /**
   * The two `insertBefore` calls of the swap together: div4 ends immediately
   * before div3, the children are the same (as a multiset, still without
   * duplicates), and every child other than div4 keeps its relative order.
   */
  lemma {:induction false} SwapEffect(s: seq<NodeId>, d3: NodeId, d4: NodeId)
    requires NoDuplicates(s) && d3 in s && d4 in s
    requires IndexOf(s, d3) < IndexOf(s, d4)
    ensures var i, j := IndexOf(s, d3), IndexOf(s, d4);
            var once := InsertBefore(s, d4, Some(d3));
            var m := MoveBefore(s, i, j);
            once == m && NoDuplicates(m) && NextSibling(m, d4) == Some(d3) &&
            InsertBefore(m, d3, NextSibling(m, d4)) == m &&
            m[i] == d4 && m[i + 1] == d3 &&
            multiset(m) == multiset(s) &&
            d4 in m && Remove(m, d4) == Remove(s, d4)
  {
    var i, j := IndexOf(s, d3), IndexOf(s, d4);
    var m := MoveBefore(s, i, j);
    FirstInsert(s, d3, d4);
    MoveBeforeNoDuplicates(s, i, j);
    SecondInsert(m, i, d3, d4);
    MoveBeforeMultiset(s, i, j);
    MoveBeforeRemove(s, i, j);
  }

  /** Parents and children agree, and no parent lists a child twice. */
  ghost predicate Tree(childNodes: map<NodeId, seq<NodeId>>, parentOf: map<NodeId, NodeId>)
  {
    (forall p :: p in childNodes ==> NoDuplicates(childNodes[p])) &&
    (forall p, i :: p in childNodes && 0 <= i < |childNodes[p]| ==>
       childNodes[p][i] in parentOf && parentOf[childNodes[p][i]] == p) &&
    (forall n :: n in parentOf ==> parentOf[n] in childNodes && n in childNodes[parentOf[n]])
  }

  /**
   * The page after `swapDiv3AndDiv4` when no swap is in progress: changed only
   * when both panels exist under one parent with div3 first.
   */
  function Swapped(childNodes: map<NodeId, seq<NodeId>>, parentOf: map<NodeId, NodeId>,
                   div3: Option<NodeId>, div4: Option<NodeId>): map<NodeId, seq<NodeId>>
    requires Tree(childNodes, parentOf)
  {
    if div3.None? || div4.None? then childNodes
    else if div3.value !in parentOf || div4.value !in parentOf then childNodes
    else if parentOf[div3.value] != parentOf[div4.value] then childNodes
    else
      var p := parentOf[div3.value];
      var s := childNodes[p];
      var i, j := IndexOf(s, div3.value), IndexOf(s, div4.value);
      if i < j then childNodes[p := MoveBefore(s, i, j)] else childNodes
  }

  /** Replacing one child list by a rearrangement of it keeps the tree. */
  lemma RearrangeKeepsTree(c: map<NodeId, seq<NodeId>>, po: map<NodeId, NodeId>, p: NodeId, m: seq<NodeId>)
    requires Tree(c, po) && p in c && NoDuplicates(m) && multiset(m) == multiset(c[p])
    ensures Tree(c[p := m], po)
  {
    forall x ensures x in m <==> x in c[p] {
      assert x in m <==> x in multiset(m);
    }
    var c' := c[p := m];
    forall q, i | q in c' && 0 <= i < |c'[q]| ensures c'[q][i] in po && po[c'[q][i]] == q {
      if q == p {
        assert m[i] in c[p];
      }
    }
  }

  /** The swap keeps the page a tree. */
  lemma SwappedIsTree(c: map<NodeId, seq<NodeId>>, po: map<NodeId, NodeId>, div3: Option<NodeId>, div4: Option<NodeId>)
    requires Tree(c, po)
    ensures Tree(Swapped(c, po, div3, div4), po)
  {
    if div3.Some? && div4.Some? && div3.value in po && div4.value in po && po[div3.value] == po[div4.value] {
      var p := po[div3.value];
      var s := c[p];
      var i, j := IndexOf(s, div3.value), IndexOf(s, div4.value);
      if i < j {
        SwapEffect(s, div3.value, div4.value);
        RearrangeKeepsTree(c, po, p, MoveBefore(s, i, j));
      }
    }
  }

  /**
   * The element a `:nth-child(n)` selector finds under the container p: its
   * n-th child, counting from 1, or nothing when it has fewer.
   */
  function NthChild(c: map<NodeId, seq<NodeId>>, p: NodeId, n: nat): (r: Option<NodeId>)
    ensures r.Some? <==> p in c && 1 <= n <= |c[p]|
    ensures r.Some? ==> r.value == c[p][n - 1]
  {
    if p in c && 1 <= n <= |c[p]| then Some(c[p][n - 1]) else None
  }

  /** Swapping the panels found by position exchanges the third and fourth child. */
  lemma SwapByPosition(c: map<NodeId, seq<NodeId>>, po: map<NodeId, NodeId>, p: NodeId)
    requires Tree(c, po) && p in c && |c[p]| >= 4
    ensures var s := c[p];
            Swapped(c, po, NthChild(c, p, 3), NthChild(c, p, 4)) == c[p := Exchanged(s)]
  {
    var s := c[p];
    IndexOfIs(s, s[2], 2);
    IndexOfIs(s, s[3], 3);
    assert MoveBefore(s, 2, 3) == Exchanged(s);
  }

  /**
   * Because the panels are looked up again by position on every call, a second
   * swap finds them exchanged and puts them back: the panels toggle.
   */
  lemma PositionalSwapToggles(c: map<NodeId, seq<NodeId>>, po: map<NodeId, NodeId>, p: NodeId)
    requires Tree(c, po) && p in c && |c[p]| >= 4
    ensures var once := Swapped(c, po, NthChild(c, p, 3), NthChild(c, p, 4));
            once != c && Tree(once, po) &&
            Swapped(once, po, NthChild(once, p, 3), NthChild(once, p, 4)) == c
  {
    var s := c[p];
    var x := Exchanged(s);
    var once := Swapped(c, po, NthChild(c, p, 3), NthChild(c, p, 4));
    SwapByPosition(c, po, p);
    assert once == c[p := x];
    SwappedIsTree(c, po, NthChild(c, p, 3), NthChild(c, p, 4));
    assert once[p][2] != c[p][2];
    SwapByPosition(once, po, p);
    ExchangedTwice(s);
    assert once[p := Exchanged(x)] == c;
  }

  /** The third and fourth elements exchanged. */
  function Exchanged(s: seq<NodeId>): (r: seq<NodeId>)
    requires |s| >= 4
    ensures |r| == |s|
  {
    s[2 := s[3]][3 := s[2]]
  }

  /** Exchanging twice restores the list. */
  lemma ExchangedTwice(s: seq<NodeId>)
    requires |s| >= 4
    ensures Exchanged(Exchanged(s)) == s
  {
  }

  /** In a tree, a node with a parent is listed once among that parent's children. */
  lemma ChildOfParent(c: map<NodeId, seq<NodeId>>, po: map<NodeId, NodeId>, n: NodeId)
    requires Tree(c, po) && n in po
    ensures po[n] in c && n in c[po[n]] && NoDuplicates(c[po[n]])
  {
  }

  /**
   * The two `insertBefore` calls of `swapDiv3AndDiv4` on one parent's child
   * list, when div3 comes first: div4 is moved to div3's place.
   */
  method MoveDiv4BeforeDiv3(children: seq<NodeId>, d3: NodeId, d4: NodeId) returns (moved: seq<NodeId>)
    requires NoDuplicates(children) && d3 in children && d4 in children
    requires IndexOf(children, d3) < IndexOf(children, d4)
    ensures moved == MoveBefore(children, IndexOf(children, d3), IndexOf(children, d4))
  {
    SwapEffect(children, d3, d4);
    moved := InsertBefore(children, d4, Some(d3));
    moved := InsertBefore(moved, d3, NextSibling(moved, d4));
  }

  /** A display element of the page the script reacts to. */
  datatype Effect = HideSection | ClickButton | ScheduleForceVisible | ScheduleSwap | ForceBothVisible

  /**
   * What one `checkVisibility` call sees: each panel missing (None) or present
   * with whether its computed display is not `none`; whether the section and the
   * button are found; whether `click()` throws.
   */
  datatype Observation = Observation(div3: Option<bool>, div4: Option<bool>, sectionFound: bool, buttonFound: bool, clickThrows: bool)

  /** The closure flags that persist between calls (`swapping` apart). */
  datatype Flags = Flags(hasClicked: bool, divVisible: bool)

  function AnyVisible(o: Observation): bool
  {
    o.div3 == Some(true) || o.div4 == Some(true)
  }

  /** `tryClickButton`: the new `hasClicked` and what the call did. */
  function ClickStep(hasClicked: bool, buttonFound: bool, clickThrows: bool): (bool, seq<Effect>)
  {
    if buttonFound && !hasClicked then
      if clickThrows then (hasClicked, [ClickButton]) else (true, [ClickButton, ScheduleForceVisible])
    else (hasClicked, [])
  }

  /**
   * The edge reaction of `checkVisibility`: on a rising edge hide the section,
   * try the button and schedule the swap; on a falling edge reset `hasClicked`.
   */
  function EdgeReaction(f: Flags, o: Observation): (bool, seq<Effect>)
  {
    var any := AnyVisible(o);
    if any && !f.divVisible then
      var step := ClickStep(f.hasClicked, o.buttonFound, o.clickThrows);
      (step.0, (if o.sectionFound then [HideSection] else []) + step.1 + [ScheduleSwap])
    else if !any && f.divVisible then (false, [])
    else (f.hasClicked, [])
  }

  /** Both panels exist and at least one of them is hidden. */
  predicate OneHidden(o: Observation)
  {
    o.div3.Some? && o.div4.Some? && (!o.div3.value || !o.div4.value)
  }

  /** `checkVisibility`: the new flags and what the call did, in order. */
  function VisibilityStep(f: Flags, o: Observation): (Flags, seq<Effect>)
  {
    var reaction := EdgeReaction(f, o);
    (Flags(reaction.0, AnyVisible(o)), reaction.1 + (if OneHidden(o) then [ForceBothVisible] else []))
  }

  /**
   * The button is clicked only when found and not yet clicked; `hasClicked`
   * becomes true only by a click that does not throw.
   */
  lemma ClickRule(hasClicked: bool, buttonFound: bool, clickThrows: bool)
    ensures ClickButton in ClickStep(hasClicked, buttonFound, clickThrows).1 <==> buttonFound && !hasClicked
    ensures ClickStep(hasClicked, buttonFound, clickThrows).0 <==> hasClicked || (buttonFound && !clickThrows)
  {
  }

  /**
   * Edge triggering: hiding, clicking and scheduling the swap happen only when
   * some panel has just become visible, and the swap is then always scheduled;
   * afterwards `divVisible` is the current "any panel visible".
   */
  lemma EdgeTriggered(f: Flags, o: Observation)
    ensures var (g, effects) := VisibilityStep(f, o);
            g.divVisible == AnyVisible(o) &&
            ((HideSection in effects || ClickButton in effects || ScheduleSwap in effects) ==> AnyVisible(o) && !f.divVisible) &&
            (AnyVisible(o) && !f.divVisible ==> ScheduleSwap in effects) &&
            (AnyVisible(o) && !f.divVisible && o.sectionFound ==> HideSection in effects)
  {
  }

  /** `hasClicked` goes from true to false exactly on a falling edge. */
  lemma ResetOnlyOnFallingEdge(f: Flags, o: Observation)
    ensures var g := VisibilityStep(f, o).0;
            (f.hasClicked && !g.hasClicked) <==> (f.hasClicked && !AnyVisible(o) && f.divVisible)
    ensures !AnyVisible(o) && f.divVisible ==> !VisibilityStep(f, o).0.hasClicked
  {
  }

  /** Both panels are forced visible when both exist and at least one is hidden. */
  lemma ForceRule(f: Flags, o: Observation)
    ensures ForceBothVisible in VisibilityStep(f, o).1 <==> OneHidden(o)
  {
  }

  /** Successive `checkVisibility` calls. */
  function Run(f: Flags, obs: seq<Observation>): (Flags, seq<Effect>)
    decreases |obs|
  {
    if obs == [] then (f, [])
    else
      var (g, first) := VisibilityStep(f, obs[0]);
      var (h, rest) := Run(g, obs[1..]);
      (h, first + rest)
  }

  function Clicks(effects: seq<Effect>): nat
  {
    multiset(effects)[ClickButton]
  }

  /**
   * While the panels stay visible the button is clicked at most once, and not
   * at all when they were already visible before.
   */
  lemma {:induction false} AtMostOneClickWhileVisible(f: Flags, obs: seq<Observation>)
    requires forall k :: 0 <= k < |obs| ==> AnyVisible(obs[k])
    ensures Clicks(Run(f, obs).1) <= (if f.divVisible then 0 else 1)
    decreases |obs|
  {
    if obs != [] {
      var (g, first) := VisibilityStep(f, obs[0]);
      assert g.divVisible;
      AtMostOneClickWhileVisible(g, obs[1..]);
      if f.divVisible {
        assert first == [] || first == [ForceBothVisible];
      }
    }
  }

  /** The page as the script sees it, and the script's closure flags. */
  class Panels {
    var hasClicked: bool
    var divVisible: bool
    var swapping: bool
    var childNodes: map<NodeId, seq<NodeId>>
    var parentOf: map<NodeId, NodeId>

    ghost predicate Valid()
      reads this
    {
      Tree(childNodes, parentOf)
    }

    constructor (children: map<NodeId, seq<NodeId>>, parents: map<NodeId, NodeId>)
      ensures childNodes == children && parentOf == parents
      ensures !hasClicked && !divVisible && !swapping
    {
      hasClicked, divVisible, swapping := false, false, false;
      childNodes, parentOf := children, parents;
    }

    /**
     * `swapDiv3AndDiv4`, given what the two selectors found. While a swap is in
     * progress the call does nothing; otherwise the page becomes `Swapped` and
     * the guard flag is cleared again on every path.
     */
    method SwapDiv3AndDiv4(div3: Option<NodeId>, div4: Option<NodeId>)
      requires Valid()
      modifies this`childNodes, this`swapping
      ensures Valid()
      ensures swapping == old(swapping)
      ensures childNodes == if old(swapping) then old(childNodes) else Swapped(old(childNodes), parentOf, div3, div4)
    {
      if swapping {
        return;
      }
      ghost var expected := Swapped(childNodes, parentOf, div3, div4);
      SwappedIsTree(childNodes, parentOf, div3, div4);
      swapping := true;
      if div3.None? || div4.None? {
        swapping := false;
        return;
      }
      var d3, d4 := div3.value, div4.value;
      if d3 !in parentOf || d4 !in parentOf || parentOf[d3] != parentOf[d4] {
        swapping := false;
        return;
      }
      var parent := parentOf[d3];
      ChildOfParent(childNodes, parentOf, d3);
      ChildOfParent(childNodes, parentOf, d4);
      var children := childNodes[parent];
      var i3, i4 := IndexOf(children, d3), IndexOf(children, d4);
      if i3 < i4 {
        var moved := MoveDiv4BeforeDiv3(children, d3, d4);
        childNodes := childNodes[parent := moved];
      }
      assert childNodes == expected;
      swapping := false;
    }

    /** `tryClickButton`. */
    method TryClickButton(buttonFound: bool, clickThrows: bool) returns (effects: seq<Effect>)
      modifies this`hasClicked
      ensures (hasClicked, effects) == ClickStep(old(hasClicked), buttonFound, clickThrows)
    {
      effects := [];
      if buttonFound && !hasClicked {
        if clickThrows {
          effects := [ClickButton];
        } else {
          hasClicked := true;
          effects := [ClickButton, ScheduleForceVisible];
        }
      }
    }

    /** `checkVisibility`, the mutation observer's callback. */
    method CheckVisibility(o: Observation) returns (effects: seq<Effect>)
      modifies this`hasClicked, this`divVisible
      ensures (Flags(hasClicked, divVisible), effects) == VisibilityStep(Flags(old(hasClicked), old(divVisible)), o)
    {
      var isAnyDivVisible := o.div3 == Some(true) || o.div4 == Some(true);
      effects := [];
      if isAnyDivVisible && !divVisible {
        if o.sectionFound {
          effects := [HideSection];
        }
        var clickEffects := TryClickButton(o.buttonFound, o.clickThrows);
        effects := effects + clickEffects + [ScheduleSwap];
      } else if !isAnyDivVisible && divVisible {
        hasClicked := false;
      }
      assert (hasClicked, effects) == EdgeReaction(Flags(old(hasClicked), old(divVisible)), o);
      divVisible := isAnyDivVisible;
      if o.div3.Some? && o.div4.Some? && (!o.div3.value || !o.div4.value) {
        effects := effects + [ForceBothVisible];
      } else {
        assert effects + [] == effects;
      }
    }
  }
}
