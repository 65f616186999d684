/** The moves of the text extraction loop: into a child, or out to the place after a node.  Each move
    goes to the next boundary point of the document, so nothing is skipped and the loop ends. */
module RangeWalk {
  import opened Options
  import opened Document
  import opened DocumentOrder
  import opened Lexicographic
  import opened TreeWalker
  import opened RangeText

  /** Entering child o of n: no boundary point lies in between. */
  lemma IntoChild(d: Doc, n: Node, o: nat, g: Point)
    requires n in d.nodes && o < |Kids(d, n)| && ValidPoint(d, g) && SameTree(d, n, g.node)
    ensures Kids(d, n)[o] in d.nodes && SameTree(d, Kids(d, n)[o], g.node)
    ensures Order(d, Point(n, o), g) < 0 <==> Order(d, Point(Kids(d, n)[o], 0), g) <= 0
  {
    var c := Kids(d, n)[o];
    IndexOfKid(d, n, o);
    BranchIsUnique(d, n, c, o);
    if g.node == n {
      SameNodeOrder(d, n, o, g.offset);
      BelowKeys(d, n, g.offset, c, [0]);
    } else if !Above(d, n, g.node) {
      OrderOutside(d, n, [2 * o], g);
      OrderOutside(d, n, [2 * o + 1] + [0], g);
      assert NodeKey(d, n) + ([2 * o + 1] + [0]) == Key(d, Point(c, 0));
    } else {
      BelowKeys(d, n, o, g.node, [2 * g.offset]);
      var i := BranchTo(d, n, g.node);
      if i < o {
        ForkKeys(d, n, g.node, c, [2 * g.offset], [0]);
      } else if i > o {
        ForkKeys(d, n, c, g.node, [0], [2 * g.offset]);
      } else if g.node == c {
        SameNodeOrder(d, c, 0, g.offset);
      } else {
        BelowKeys(d, c, 0, g.node, [2 * g.offset]);
      }
    }
  }

  /** Leaving n at or after its last child for the place after n in its parent. */
  lemma OutToParent(d: Doc, n: Node, o: int, g: Point)
    requires n in d.nodes && Parent(d, n).Some? && o >= |Kids(d, n)|
    requires ValidPoint(d, g) && SameTree(d, n, g.node) && (g.node == n ==> g.offset <= o)
    ensures SameTree(d, Parent(d, n).value, g.node)
    ensures Order(d, Point(n, o), g) < 0 <==> Order(d, Point(Parent(d, n).value, Index(d, n) + 1), g) <= 0
  {
    var p := Parent(d, n).value;
    var i := Index(d, n);
    BranchIsUnique(d, p, n, i);
    if g.node == n {
      SameNodeOrder(d, n, o, g.offset);
      BelowKeys(d, p, i + 1, n, [2 * g.offset]);
    } else if g.node == p {
      SameNodeOrder(d, p, i + 1, g.offset);
      BelowKeys(d, p, g.offset, n, [2 * o]);
    } else if !Above(d, p, g.node) {
      OrderOutside(d, p, [2 * (i + 1)], g);
      OrderOutside(d, p, [2 * i + 1] + [2 * o], g);
      assert NodeKey(d, p) + ([2 * i + 1] + [2 * o]) == Key(d, Point(n, o));
    } else {
      BelowKeys(d, p, i + 1, g.node, [2 * g.offset]);
      var j := BranchTo(d, p, g.node);
      if j < i {
        ForkKeys(d, p, g.node, n, [2 * g.offset], [2 * o]);
      } else if j > i {
        ForkKeys(d, p, n, g.node, [2 * o], [2 * g.offset]);
      } else {
        BelowKeys(d, n, o, g.node, [2 * g.offset]);
      }
    }
  }

  /** No boundary point of the tree comes after the end of its root. */
  lemma NothingAfterRoot(d: Doc, n: Node, o: int, g: Point)
    requires n in d.nodes && Parent(d, n).None? && o >= |Kids(d, n)|
    requires ValidPoint(d, g) && SameTree(d, n, g.node) && (g.node == n ==> g.offset <= o)
    ensures Order(d, Point(n, o), g) >= 0
  {
    RootIsAbove(d, g.node);
    if g.node == n {
      SameNodeOrder(d, n, o, g.offset);
    } else {
      BelowKeys(d, n, o, g.node, [2 * g.offset]);
    }
  }

  // ---------- What is left to walk ----------

  ghost function Size(d: Doc, n: Node): nat
    requires n in d.nodes
    decreases d.height - d.level[n], |Kids(d, n)| + 1
  {
    assert NodeOk(d, n);
    1 + KidsSize(d, n, 0)
  }

  ghost function KidsSize(d: Doc, n: Node, lo: nat): nat
    requires n in d.nodes
    decreases d.height - d.level[n], |Kids(d, n)| - lo
  {
    if lo >= |Kids(d, n)| then 0 else Size(d, Kids(d, n)[lo]) + 1 + KidsSize(d, n, lo + 1)
  }

  /** The number of moves that remain from (n, o) to the end of the tree. */
  ghost function Remaining(d: Doc, n: Node, o: nat): nat
    requires n in d.nodes
    decreases d.level[n]
  {
    KidsSize(d, n, o) + match Parent(d, n)
                        case None => 0
                        case Some(p) => 1 + Remaining(d, p, Index(d, n) + 1)
  }

  lemma RemainingInto(d: Doc, n: Node, o: nat)
    requires n in d.nodes && o < |Kids(d, n)|
    ensures Kids(d, n)[o] in d.nodes && Remaining(d, Kids(d, n)[o], 0) < Remaining(d, n, o)
  {
    var c := Kids(d, n)[o];
    IndexOfKid(d, n, o);
    assert Remaining(d, c, 0) == KidsSize(d, c, 0) + 1 + Remaining(d, n, o + 1);
    assert KidsSize(d, n, o) == Size(d, c) + 1 + KidsSize(d, n, o + 1);
  }

  // ---------- The text gained by a move ----------

  lemma CharactersInTree(d: Doc, r: Node, ns: seq<Node>)
    requires r in d.nodes && LeafNodes(d, r, ns)
    ensures forall i | 0 <= i < |Characters(d, r, ns)| ::
              Characters(d, r, ns)[i].node in d.nodes && SameTree(d, Characters(d, r, ns)[i].node, r)
  {
    var s := Characters(d, r, ns);
    forall i | 0 <= i < |s|
      ensures s[i].node in d.nodes && SameTree(d, s[i].node, r)
    {
      var k := CharactersComeFrom(d, r, ns, i);
    }
  }

  /** A move that no character of ns lies in between leaves the text still to be read unchanged. */
  lemma SelectAfterMove(d: Doc, a: Point, b: Point, e: Point, r: Node, ns: seq<Node>)
    requires a.node in d.nodes && b.node in d.nodes && e.node in d.nodes && r in d.nodes && LeafNodes(d, r, ns)
    requires forall g | IsCharacter(d, g) && g.node in ns && SameTree(d, g.node, r) ::
               Order(d, a, g) <= 0 <==> Order(d, b, g) <= 0
    ensures Select(d, a, e, Characters(d, r, ns)) == Select(d, b, e, Characters(d, r, ns))
  {
    var s := Characters(d, r, ns);
    forall i | 0 <= i < |s|
      ensures Within(d, a, e, s[i]) == Within(d, b, e, s[i])
    {
      var k := CharactersComeFrom(d, r, ns, i);
      assert s[i].node in ns;
    }
    SelectCongruent(d, a, b, e, s);
  }

  lemma TextFromAnyRoot(d: Doc, a: Point, e: Point, r: Node)
    requires a.node in d.nodes && e.node in d.nodes && r in d.nodes && SameTree(d, a.node, r)
    ensures TextBetween(d, a, e) == Select(d, a, e, Characters(d, r, TreeLeaves(d, r)))
  {
    CharactersAnyRoot(d, a.node, r, TreeLeaves(d, r));
  }

  lemma TextIntoChild(d: Doc, n: Node, o: nat, e: Point)
    requires n in d.nodes && o < |Kids(d, n)| && e.node in d.nodes
    ensures Kids(d, n)[o] in d.nodes
    ensures TextBetween(d, Point(n, o), e) == TextBetween(d, Point(Kids(d, n)[o], 0), e)
  {
    var c := Kids(d, n)[o];
    var a, b := Point(n, o), Point(c, 0);
    IndexOfKid(d, n, o);
    assert !IsText(d, n) by {
      if IsText(d, n) {
        TextHasNoKids(d, n);
      }
    }
    forall g | IsCharacter(d, g) && g.node in TreeLeaves(d, n) && SameTree(d, g.node, n)
      ensures Order(d, a, g) <= 0 <==> Order(d, b, g) <= 0
    {
      IntoChild(d, n, o, g);
      OrderIsTotal(d, a, g, a);
    }
    SelectAfterMove(d, a, b, e, n, TreeLeaves(d, n));
    TextFromAnyRoot(d, b, e, n);
  }

  lemma TextOutOfElement(d: Doc, n: Node, o: nat, e: Point)
    requires n in d.nodes && !IsText(d, n) && o >= |Kids(d, n)| && Parent(d, n).Some? && e.node in d.nodes
    ensures TextBetween(d, Point(n, o), e) == TextBetween(d, Point(Parent(d, n).value, Index(d, n) + 1), e)
  {
    var p := Parent(d, n).value;
    var a, b := Point(n, o), Point(p, Index(d, n) + 1);
    forall g | IsCharacter(d, g) && g.node in TreeLeaves(d, n) && SameTree(d, g.node, n)
      ensures Order(d, a, g) <= 0 <==> Order(d, b, g) <= 0
    {
      OutToParent(d, n, o, g);
      OrderIsTotal(d, a, g, a);
    }
    SelectAfterMove(d, a, b, e, n, TreeLeaves(d, n));
    TextFromAnyRoot(d, b, e, n);
  }

  /** Order is the same for all points of a text node, seen from elsewhere. */
  lemma TextNodeOutside(d: Doc, t: Node, o: int, u: int, e: Point)
    requires t in d.nodes && IsText(d, t) && e.node in d.nodes && SameTree(d, t, e.node) && e.node != t
    ensures Order(d, Point(t, o), e) == Order(d, Point(t, u), e) != 0
    ensures Order(d, e, Point(t, o)) == Order(d, e, Point(t, u)) == -Order(d, Point(t, o), e)
  {
    TextHasNoKids(d, t);
    assert !Above(d, t, e.node) by {
      if Above(d, t, e.node) {
        var i := BranchTo(d, t, e.node);
      }
    }
    OrderOutside(d, t, [2 * o], e);
    OrderOutside(d, t, [2 * u], e);
    OrderIsTotal(d, Point(t, o), e, e);
    OrderIsTotal(d, Point(t, u), e, e);
  }

  /** Between an offset of a text node and an end point beyond it, the text begins with the rest of the
      data; within one text node it is the slice. */
  lemma TextOfSlice(d: Doc, t: Node, o: nat, e: Point)
    requires t in d.nodes && IsText(d, t) && o <= |Data(d, t)|
    requires ValidPoint(d, e) && e.node == t && o <= e.offset
    ensures TextBetween(d, Point(t, o), e) == Data(d, t)[o..e.offset]
  {
    hide Select, Characters, LeafNodes, TreeLeaves, Order, Sorted;
    var a := Point(t, o);
    var before, after := SplitAtText(d, t);
    TextHasNoKids(d, t);
    SliceOfNode(d, t, o, e);
    NothingInOtherLeaves(d, t, o, e.offset, before);
    NothingInOtherLeaves(d, t, o, e.offset, after);
    SelectThree(d, a, e, t, before, after);
  }

  lemma SliceOfNode(d: Doc, t: Node, o: nat, e: Point)
    requires t in d.nodes && IsText(d, t) && ValidPoint(d, e) && e.node == t && o <= e.offset
    ensures Select(d, Point(t, o), e, CharactersOfNode(d, t)) == Data(d, t)[o..e.offset]
  {
    forall i | 0 <= i < |Data(d, t)|
      ensures Within(d, Point(t, o), e, Point(t, i)) <==> o <= i < e.offset
    {
      SameNodeOrder(d, t, o, i);
      SameNodeOrder(d, t, i, e.offset);
    }
    SelectSlice(d, Point(t, o), e, t, 0, o, e.offset);
    assert CharactersOfNode(d, t)[0..] == CharactersOfNode(d, t);
  }

  lemma NothingInOtherLeaves(d: Doc, t: Node, o: int, u: int, ns: seq<Node>)
    requires t in d.nodes && IsText(d, t) && LeafNodes(d, t, ns) && t !in ns
    ensures Select(d, Point(t, o), Point(t, u), Characters(d, t, ns)) == ""
  {
    var s := Characters(d, t, ns);
    CharactersInTree(d, t, ns);
    forall i | 0 <= i < |s|
      ensures !Within(d, Point(t, o), Point(t, u), s[i])
    {
      var k := CharactersComeFrom(d, t, ns, i);
      assert ns[k] in ns;
      TextNodeOutside(d, t, o, u, s[i]);
    }
    SelectNone(d, Point(t, o), Point(t, u), s);
  }

  /** The leaves of the tree around a text node, those before it and those after it. */
  lemma SplitAtText(d: Doc, t: Node) returns (before: seq<Node>, after: seq<Node>)
    requires t in d.nodes && IsText(d, t)
    ensures LeafNodes(d, t, before) && LeafNodes(d, t, after) && t !in before && t !in after
    ensures TreeLeaves(d, t) == before + [t] + after
    ensures Sorted(d, before + [t] + after)
  {
    hide Leaves, LeafNodes, Sorted;
    TextHasNoKids(d, t);
    LeavesOfTree(d, t);
    RootIsAbove(d, t);
    LeavesAreChildless(d, Root(d, t), t);
    var s := Leaves(d, Root(d, t));
    var i :| 0 <= i < |s| && s[i] == t;
    PartsOfLeaves(d, t, s, i);
    before, after := s[..i], s[i + 1..];
  }

  lemma PartsOfLeaves(d: Doc, t: Node, s: seq<Node>, i: nat)
    requires t in d.nodes && LeafNodes(d, t, s) && Sorted(d, s) && i < |s| && s[i] == t
    ensures s == s[..i] + [t] + s[i + 1..]
    ensures LeafNodes(d, t, s[..i]) && LeafNodes(d, t, s[i + 1..])
    ensures t !in s[..i] && t !in s[i + 1..]
  {
    LexZero(NodeKey(d, t), NodeKey(d, t));
    assert forall j | 0 <= j < i :: s[j] != t;
    assert forall j | i < j < |s| :: s[j] != t;
  }

  lemma CharactersOfOne(d: Doc, t: Node)
    requires t in d.nodes && Kids(d, t) == []
    ensures LeafNodes(d, t, [t]) && Characters(d, t, [t]) == CharactersOfNode(d, t)
  {
    assert [t][1..] == [];
    assert Characters(d, t, [t]) == CharactersOfNode(d, t) + [];
  }

  lemma LeafNodesConcat(d: Doc, r: Node, a: seq<Node>, b: seq<Node>)
    requires r in d.nodes && LeafNodes(d, r, a) && LeafNodes(d, r, b)
    ensures LeafNodes(d, r, a + b)
  {
  }

  lemma CharactersOfThree(d: Doc, t: Node, before: seq<Node>, after: seq<Node>)
    requires t in d.nodes && Kids(d, t) == []
    requires LeafNodes(d, t, before) && LeafNodes(d, t, after) && LeafNodes(d, t, before + [t] + after)
    ensures Characters(d, t, before + [t] + after)
         == Characters(d, t, before) + CharactersOfNode(d, t) + Characters(d, t, after)
  {
    CharactersOfOne(d, t);
    hide Characters, LeafNodes, SameTree;
    LeafNodesConcat(d, t, before, [t]);
    CharactersConcat(d, t, before + [t], after);
    CharactersConcat(d, t, before, [t]);
  }

  lemma SelectThree(d: Doc, a: Point, e: Point, t: Node, before: seq<Node>, after: seq<Node>)
    requires a.node in d.nodes && e.node in d.nodes && t in d.nodes && Kids(d, t) == []
    requires LeafNodes(d, t, before) && LeafNodes(d, t, after) && LeafNodes(d, t, before + [t] + after)
    ensures Select(d, a, e, Characters(d, t, before + [t] + after))
         == Select(d, a, e, Characters(d, t, before))
            + Select(d, a, e, CharactersOfNode(d, t))
            + Select(d, a, e, Characters(d, t, after))
  {
    hide Select, Characters, LeafNodes, Within;
    CharactersOfThree(d, t, before, after);
    var x, y, z := Characters(d, t, before), CharactersOfNode(d, t), Characters(d, t, after);
    assert AllCharacters(d, x + y);
    SelectConcat(d, a, e, x + y, z);
    SelectConcat(d, a, e, x, y);
  }

  /** The characters of a text node t left between a point of t and a point beyond t. */
  lemma TextNodeAhead(d: Doc, t: Node, o: nat, e: Point)
    requires t in d.nodes && IsText(d, t) && o <= |Data(d, t)|
    requires ValidPoint(d, e) && e.node != t && SameTree(d, t, e.node) && Order(d, Point(t, o), e) < 0
    ensures Select(d, Point(t, o), e, CharactersOfNode(d, t)) == Data(d, t)[o..]
  {
    forall i | 0 <= i < |Data(d, t)|
      ensures Within(d, Point(t, o), e, Point(t, i)) <==> o <= i < |Data(d, t)|
    {
      SameNodeOrder(d, t, o, i);
      TextNodeOutside(d, t, o, i, e);
    }
    SelectSlice(d, Point(t, o), e, t, 0, o, |Data(d, t)|);
    assert CharactersOfNode(d, t)[0..] == CharactersOfNode(d, t);
  }

  /** None of the characters of t are left once t has been left. */
  lemma TextNodeBehind(d: Doc, t: Node, e: Point)
    requires t in d.nodes && IsText(d, t) && Parent(d, t).Some? && e.node in d.nodes
    ensures Select(d, Point(Parent(d, t).value, Index(d, t) + 1), e, CharactersOfNode(d, t)) == ""
  {
    var b := Point(Parent(d, t).value, Index(d, t) + 1);
    TextHasNoKids(d, t);
    var s := CharactersOfNode(d, t);
    forall i | 0 <= i < |s|
      ensures !Within(d, b, e, s[i])
    {
      OutToParent(d, t, |Data(d, t)|, Point(t, i));
      SameNodeOrder(d, t, |Data(d, t)|, i);
    }
    SelectNone(d, b, e, s);
  }

  /** Leaving t makes no difference to the characters of other nodes. */
  lemma OtherTextUnaffected(d: Doc, t: Node, o: nat, e: Point, ns: seq<Node>)
    requires t in d.nodes && IsText(d, t) && o <= |Data(d, t)| && Parent(d, t).Some? && e.node in d.nodes
    requires LeafNodes(d, t, ns) && t !in ns
    ensures Select(d, Point(t, o), e, Characters(d, t, ns))
         == Select(d, Point(Parent(d, t).value, Index(d, t) + 1), e, Characters(d, t, ns))
  {
    var a, b := Point(t, o), Point(Parent(d, t).value, Index(d, t) + 1);
    TextHasNoKids(d, t);
    forall g | IsCharacter(d, g) && g.node in ns && SameTree(d, g.node, t)
      ensures Order(d, a, g) <= 0 <==> Order(d, b, g) <= 0
    {
      OutToParent(d, t, o, g);
      OrderIsTotal(d, a, g, a);
    }
    SelectAfterMove(d, a, b, e, t, ns);
  }

  lemma TextOutOfText(d: Doc, t: Node, o: nat, e: Point)
    requires t in d.nodes && IsText(d, t) && o <= |Data(d, t)| && Parent(d, t).Some?
    requires ValidPoint(d, e) && e.node != t && SameTree(d, t, e.node) && Order(d, Point(t, o), e) < 0
    ensures TextBetween(d, Point(t, o), e)
         == Data(d, t)[o..] + TextBetween(d, Point(Parent(d, t).value, Index(d, t) + 1), e)
  {
    hide Select, Characters, LeafNodes, Order, TreeLeaves, Sorted;
    var a, b := Point(t, o), Point(Parent(d, t).value, Index(d, t) + 1);
    var before, after := SplitAtText(d, t);
    TextHasNoKids(d, t);
    SortedPrefix(d, before + [t], after);
    NothingBefore(d, a, e, t, before);
    TextNodeAhead(d, t, o, e);
    TextNodeBehind(d, t, e);
    OtherTextUnaffected(d, t, o, e, before);
    OtherTextUnaffected(d, t, o, e, after);
    SelectThree(d, a, e, t, before, after);
    SelectThree(d, b, e, t, before, after);
    TextFromAnyRoot(d, b, e, t);
  }

  lemma SortedPrefix(d: Doc, s: seq<Node>, t: seq<Node>)
    requires Sorted(d, s + t)
    ensures Sorted(d, s)
  {
    assert forall i | 0 <= i < |s| :: (s + t)[i] == s[i];
  }

  /** Leaves that come before a text node hold no character after a point of it. */
  lemma NothingBefore(d: Doc, a: Point, e: Point, t: Node, before: seq<Node>)
    requires t in d.nodes && IsText(d, t) && a.node == t && e.node in d.nodes
    requires LeafNodes(d, t, before) && Sorted(d, before + [t])
    ensures Select(d, a, e, Characters(d, t, before)) == ""
  {
    var s := Characters(d, t, before);
    TextHasNoKids(d, t);
    forall i | 0 <= i < |s|
      ensures !Within(d, a, e, s[i])
    {
      var k := CharactersComeFrom(d, t, before, i);
      assert (before + [t])[k] == s[i].node && (before + [t])[|before|] == t;
      LexZero(NodeKey(d, t), NodeKey(d, t));
      LeafKeysDecide(d, s[i], a);
      OrderIsTotal(d, s[i], a, a);
    }
    SelectNone(d, a, e, s);
  }

  lemma TextFromEnd(d: Doc, e: Point)
    requires e.node in d.nodes
    ensures TextBetween(d, e, e) == ""
  {
    var s := Characters(d, e.node, TreeLeaves(d, e.node));
    forall i | 0 <= i < |s|
      ensures !Within(d, e, e, s[i])
    {
      OrderIsTotal(d, e, s[i], e);
    }
    SelectNone(d, e, e, s);
  }

  /** Nothing stands between two points in reverse order. */
  lemma TextBackwards(d: Doc, a: Point, e: Point)
    requires a.node in d.nodes && e.node in d.nodes && Order(d, e, a) <= 0
    ensures TextBetween(d, a, e) == ""
  {
    var s := Characters(d, a.node, TreeLeaves(d, a.node));
    forall i | 0 <= i < |s|
      ensures !Within(d, a, e, s[i])
    {
      OrderIsTotal(d, e, a, s[i]);
      OrderIsTotal(d, s[i], e, e);
    }
    SelectNone(d, a, e, s);
  }
}
