/** The text of a range, as the characters whose place lies between two boundary points. */
module RangeText {
  import opened Options
  import opened Document
  import opened DocumentOrder
  import opened Lexicographic
  import opened TreeWalker

  /** The offset lies inside the node: within the data of a text node, within the child list otherwise. */
  predicate ValidPoint(d: Doc, p: Point)
  {
    && p.node in d.nodes
    && 0 <= p.offset <= if IsText(d, p.node) then |Data(d, p.node)| else |Kids(d, p.node)|
  }

  /** A character, named by the boundary point just before it. */
  predicate IsCharacter(d: Doc, p: Point)
  {
    p.node in d.nodes && IsText(d, p.node) && 0 <= p.offset < |Data(d, p.node)|
  }

  predicate AllCharacters(d: Doc, s: seq<Point>)
  {
    forall i | 0 <= i < |s| :: IsCharacter(d, s[i])
  }

  /** Nodes of the tree of r that have no children. */
  ghost predicate LeafNodes(d: Doc, r: Node, ns: seq<Node>)
    requires r in d.nodes
  {
    forall i | 0 <= i < |ns| :: ns[i] in d.nodes && Kids(d, ns[i]) == [] && SameTree(d, ns[i], r)
  }

  function CharactersOfNode(d: Doc, t: Node): (s: seq<Point>)
    requires t in d.nodes
    ensures AllCharacters(d, s)
    ensures forall i | 0 <= i < |s| :: s[i] == Point(t, i)
    ensures |s| == if IsText(d, t) then |Data(d, t)| else 0
  {
    if IsText(d, t) then seq(|Data(d, t)|, i => Point(t, i)) else []
  }

  /** The characters of the nodes of the list, one node after the other. */
  ghost function Characters(d: Doc, r: Node, ns: seq<Node>): (s: seq<Point>)
    requires r in d.nodes && LeafNodes(d, r, ns)
    ensures AllCharacters(d, s)
  {
    if ns == [] then [] else CharactersOfNode(d, ns[0]) + Characters(d, r, ns[1..])
  }

  lemma {:induction false} CharactersConcat(d: Doc, r: Node, a: seq<Node>, b: seq<Node>)
    requires r in d.nodes && LeafNodes(d, r, a) && LeafNodes(d, r, b)
    ensures Characters(d, r, a + b) == Characters(d, r, a) + Characters(d, r, b)
  {
    hide SameTree, Kids;
    if a == [] {
      assert a + b == b;
    } else {
      assert (a + b)[1..] == a[1..] + b;
      CharactersConcat(d, r, a[1..], b);
    }
  }

  lemma {:induction false} CharactersComeFrom(d: Doc, r: Node, ns: seq<Node>, i: nat) returns (k: nat)
    requires r in d.nodes && LeafNodes(d, r, ns) && i < |Characters(d, r, ns)|
    ensures k < |ns| && Characters(d, r, ns)[i].node == ns[k]
  {
    hide SameTree, Kids;
    var s := CharactersOfNode(d, ns[0]);
    if i < |s| {
      k := 0;
    } else {
      k := CharactersComeFrom(d, r, ns[1..], i - |s|);
      k := k + 1;
    }
  }

  /** The character stands at or after a and before b. */
  ghost predicate Within(d: Doc, a: Point, b: Point, p: Point)
    requires a.node in d.nodes && b.node in d.nodes && p.node in d.nodes
  {
    Order(d, a, p) <= 0 && Order(d, p, b) < 0
  }

  /** The string of those characters of s that stand between a and b. */
  ghost function Select(d: Doc, a: Point, b: Point, s: seq<Point>): string
    requires a.node in d.nodes && b.node in d.nodes && AllCharacters(d, s)
  {
    if s == [] then ""
    else (if Within(d, a, b, s[0]) then [Data(d, s[0].node)[s[0].offset]] else "") + Select(d, a, b, s[1..])
  }

  /** The leaves of the tree that n belongs to. */
  ghost function TreeLeaves(d: Doc, n: Node): (s: seq<Node>)
    requires n in d.nodes
    ensures LeafNodes(d, n, s)
  {
    LeavesOfTree(d, n);
    Leaves(d, Root(d, n))
  }

  lemma LeavesOfTree(d: Doc, n: Node)
    requires n in d.nodes
    ensures LeafNodes(d, n, Leaves(d, Root(d, n))) && Sorted(d, Leaves(d, Root(d, n)))
  {
    hide Leaves;
    var s := Leaves(d, Root(d, n));
    LeavesAreSorted(d, Root(d, n));
    forall i | 0 <= i < |s|
      ensures s[i] in d.nodes && Kids(d, s[i]) == [] && SameTree(d, s[i], n)
    {
      assert s[i] in s;
      AboveIsInTree(d, Root(d, n), s[i]);
    }
  }

  /** The text between two boundary points: every character of the document that stands between
      them, in document order. */
  ghost function TextBetween(d: Doc, a: Point, b: Point): string
    requires a.node in d.nodes && b.node in d.nodes
  {
    Select(d, a, b, Characters(d, a.node, TreeLeaves(d, a.node)))
  }

  lemma {:induction false} SelectConcat(d: Doc, a: Point, b: Point, s: seq<Point>, t: seq<Point>)
    requires a.node in d.nodes && b.node in d.nodes && AllCharacters(d, s) && AllCharacters(d, t)
    ensures Select(d, a, b, s + t) == Select(d, a, b, s) + Select(d, a, b, t)
  {
    if s == [] {
      assert s + t == t;
    } else {
      assert (s + t)[1..] == s[1..] + t;
      SelectConcat(d, a, b, s[1..], t);
    }
  }

  lemma {:induction false} SelectCongruent(d: Doc, a: Point, c: Point, b: Point, s: seq<Point>)
    requires a.node in d.nodes && b.node in d.nodes && c.node in d.nodes && AllCharacters(d, s)
    requires forall i | 0 <= i < |s| :: Within(d, a, b, s[i]) == Within(d, c, b, s[i])
    ensures Select(d, a, b, s) == Select(d, c, b, s)
  {
    if s != [] {
      SelectCongruent(d, a, c, b, s[1..]);
    }
  }

  lemma {:induction false} SelectNone(d: Doc, a: Point, b: Point, s: seq<Point>)
    requires a.node in d.nodes && b.node in d.nodes && AllCharacters(d, s)
    requires forall i | 0 <= i < |s| :: !Within(d, a, b, s[i])
    ensures Select(d, a, b, s) == ""
  {
    if s != [] {
      SelectNone(d, a, b, s[1..]);
    }
  }

  /** The characters lo, ..., hi - 1 of one text node. */
  lemma {:induction false} SelectSlice(d: Doc, a: Point, b: Point, t: Node, k: nat, lo: nat, hi: nat)
    requires a.node in d.nodes && b.node in d.nodes && t in d.nodes && IsText(d, t)
    requires k <= lo <= hi <= |Data(d, t)|
    requires forall i | k <= i < |Data(d, t)| :: Within(d, a, b, Point(t, i)) <==> lo <= i < hi
    ensures Select(d, a, b, CharactersOfNode(d, t)[k..]) == Data(d, t)[lo..hi]
    decreases |Data(d, t)| - k
  {
    var s := CharactersOfNode(d, t);
    if k < |s| {
      assert s[k..][1..] == s[k + 1..] && s[k..][0] == s[k] == Point(t, k);
      if k < lo {
        SelectSlice(d, a, b, t, k + 1, lo, hi);
      } else if lo < hi {
        SelectSlice(d, a, b, t, k + 1, lo + 1, hi);
        assert Data(d, t)[lo..hi] == [Data(d, t)[lo]] + Data(d, t)[lo + 1..hi];
      } else {
        SelectNone(d, a, b, s[k..]);
      }
    }
  }

  // ---------- Additivity ----------

  /** s is in strict document order. */
  ghost predicate InOrder(d: Doc, s: seq<Point>)
  {
    && AllCharacters(d, s)
    && forall i, j | 0 <= i < j < |s| :: Order(d, s[i], s[j]) < 0
  }

  lemma InOrderConcat(d: Doc, s: seq<Point>, t: seq<Point>)
    requires InOrder(d, s) && InOrder(d, t)
    requires forall i, j | 0 <= i < |s| && 0 <= j < |t| :: Order(d, s[i], t[j]) < 0
    ensures InOrder(d, s + t)
  {
  }

  /** Points of two different childless nodes are ordered as the nodes are. */
  lemma LeafKeysDecide(d: Doc, p: Point, q: Point)
    requires p.node in d.nodes && q.node in d.nodes && SameTree(d, p.node, q.node)
    requires Kids(d, p.node) == [] && Kids(d, q.node) == []
    requires Lex(NodeKey(d, p.node), NodeKey(d, q.node)) < 0
    ensures Order(d, p, q) < 0
  {
    var a, b := NodeKey(d, p.node), NodeKey(d, q.node);
    LexZero(a, b);
    assert !Above(d, p.node, q.node) by {
      if Above(d, p.node, q.node) {
        var i := BranchTo(d, p.node, q.node);
      }
    }
    assert !Above(d, q.node, p.node) by {
      if Above(d, q.node, p.node) {
        var i := BranchTo(d, q.node, p.node);
      }
    }
    OrderOutside(d, p.node, [2 * p.offset], q);
    OrderOutside(d, q.node, [2 * q.offset], Point(p.node, 0));
    LexAntisymmetric(a, Key(d, q));
    LexAntisymmetric(b, Key(d, Point(p.node, 0)));
    OrderOutside(d, p.node, [0], q);
    LexAntisymmetric(a, b);
    PrefixIsAbove(d, p.node, q.node);
    PrefixIsAbove(d, q.node, p.node);
    LexNotPrefix(b, [2 * q.offset], a);
    LexAntisymmetric(Key(d, q), a);
  }

  lemma {:induction false} CharactersInOrder(d: Doc, r: Node, ns: seq<Node>)
    requires r in d.nodes && LeafNodes(d, r, ns) && Sorted(d, ns)
    ensures InOrder(d, Characters(d, r, ns))
  {
    if ns != [] {
      var s, t := CharactersOfNode(d, ns[0]), Characters(d, r, ns[1..]);
      assert Sorted(d, ns[1..]);
      CharactersInOrder(d, r, ns[1..]);
      forall i, j | 0 <= i < j < |s|
        ensures Order(d, s[i], s[j]) < 0
      {
        SameNodeOrder(d, ns[0], i, j);
      }
      forall i, j | 0 <= i < |s| && 0 <= j < |t|
        ensures Order(d, s[i], t[j]) < 0
      {
        var k := CharactersComeFrom(d, r, ns[1..], j);
        assert ns[1..][k] == ns[k + 1];
        LeafKeysDecide(d, s[i], t[j]);
      }
      InOrderConcat(d, s, t);
    }
  }

  /** Cutting at b splits the selected characters into those before b and those after. */
  lemma {:induction false} SelectSplits(d: Doc, a: Point, b: Point, c: Point, s: seq<Point>)
    requires a.node in d.nodes && b.node in d.nodes && c.node in d.nodes && InOrder(d, s)
    requires Order(d, a, b) <= 0 && Order(d, b, c) <= 0
    ensures Select(d, a, c, s) == Select(d, a, b, s) + Select(d, b, c, s)
  {
    if s != [] {
      var p := s[0];
      SelectSplits(d, a, b, c, s[1..]);
      WithinSplits(d, a, b, c, p);
      if Order(d, b, p) <= 0 {
        NothingBefore(d, a, b, s);
      }
    }
  }

  lemma NothingBefore(d: Doc, a: Point, b: Point, s: seq<Point>)
    requires a.node in d.nodes && b.node in d.nodes && s != [] && InOrder(d, s) && Order(d, b, s[0]) <= 0
    ensures Select(d, a, b, s[1..]) == []
  {
    hide Select;
    forall i | 0 <= i < |s|
      ensures !Within(d, a, b, s[i])
    {
      OrderIsTotal(d, b, s[0], s[i]);
      OrderIsTotal(d, s[i], b, b);
    }
    SelectNone(d, a, b, s[1..]);
  }

  lemma WithinSplits(d: Doc, a: Point, b: Point, c: Point, p: Point)
    requires a.node in d.nodes && b.node in d.nodes && c.node in d.nodes && p.node in d.nodes
    requires Order(d, a, b) <= 0 && Order(d, b, c) <= 0
    ensures Within(d, a, c, p) <==> Within(d, a, b, p) || Within(d, b, c, p)
    ensures !(Within(d, a, b, p) && Within(d, b, c, p))
    ensures Order(d, b, p) > 0 ==> !Within(d, b, c, p)
  {
    OrderIsTotal(d, b, p, p);
    OrderIsTotal(d, p, b, c);
    OrderIsTotal(d, a, b, p);
  }

  /** The text from a to c is the text from a to b followed by the text from b to c. */
  lemma TextIsAdditive(d: Doc, a: Point, b: Point, c: Point)
    requires a.node in d.nodes && b.node in d.nodes && c.node in d.nodes
    requires SameTree(d, a.node, b.node) && SameTree(d, b.node, c.node)
    requires Order(d, a, b) <= 0 && Order(d, b, c) <= 0
    ensures TextBetween(d, a, c) == TextBetween(d, a, b) + TextBetween(d, b, c)
  {
    var ns := TreeLeaves(d, a.node);
    LeavesOfTree(d, a.node);
    CharactersInOrder(d, a.node, ns);
    SelectSplits(d, a, b, c, Characters(d, a.node, ns));
    CharactersAnyRoot(d, a.node, b.node, ns);
  }

  lemma {:induction false} CharactersAnyRoot(d: Doc, r: Node, q: Node, ns: seq<Node>)
    requires r in d.nodes && q in d.nodes && LeafNodes(d, r, ns) && LeafNodes(d, q, ns)
    ensures Characters(d, r, ns) == Characters(d, q, ns)
  {
    if ns != [] {
      CharactersAnyRoot(d, r, q, ns[1..]);
    }
  }
}
