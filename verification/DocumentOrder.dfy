/** Document order of boundary points.  Every point gets a key: the way down from the root, the step
    into child i being written 2*i + 1, followed by twice the offset.  Keys are compared
    lexicographically. */
module DocumentOrder {
  import opened Options
  import opened Document
  import opened Lexicographic

  datatype Point = Point(node: Node, offset: int)

  ghost function NodeKey(d: Doc, n: Node): seq<int>
    requires n in d.nodes
    decreases d.level[n]
  {
    match Parent(d, n)
    case None => []
    case Some(p) => NodeKey(d, p) + [2 * Index(d, n) + 1]
  }

  ghost function Key(d: Doc, p: Point): seq<int>
    requires p.node in d.nodes
  {
    NodeKey(d, p.node) + [2 * p.offset]
  }

  /** Negative, zero or positive as p comes before, at or after q. */
  ghost function Order(d: Doc, p: Point, q: Point): int
    requires p.node in d.nodes && q.node in d.nodes
  {
    Lex(Key(d, p), Key(d, q))
  }

  lemma {:induction false} KeyBelow(d: Doc, n: Node, m: Node)
    requires m in d.nodes && Above(d, n, m)
    ensures n in d.nodes && NodeKey(d, n) <= NodeKey(d, m)
    ensures n != m ==> |NodeKey(d, n)| < |NodeKey(d, m)|
                       && NodeKey(d, m)[|NodeKey(d, n)|] == 2 * BranchTo(d, n, m) + 1
    decreases d.level[m]
  {
    if n != m {
      KeyBelow(d, n, Parent(d, m).value);
    }
  }

  /** Everything inside child i of n comes before everything inside a later child j. */
  lemma ForkKeys(d: Doc, n: Node, a: Node, b: Node, s: seq<int>, t: seq<int>)
    requires a in d.nodes && b in d.nodes && Above(d, n, a) && Above(d, n, b) && n != a && n != b
    requires BranchTo(d, n, a) < BranchTo(d, n, b)
    ensures Lex(NodeKey(d, a) + s, NodeKey(d, b) + t) == -1
    ensures Lex(NodeKey(d, b) + t, NodeKey(d, a) + s) == 1
  {
    KeyBelow(d, n, a);
    KeyBelow(d, n, b);
    LexAt(NodeKey(d, a) + s, NodeKey(d, b) + t, |NodeKey(d, n)|);
  }

  /** A point of n against anything inside child i of n. */
  lemma BelowKeys(d: Doc, n: Node, o: int, m: Node, t: seq<int>)
    requires m in d.nodes && Above(d, n, m) && n != m
    ensures n in d.nodes
    ensures BranchTo(d, n, m) < o ==> Lex(NodeKey(d, n) + [2 * o], NodeKey(d, m) + t) == 1
                                      && Lex(NodeKey(d, m) + t, NodeKey(d, n) + [2 * o]) == -1
    ensures o <= BranchTo(d, n, m) ==> Lex(NodeKey(d, n) + [2 * o], NodeKey(d, m) + t) == -1
                                       && Lex(NodeKey(d, m) + t, NodeKey(d, n) + [2 * o]) == 1
  {
    KeyBelow(d, n, m);
    var a, b := NodeKey(d, n) + [2 * o], NodeKey(d, m) + t;
    if BranchTo(d, n, m) < o {
      LexAt(b, a, |NodeKey(d, n)|);
    } else {
      LexAt(a, b, |NodeKey(d, n)|);
    }
  }

  lemma SameNodeOrder(d: Doc, n: Node, o: int, u: int)
    requires n in d.nodes
    ensures Order(d, Point(n, o), Point(n, u)) == if o < u then -1 else if o == u then 0 else 1
  {
    var a, b := Key(d, Point(n, o)), Key(d, Point(n, u));
    if o < u {
      LexAt(a, b, |NodeKey(d, n)|);
    } else if u < o {
      LexAt(b, a, |NodeKey(d, n)|);
    } else {
      LexZero(a, b);
    }
  }

  /** Below their deepest common ancestor two different nodes part company. */
  lemma ForkAtDeepest(d: Doc, a: Node, b: Node, c: Node)
    requires a in d.nodes && b in d.nodes && DeepestCommon(d, Some(a), Some(b), Some(c))
    requires c != a && c != b
    ensures BranchTo(d, c, a) != BranchTo(d, c, b)
  {
    var i := BranchTo(d, c, a);
    var k := Kids(d, c)[i];
    IndexOfKid(d, c, i);
    if i == BranchTo(d, c, b) {
      assert Above(d, k, c);
      AboveIsInTree(d, k, c);
    }
  }

  /** The comparison that `__cmp__` makes at the deepest common ancestor c. */
  ghost function OrderAtAncestor(d: Doc, p: Point, q: Point, c: Node): int
    requires p.node in d.nodes && q.node in d.nodes && p.node != q.node
    requires DeepestCommon(d, Some(p.node), Some(q.node), Some(c))
  {
    if c == p.node then (if BranchTo(d, c, q.node) < p.offset then 1 else -1)
    else if c == q.node then (if BranchTo(d, c, p.node) < q.offset then -1 else 1)
    else if BranchTo(d, c, q.node) < BranchTo(d, c, p.node) then 1
    else -1
  }

  lemma OrderIsAtAncestor(d: Doc, p: Point, q: Point, c: Node)
    requires p.node in d.nodes && q.node in d.nodes && p.node != q.node
    requires DeepestCommon(d, Some(p.node), Some(q.node), Some(c))
    ensures Order(d, p, q) == OrderAtAncestor(d, p, q, c)
  {
    if c == p.node {
      BelowKeys(d, c, p.offset, q.node, [2 * q.offset]);
    } else if c == q.node {
      BelowKeys(d, c, q.offset, p.node, [2 * p.offset]);
    } else {
      ForkAtDeepest(d, p.node, q.node, c);
      if BranchTo(d, c, q.node) < BranchTo(d, c, p.node) {
        ForkKeys(d, c, q.node, p.node, [2 * q.offset], [2 * p.offset]);
      } else {
        ForkKeys(d, c, p.node, q.node, [2 * p.offset], [2 * q.offset]);
      }
    }
  }

  lemma {:induction false} DeepestExists(d: Doc, a: Node, b: Node) returns (c: Option<Node>)
    requires a in d.nodes && b in d.nodes
    ensures DeepestCommon(d, Some(a), Some(b), c)
    ensures c.Some? <==> SameTree(d, a, b)
    decreases d.level[a]
  {
    if Above(d, a, b) {
      c := Some(a);
    } else if Parent(d, a).None? {
      c := None;
    } else {
      var p := Parent(d, a).value;
      c := DeepestExists(d, p, b);
      if c.Some? {
        assert Above(d, p, a);
        AboveTransitive(d, c.value, p, a);
      }
    }
    CommonAncestorExists(d, a, b, c);
  }

  /** Points of one tree are totally ordered. */
  lemma OrderIsTotal(d: Doc, p: Point, q: Point, r: Point)
    requires p.node in d.nodes && q.node in d.nodes && r.node in d.nodes
    ensures SameTree(d, p.node, q.node) ==> (Order(d, p, q) == 0 <==> p == q)
    ensures Order(d, q, p) == -Order(d, p, q)
    ensures Order(d, p, q) <= 0 && Order(d, q, r) <= 0 ==> Order(d, p, r) <= 0
    ensures Order(d, p, q) <= 0 && Order(d, q, r) <= 0 && (Order(d, p, q) < 0 || Order(d, q, r) < 0)
            ==> Order(d, p, r) < 0
  {
    LexAntisymmetric(Key(d, p), Key(d, q));
    if Order(d, p, q) <= 0 && Order(d, q, r) <= 0 {
      LexTransitive(Key(d, p), Key(d, q), Key(d, r));
    }
    if SameTree(d, p.node, q.node) {
      if p.node == q.node {
        SameNodeOrder(d, p.node, p.offset, q.offset);
      } else {
        var c := DeepestExists(d, p.node, q.node);
        OrderIsAtAncestor(d, p, q, c.value);
      }
    }
  }

  lemma PrefixIsAbove(d: Doc, n: Node, m: Node)
    requires n in d.nodes && m in d.nodes && SameTree(d, n, m)
    ensures Above(d, n, m) <==> NodeKey(d, n) <= NodeKey(d, m)
  {
    if Above(d, n, m) {
      KeyBelow(d, n, m);
    } else {
      var deepest := DeepestExists(d, n, m);
      var c := deepest.value;
      KeyBelow(d, c, n);
      KeyBelow(d, c, m);
      if c != m {
        ForkAtDeepest(d, n, m, c);
      }
    }
  }

  /** Points in or below a node n that is not above q all compare with q in the same way. */
  lemma OrderOutside(d: Doc, n: Node, s: seq<int>, q: Point)
    requires n in d.nodes && q.node in d.nodes && SameTree(d, n, q.node) && !Above(d, n, q.node)
    ensures Lex(NodeKey(d, n) + s, Key(d, q)) == Lex(NodeKey(d, n), Key(d, q)) != 0
  {
    PrefixIsAbove(d, n, q.node);
    assert !(NodeKey(d, n) <= Key(d, q)) by {
      if Parent(d, n).Some? {
        LastOfKey(d, n);
      }
    }
    LexNotPrefix(NodeKey(d, n), s, Key(d, q));
  }

  lemma LastOfKey(d: Doc, n: Node)
    requires n in d.nodes && Parent(d, n).Some?
    ensures NodeKey(d, n) != [] && NodeKey(d, n)[|NodeKey(d, n)| - 1] == 2 * Index(d, n) + 1
  {
  }

  // ---------- The definition in the standard ----------

  /** All nodes of the subtree at n, a node before its children. */
  ghost function Preorder(d: Doc, n: Node): seq<Node>
    requires n in d.nodes
    decreases d.height - d.level[n], |Kids(d, n)| + 1
  {
    assert NodeOk(d, n);
    [n] + PreorderOfKids(d, n, 0)
  }

  ghost function PreorderOfKids(d: Doc, n: Node, lo: nat): seq<Node>
    requires n in d.nodes && lo <= |Kids(d, n)|
    decreases d.height - d.level[n], |Kids(d, n)| - lo
  {
    if lo == |Kids(d, n)| then [] else Preorder(d, Kids(d, n)[lo]) + PreorderOfKids(d, n, lo + 1)
  }

  ghost predicate Sorted(d: Doc, s: seq<Node>)
  {
    && (forall i | 0 <= i < |s| :: s[i] in d.nodes)
    && forall i, j | 0 <= i < j < |s| :: Lex(NodeKey(d, s[i]), NodeKey(d, s[j])) < 0
  }

  lemma SortedConcat(d: Doc, s: seq<Node>, t: seq<Node>)
    requires Sorted(d, s) && Sorted(d, t)
    requires forall x, y | x in s && y in t :: Lex(NodeKey(d, x), NodeKey(d, y)) < 0
    ensures Sorted(d, s + t)
  {
  }

  lemma {:induction false} PreorderIsSorted(d: Doc, n: Node)
    requires n in d.nodes
    ensures Sorted(d, Preorder(d, n))
    ensures forall m | m in Preorder(d, n) :: m in d.nodes && Above(d, n, m)
    decreases d.height - d.level[n], |Kids(d, n)| + 1
  {
    assert NodeOk(d, n);
    PreorderOfKidsIsSorted(d, n, 0);
    forall m | m in PreorderOfKids(d, n, 0)
      ensures Lex(NodeKey(d, n), NodeKey(d, m)) < 0
    {
      KeyBelow(d, n, m);
      LexPrefix(NodeKey(d, n), NodeKey(d, m));
    }
    SortedConcat(d, [n], PreorderOfKids(d, n, 0));
  }

  lemma {:induction false} PreorderOfKidsIsSorted(d: Doc, n: Node, lo: nat)
    requires n in d.nodes && lo <= |Kids(d, n)|
    ensures Sorted(d, PreorderOfKids(d, n, lo))
    ensures forall m | m in PreorderOfKids(d, n, lo) ::
              m in d.nodes && Above(d, n, m) && n != m && lo <= BranchTo(d, n, m)
    decreases d.height - d.level[n], |Kids(d, n)| - lo
  {
    if lo < |Kids(d, n)| {
      var c := Kids(d, n)[lo];
      PreorderIsSorted(d, c);
      PreorderOfKidsIsSorted(d, n, lo + 1);
      forall x | x in Preorder(d, c)
        ensures Above(d, n, x) && n != x && BranchTo(d, n, x) == lo
      {
        BranchIsUnique(d, n, x, lo);
      }
      forall x, y | x in Preorder(d, c) && y in PreorderOfKids(d, n, lo + 1)
        ensures Lex(NodeKey(d, x), NodeKey(d, y)) < 0
      {
        ForkKeys(d, n, x, y, [], []);
        assert NodeKey(d, x) + [] == NodeKey(d, x) && NodeKey(d, y) + [] == NodeKey(d, y);
      }
      SortedConcat(d, Preorder(d, c), PreorderOfKids(d, n, lo + 1));
    }
  }

  lemma {:induction false} PreorderIsComplete(d: Doc, n: Node, m: Node)
    requires n in d.nodes && m in d.nodes && Above(d, n, m)
    ensures m in Preorder(d, n)
    decreases d.height - d.level[n]
  {
    assert NodeOk(d, n);
    if n != m {
      var i := BranchTo(d, n, m);
      IndexOfKid(d, n, i);
      PreorderIsComplete(d, Kids(d, n)[i], m);
      PreorderOfKidsHas(d, n, 0, i, m);
    }
  }

  lemma {:induction false} PreorderOfKidsHas(d: Doc, n: Node, lo: nat, i: nat, m: Node)
    requires n in d.nodes && lo <= i < |Kids(d, n)| && m in Preorder(d, Kids(d, n)[i])
    ensures m in PreorderOfKids(d, n, lo)
    decreases i - lo
  {
    if lo < i {
      PreorderOfKidsHas(d, n, lo + 1, i, m);
    }
  }

  /** a comes before b in the pre-order traversal of their tree. */
  ghost predicate Precedes(d: Doc, a: Node, b: Node)
    requires a in d.nodes && b in d.nodes
  {
    var walk := Preorder(d, Root(d, a));
    exists i, j :: 0 <= i < j < |walk| && walk[i] == a && walk[j] == b
  }

  lemma PrecedesByKey(d: Doc, a: Node, b: Node)
    requires a in d.nodes && b in d.nodes && SameTree(d, a, b)
    ensures Precedes(d, a, b) <==> Lex(NodeKey(d, a), NodeKey(d, b)) < 0
  {
    var r := Root(d, a);
    var walk := Preorder(d, r);
    RootIsAbove(d, a);
    RootIsAbove(d, b);
    PreorderIsSorted(d, r);
    PreorderIsComplete(d, r, a);
    PreorderIsComplete(d, r, b);
    var i :| 0 <= i < |walk| && walk[i] == a;
    var j :| 0 <= j < |walk| && walk[j] == b;
    LexAntisymmetric(NodeKey(d, a), NodeKey(d, b));
    if i == j {
      LexZero(NodeKey(d, a), NodeKey(d, b));
    }
  }

  /** "Comparing boundary-points", section 2.5 of DOM Level 2 Traversal and Range: when p is before q. */
  ghost predicate BeforeByStandard(d: Doc, p: Point, q: Point)
    requires p.node in d.nodes && q.node in d.nodes
  {
    if p.node == q.node then p.offset < q.offset
    else if Above(d, p.node, q.node) then p.offset <= BranchTo(d, p.node, q.node)
    else if Above(d, q.node, p.node) then BranchTo(d, q.node, p.node) < q.offset
    else Precedes(d, p.node, q.node)
  }

  lemma OrderIsStandard(d: Doc, p: Point, q: Point)
    requires p.node in d.nodes && q.node in d.nodes && SameTree(d, p.node, q.node)
    ensures Order(d, p, q) < 0 <==> BeforeByStandard(d, p, q)
    ensures Order(d, p, q) == 0 <==> p == q
    ensures Order(d, p, q) > 0 <==> BeforeByStandard(d, q, p)
  {
    OrderIsTotal(d, p, q, p);
    BeforeIsOrder(d, p, q);
    BeforeIsOrder(d, q, p);
  }

  lemma BeforeIsOrder(d: Doc, p: Point, q: Point)
    requires p.node in d.nodes && q.node in d.nodes && SameTree(d, p.node, q.node)
    ensures Order(d, p, q) < 0 <==> BeforeByStandard(d, p, q)
  {
    if p.node == q.node {
      SameNodeOrder(d, p.node, p.offset, q.offset);
    } else if Above(d, p.node, q.node) {
      BelowKeys(d, p.node, p.offset, q.node, [2 * q.offset]);
    } else if Above(d, q.node, p.node) {
      BelowKeys(d, q.node, q.offset, p.node, [2 * p.offset]);
    } else {
      var deepest := DeepestExists(d, p.node, q.node);
      var c := deepest.value;
      ForkAtDeepest(d, p.node, q.node, c);
      OrderIsAtAncestor(d, p, q, c);
      PrecedesByKey(d, p.node, q.node);
      var a, b := NodeKey(d, p.node), NodeKey(d, q.node);
      assert a + [] == a && b + [] == b;
      if BranchTo(d, c, p.node) < BranchTo(d, c, q.node) {
        ForkKeys(d, c, p.node, q.node, [], []);
      } else {
        ForkKeys(d, c, q.node, p.node, [], []);
      }
    }
  }
}
