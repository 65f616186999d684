/** Walking a tree leaf by leaf, forwards and backwards. */
module TreeWalker {
  import opened Options
  import opened Document
  import opened DocumentOrder
  import opened Lexicographic

  datatype Direction = Backward | Forward

  // ---------- The leaves of a subtree, in document order ----------

  /** `list_all_children` */
  function Leaves(d: Doc, n: Node): (s: seq<Node>)
    requires n in d.nodes
    ensures s != []
    decreases d.height - d.level[n], |Kids(d, n)| + 1
  {
    assert NodeOk(d, n);
    if |Kids(d, n)| == 0 then [n] else KidLeaves(d, n, 0, |Kids(d, n)|)
  }

  /** The leaves below the children lo, ..., hi - 1 of n. */
  function KidLeaves(d: Doc, n: Node, lo: nat, hi: nat): (s: seq<Node>)
    requires n in d.nodes && lo <= hi <= |Kids(d, n)|
    ensures lo < hi ==> s != []
    decreases d.height - d.level[n], hi - lo
  {
    if lo == hi then [] else Leaves(d, Kids(d, n)[lo]) + KidLeaves(d, n, lo + 1, hi)
  }

  lemma {:induction false} KidLeavesSplit(d: Doc, n: Node, lo: nat, mid: nat, hi: nat)
    requires n in d.nodes && lo <= mid <= hi <= |Kids(d, n)|
    ensures KidLeaves(d, n, lo, hi) == KidLeaves(d, n, lo, mid) + KidLeaves(d, n, mid, hi)
    decreases mid - lo
  {
    if lo < mid {
      KidLeavesSplit(d, n, lo + 1, mid, hi);
    } else {
      assert KidLeaves(d, n, lo, mid) == [];
    }
  }

  lemma KidLeavesOne(d: Doc, n: Node, i: nat)
    requires n in d.nodes && i < |Kids(d, n)|
    ensures KidLeaves(d, n, i, i + 1) == Leaves(d, Kids(d, n)[i])
  {
    assert KidLeaves(d, n, i + 1, i + 1) == [];
  }

  /** The leaves of the whole tree before the subtree at n. */
  ghost function LeavesBefore(d: Doc, n: Node): seq<Node>
    requires n in d.nodes
    decreases d.level[n]
  {
    match Parent(d, n)
    case None => []
    case Some(p) => LeavesBefore(d, p) + KidLeaves(d, p, 0, Index(d, n))
  }

  /** The leaves of the whole tree after the subtree at n. */
  ghost function LeavesAfter(d: Doc, n: Node): seq<Node>
    requires n in d.nodes
    decreases d.level[n]
  {
    match Parent(d, n)
    case None => []
    case Some(p) => KidLeaves(d, p, Index(d, n) + 1, |Kids(d, p)|) + LeavesAfter(d, p)
  }

  lemma LeavesOfParent(d: Doc, n: Node)
    requires n in d.nodes && Parent(d, n).Some?
    ensures var p, i := Parent(d, n).value, Index(d, n);
            Leaves(d, p) == KidLeaves(d, p, 0, i) + (Leaves(d, n) + KidLeaves(d, p, i + 1, |Kids(d, p)|))
  {
    var p, i := Parent(d, n).value, Index(d, n);
    KidLeavesSplit(d, p, 0, i, |Kids(d, p)|);
  }

  lemma Regroup<T>(a: seq<T>, b: seq<T>, c: seq<T>, e: seq<T>, f: seq<T>)
    ensures a + (b + (c + e)) + f == (a + b) + c + (e + f)
  {
  }

  lemma {:induction false} LeavesAround(d: Doc, n: Node)
    requires n in d.nodes
    ensures Leaves(d, Root(d, n)) == LeavesBefore(d, n) + Leaves(d, n) + LeavesAfter(d, n)
    decreases d.level[n]
  {
    if Parent(d, n).Some? {
      var p, i := Parent(d, n).value, Index(d, n);
      LeavesAround(d, p);
      LeavesOfParent(d, n);
      Regroup(LeavesBefore(d, p), KidLeaves(d, p, 0, i), Leaves(d, n),
              KidLeaves(d, p, i + 1, |Kids(d, p)|), LeavesAfter(d, p));
    }
  }

  lemma {:induction false} LeavesAreSorted(d: Doc, n: Node)
    requires n in d.nodes
    ensures Sorted(d, Leaves(d, n))
    ensures forall m | m in Leaves(d, n) :: m in d.nodes && Above(d, n, m) && Kids(d, m) == []
    decreases d.height - d.level[n], |Kids(d, n)| + 1
  {
    assert NodeOk(d, n);
    if |Kids(d, n)| > 0 {
      KidLeavesAreSorted(d, n, 0, |Kids(d, n)|);
    }
  }

  lemma {:induction false} KidLeavesAreSorted(d: Doc, n: Node, lo: nat, hi: nat)
    requires n in d.nodes && lo <= hi <= |Kids(d, n)|
    ensures Sorted(d, KidLeaves(d, n, lo, hi))
    ensures forall m | m in KidLeaves(d, n, lo, hi) ::
              m in d.nodes && Above(d, n, m) && n != m && lo <= BranchTo(d, n, m) < hi && Kids(d, m) == []
    decreases d.height - d.level[n], hi - lo
  {
    if lo < hi {
      var c := Kids(d, n)[lo];
      LeavesAreSorted(d, c);
      KidLeavesAreSorted(d, n, lo + 1, hi);
      forall x | x in Leaves(d, c)
        ensures Above(d, n, x) && n != x && BranchTo(d, n, x) == lo
      {
        BranchIsUnique(d, n, x, lo);
      }
      forall x, y | x in Leaves(d, c) && y in KidLeaves(d, n, lo + 1, hi)
        ensures Lex(NodeKey(d, x), NodeKey(d, y)) < 0
      {
        ForkKeys(d, n, x, y, [], []);
        assert NodeKey(d, x) + [] == NodeKey(d, x) && NodeKey(d, y) + [] == NodeKey(d, y);
      }
      SortedConcat(d, Leaves(d, c), KidLeaves(d, n, lo + 1, hi));
    }
  }

  /** The leaves below n are exactly the childless nodes below n. */
  lemma LeavesAreChildless(d: Doc, n: Node, m: Node)
    requires n in d.nodes && m in d.nodes
    ensures m in Leaves(d, n) <==> Above(d, n, m) && Kids(d, m) == []
  {
    LeavesAreSorted(d, n);
    if Above(d, n, m) && Kids(d, m) == [] {
      ChildlessIsLeaf(d, n, m);
    }
  }

  lemma {:induction false} ChildlessIsLeaf(d: Doc, n: Node, m: Node)
    requires n in d.nodes && m in d.nodes && Above(d, n, m) && Kids(d, m) == []
    ensures m in Leaves(d, n)
    decreases d.height - d.level[n]
  {
    assert NodeOk(d, n);
    if n != m {
      var i := BranchTo(d, n, m);
      IndexOfKid(d, n, i);
      ChildlessIsLeaf(d, Kids(d, n)[i], m);
      KidLeavesSplit(d, n, 0, i, |Kids(d, n)|);
      KidLeavesSplit(d, n, i, i + 1, |Kids(d, n)|);
      KidLeavesOne(d, n, i);
    }
  }

  // ---------- One step ----------

  /** `nextSibling` or `previousSibling` */
  function NearSibling(d: Doc, dir: Direction, n: Node): (r: Option<Node>)
    requires n in d.nodes
    ensures r.Some? ==> r.value in d.nodes
  {
    match Parent(d, n)
    case None => None
    case Some(p) => SiblingIn(Kids(d, p), dir, n)
  }

  /** The neighbour of n in a list of children. */
  function SiblingIn(children: seq<Node>, dir: Direction, n: Node): (r: Option<Node>)
    ensures r.Some? ==> r.value in children
  {
    if |children| < 2 then None
    else if dir.Forward? && children[0] == n then Some(children[1])
    else if dir.Backward? && children[1] == n then Some(children[0])
    else SiblingIn(children[1..], dir, n)
  }

  lemma {:induction false} SiblingAt(children: seq<Node>, dir: Direction, i: nat)
    requires i < |children| && forall j, k | 0 <= j < k < |children| :: children[j] != children[k]
    ensures SiblingIn(children, dir, children[i]) ==
            match dir {
              case Forward => if i + 1 < |children| then Some(children[i + 1]) else None
              case Backward => if i > 0 then Some(children[i - 1]) else None
            }
  {
    if |children| >= 2 {
      var tail := children[1..];
      if i > 0 {
        SiblingAt(tail, dir, i - 1);
        assert tail[i - 1] == children[i];
      } else {
        NoSibling(tail, dir, children[0]);
      }
    }
  }

  lemma {:induction false} NoSibling(children: seq<Node>, dir: Direction, n: Node)
    requires n !in children
    ensures SiblingIn(children, dir, n) == None
  {
    if |children| >= 2 {
      NoSibling(children[1..], dir, n);
    }
  }

  /** The neighbour in child-index terms. */
  lemma SiblingByIndex(d: Doc, dir: Direction, n: Node)
    requires n in d.nodes && Parent(d, n).Some?
    ensures var children, i := Kids(d, Parent(d, n).value), Index(d, n);
            NearSibling(d, dir, n) ==
            match dir {
              case Forward => if i + 1 < |children| then Some(children[i + 1]) else None
              case Backward => if i > 0 then Some(children[i - 1]) else None
            }
  {
    var p := Parent(d, n).value;
    assert NodeOk(d, p);
    SiblingAt(Kids(d, p), dir, Index(d, n));
  }

  /** `childNodes[front_element]` */
  function NearChild(d: Doc, dir: Direction, n: Node): (c: Node)
    requires n in d.nodes && Kids(d, n) != []
    ensures c in d.nodes && d.level[c] == d.level[n] + 1 <= d.height
  {
    if dir.Forward? then Kids(d, n)[0] else Kids(d, n)[|Kids(d, n)| - 1]
  }

  /** The leaves still ahead of n in the given direction, nearest first or last. */
  ghost function LeavesAhead(d: Doc, dir: Direction, n: Node): seq<Node>
    requires n in d.nodes
  {
    if dir.Forward? then LeavesAfter(d, n) else LeavesBefore(d, n)
  }

  function Nearest(dir: Direction, s: seq<Node>): Option<Node>
  {
    if s == [] then None else if dir.Forward? then Some(s[0]) else Some(s[|s| - 1])
  }

  /** Where one step from n leads: the nearest leaf outside the subtree at n, if any is left. */
  ghost function Step(d: Doc, dir: Direction, n: Node): (r: Option<Node>)
    requires n in d.nodes
    ensures r.Some? ==> r.value in d.nodes
  {
    LeavesAheadExist(d, dir, n);
    Nearest(dir, LeavesAhead(d, dir, n))
  }

  lemma LeavesAheadExist(d: Doc, dir: Direction, n: Node)
    requires n in d.nodes
    ensures forall m | m in LeavesAhead(d, dir, n) :: m in d.nodes && Kids(d, m) == []
  {
    LeavesAround(d, n);
    LeavesAreSorted(d, Root(d, n));
  }

  /** With no sibling on that side, what is ahead of n is what is ahead of its parent. */
  lemma AheadWithoutSibling(d: Doc, dir: Direction, n: Node)
    requires n in d.nodes && NearSibling(d, dir, n).None?
    ensures Parent(d, n).None? ==> LeavesAhead(d, dir, n) == []
    ensures Parent(d, n).Some? ==> LeavesAhead(d, dir, n) == LeavesAhead(d, dir, Parent(d, n).value)
  {
    if Parent(d, n).Some? {
      var p := Parent(d, n).value;
      SiblingByIndex(d, dir, n);
      assert KidLeaves(d, p, 0, 0) == [];
      assert KidLeaves(d, p, |Kids(d, p)|, |Kids(d, p)|) == [];
    }
  }

  /** The nearest leaf ahead of n is the nearest leaf of its sibling on that side. */
  lemma AheadIsInSibling(d: Doc, dir: Direction, n: Node)
    requires n in d.nodes && NearSibling(d, dir, n).Some?
    ensures Step(d, dir, n) == Nearest(dir, Leaves(d, NearSibling(d, dir, n).value))
  {
    var p := Parent(d, n).value;
    var i := Index(d, n);
    SiblingByIndex(d, dir, n);
    match dir {
      case Forward =>
        var k := |Kids(d, p)|;
        assert KidLeaves(d, p, i + 1, k) == Leaves(d, Kids(d, p)[i + 1]) + KidLeaves(d, p, i + 2, k);
      case Backward =>
        KidLeavesSplit(d, p, 0, i - 1, i);
        KidLeavesOne(d, p, i - 1);
    }
  }

  lemma NearestIsInNearChild(d: Doc, dir: Direction, n: Node)
    requires n in d.nodes && Kids(d, n) != []
    ensures Nearest(dir, Leaves(d, n)) == Nearest(dir, Leaves(d, NearChild(d, dir, n)))
  {
    var k := |Kids(d, n)|;
    KidLeavesSplit(d, n, 0, k - 1, k);
    KidLeavesOne(d, n, k - 1);
  }

  /** `onestep` */
  method OneStep(d: Doc, dir: Direction, node: Option<Node>) returns (r: Option<Node>)
    requires node.Some? ==> node.value in d.nodes
    ensures r == if node.None? then None else Step(d, dir, node.value)
  {
    var current := node;
    while current.Some? && NearSibling(d, dir, current.value).None?
      invariant current.Some? ==> current.value in d.nodes
      invariant node.Some? ==>
                  Step(d, dir, node.value) == if current.None? then None else Step(d, dir, current.value)
      invariant node.None? ==> current.None?
      decreases if current.Some? then d.level[current.value] + 1 else 0
    {
      AheadWithoutSibling(d, dir, current.value);
      current := Parent(d, current.value);
    }
    if current.None? {
      return None;
    }
    AheadIsInSibling(d, dir, current.value);
    current := NearSibling(d, dir, current.value);
    while |Kids(d, current.value)| > 0
      invariant current.Some? && current.value in d.nodes && node.Some?
      invariant Step(d, dir, node.value) == Nearest(dir, Leaves(d, current.value))
      decreases d.height - d.level[current.value]
    {
      NearestIsInNearChild(d, dir, current.value);
      current := Some(NearChild(d, dir, current.value));
      assert NodeOk(d, current.value);
    }
    return current;
  }

  // ---------- What stepping means for the list of leaves ----------

  lemma LeafPlace(d: Doc, root: Node, i: nat)
    requires root in d.nodes && Parent(d, root).None? && i < |Leaves(d, root)|
    ensures var s := Leaves(d, root);
            && s[i] in d.nodes
            && LeavesBefore(d, s[i]) == s[..i]
            && LeavesAfter(d, s[i]) == s[i + 1..]
  {
    var s := Leaves(d, root);
    var n := s[i];
    LeavesAreSorted(d, root);
    assert n in s;
    AboveIsInTree(d, root, n);
    LeavesAround(d, n);
    var before, after := LeavesBefore(d, n), LeavesAfter(d, n);
    assert Leaves(d, n) == [n];
    Surrounded(s, before, n, after);
    SortedHasOnce(d, s, i, |before|);
  }

  lemma Surrounded<T>(s: seq<T>, before: seq<T>, x: T, after: seq<T>)
    requires s == before + [x] + after
    ensures |before| < |s| && s[|before|] == x && s[..|before|] == before && s[|before| + 1..] == after
  {
  }

  /** From entry i of s a step forwards leads to entry i + 1 and a step backwards to entry i - 1. */
  ghost predicate StepsToNeighbours(d: Doc, s: seq<Node>, i: nat)
    requires i < |s|
  {
    && s[i] in d.nodes
    && Step(d, Forward, s[i]) == (if i + 1 < |s| then Some(s[i + 1]) else None)
    && Step(d, Backward, s[i]) == (if i > 0 then Some(s[i - 1]) else None)
  }

  lemma NearestOfParts(s: seq<Node>, i: nat)
    requires i < |s|
    ensures Nearest(Forward, s[i + 1..]) == if i + 1 < |s| then Some(s[i + 1]) else None
    ensures Nearest(Backward, s[..i]) == if i > 0 then Some(s[i - 1]) else None
  {
  }

  lemma StepOnLeaves(d: Doc, root: Node, i: nat)
    requires root in d.nodes && Parent(d, root).None? && i < |Leaves(d, root)|
    ensures StepsToNeighbours(d, Leaves(d, root), i)
  {
    hide Leaves, LeavesBefore, LeavesAfter, Nearest;
    LeafPlace(d, root, i);
    NearestOfParts(Leaves(d, root), i);
  }

  lemma SortedHasOnce(d: Doc, s: seq<Node>, i: nat, j: nat)
    requires Sorted(d, s) && i < |s| && j < |s| && s[i] == s[j]
    ensures i == j
  {
    LexZero(NodeKey(d, s[i]), NodeKey(d, s[j]));
  }

  /** Forward and backward steps between leaves undo each other. */
  lemma StepsUndo(d: Doc, n: Node, dir: Direction)
    requires n in d.nodes && Kids(d, n) == [] && Step(d, dir, n).Some?
    ensures var back := if dir.Forward? then Backward else Forward;
            Step(d, back, Step(d, dir, n).value) == Some(n)
  {
    hide Leaves, Step;
    var root := Root(d, n);
    RootIsAbove(d, n);
    LeavesAreChildless(d, root, n);
    var i :| 0 <= i < |Leaves(d, root)| && Leaves(d, root)[i] == n;
    StepOnLeaves(d, root, i);
    if dir.Forward? {
      StepOnLeaves(d, root, i + 1);
    } else {
      StepOnLeaves(d, root, i - 1);
    }
  }

  /** The node reached after k steps. */
  ghost function Steps(d: Doc, dir: Direction, n: Node, k: nat): (r: Option<Node>)
    requires n in d.nodes
    ensures r.Some? ==> r.value in d.nodes
  {
    if k == 0 then Some(n)
    else match Steps(d, dir, n, k - 1)
         case None => None
         case Some(m) => Step(d, dir, m)
  }

  /** s lists nodes so that each step from s[j] leads to its neighbour in s. */
  ghost predicate Chained(d: Doc, s: seq<Node>)
  {
    forall j | 0 <= j < |s| :: StepsToNeighbours(d, s, j)
  }


  lemma LeavesAreChained(d: Doc, root: Node)
    requires root in d.nodes && Parent(d, root).None?
    ensures Chained(d, Leaves(d, root))
  {
    forall j | 0 <= j < |Leaves(d, root)|
      ensures StepsToNeighbours(d, Leaves(d, root), j)
    {
      StepOnLeaves(d, root, j);
    }
  }

  /** Where k steps lead from entry i of the list s. */
  function Reached(dir: Direction, s: seq<Node>, i: nat, k: nat): Option<Node>
    requires i < |s|
  {
    match dir
    case Forward => if i + k < |s| then Some(s[i + k]) else None
    case Backward => if k <= i then Some(s[i - k]) else None
  }

  lemma {:induction false} StepsInChain(d: Doc, dir: Direction, s: seq<Node>, i: nat, k: nat)
    requires Chained(d, s) && i < |s|
    ensures s[i] in d.nodes && Steps(d, dir, s[i], k) == Reached(dir, s, i, k)
  {
    hide Step;
    assert StepsToNeighbours(d, s, i);
    if k > 0 {
      StepsInChain(d, dir, s, i, k - 1);
      var before := Reached(dir, s, i, k - 1);
      if before.Some? {
        assert StepsToNeighbours(d, s, if dir.Forward? then i + (k - 1) else i - (k - 1));
      }
    }
  }

  /** Stepping from leaf i visits each leaf on that side exactly once, in order, and then stops. */
  lemma StepsVisitLeaves(d: Doc, dir: Direction, root: Node, i: nat, k: nat)
    requires root in d.nodes && Parent(d, root).None? && i < |Leaves(d, root)|
    ensures Leaves(d, root)[i] in d.nodes
    ensures Steps(d, dir, Leaves(d, root)[i], k) == Reached(dir, Leaves(d, root), i, k)
  {
    LeavesAreChained(d, root);
    StepsInChain(d, dir, Leaves(d, root), i, k);
  }
}
