/** The search for candidates below a node, with the pruning that a lower limit on the place allows. */
module ContentSearch {
  import opened Options
  import opened Document
  import opened DocumentOrder
  import opened Lexicographic
  import opened TreeWalker
  import opened RangeText
  import opened ContentPointers
  import opened ContentMatches
  import DomRange

  /** The offset that stands for "past the last child". */
  const FAR := 999999

  ghost predicate NodesIn(d: Doc, ns: seq<Node>)
  {
    forall i | 0 <= i < |ns| :: ns[i] in d.nodes
  }

  ghost predicate PlacesIn(d: Doc, cs: seq<Candidate>)
  {
    forall k | 0 <= k < |cs| :: cs[k].place.node in d.nodes
  }

  /** The candidates of every node of the list, in order. */
  ghost function AllCandidates(d: Doc, f: Tolerance, ns: seq<Node>, p: TextPointer): (r: seq<Candidate>)
    requires NodesIn(d, ns) && p.contexts != [] && Tolerant(f)
    ensures PlacesIn(d, r)
  {
    if ns == [] then [] else Candidates(d, f, ns[0], p) + AllCandidates(d, f, ns[1..], p)
  }

  lemma {:induction false} AllConcat(d: Doc, f: Tolerance, a: seq<Node>, b: seq<Node>, p: TextPointer)
    requires NodesIn(d, a) && NodesIn(d, b) && p.contexts != [] && Tolerant(f)
    ensures AllCandidates(d, f, a + b, p) == AllCandidates(d, f, a, p) + AllCandidates(d, f, b, p)
  {
    hide Candidates, Tolerant;
    if a == [] {
      assert a + b == b;
    } else {
      assert (a + b)[1..] == a[1..] + b;
      AllConcat(d, f, a[1..], b, p);
    }
  }

  /** Each candidate lies in a text node of the list and scores above 0 and at most 1. */
  lemma {:induction false} AllComeFrom(d: Doc, f: Tolerance, ns: seq<Node>, p: TextPointer, k: nat)
    returns (i: nat)
    requires NodesIn(d, ns) && p.contexts != [] && Tolerant(f) && k < |AllCandidates(d, f, ns, p)|
    ensures i < |ns| && IsText(d, ns[i]) && AllCandidates(d, f, ns, p)[k] in Candidates(d, f, ns[i], p)
    ensures var c := AllCandidates(d, f, ns, p)[k]; c.place.node == ns[i] && 0.0 < c.score <= 1.0
  {
    hide Candidates, Tolerant;
    var first := Candidates(d, f, ns[0], p);
    if k < |first| {
      i := 0;
      OnlyTextHasCandidates(d, f, ns[0], p);
    } else {
      i := AllComeFrom(d, f, ns[1..], p, k - |first|);
      i := i + 1;
    }
  }

  lemma OnlyTextHasCandidates(d: Doc, f: Tolerance, n: Node, p: TextPointer)
    requires n in d.nodes && p.contexts != [] && Tolerant(f)
    ensures !IsText(d, n) ==> Candidates(d, f, n, p) == []
  {
  }

  /** The candidates whose place comes strictly after the limit, if there is one. */
  ghost function After(d: Doc, limit: Option<Point>, cs: seq<Candidate>): (r: seq<Candidate>)
    requires PlacesIn(d, cs) && (limit.Some? ==> limit.value.node in d.nodes)
    ensures PlacesIn(d, r) && forall c | c in r :: c in cs
  {
    if limit.None? || cs == [] then cs
    else (if Order(d, cs[0].place, limit.value) > 0 then [cs[0]] else []) + After(d, limit, cs[1..])
  }

  lemma {:induction false} AfterConcat(d: Doc, limit: Option<Point>, a: seq<Candidate>, b: seq<Candidate>)
    requires PlacesIn(d, a) && PlacesIn(d, b) && (limit.Some? ==> limit.value.node in d.nodes)
    ensures After(d, limit, a + b) == After(d, limit, a) + After(d, limit, b)
  {
    hide Order;
    if a == [] {
      assert a + b == b;
    } else if limit.Some? {
      assert (a + b)[1..] == a[1..] + b;
      AfterConcat(d, limit, a[1..], b);
    }
  }

  lemma {:induction false} AfterAll(d: Doc, limit: Option<Point>, cs: seq<Candidate>)
    requires PlacesIn(d, cs) && limit.Some? && limit.value.node in d.nodes
    requires forall k | 0 <= k < |cs| :: Order(d, cs[k].place, limit.value) > 0
    ensures After(d, limit, cs) == cs
  {
    if cs != [] {
      AfterAll(d, limit, cs[1..]);
    }
  }

  lemma {:induction false} AfterNone(d: Doc, limit: Option<Point>, cs: seq<Candidate>)
    requires PlacesIn(d, cs) && limit.Some? && limit.value.node in d.nodes
    requires forall k | 0 <= k < |cs| :: Order(d, cs[k].place, limit.value) <= 0
    ensures After(d, limit, cs) == []
  {
    if cs != [] {
      AfterNone(d, limit, cs[1..]);
    }
  }

  /** A candidate of the result stands after the limit. */
  lemma {:induction false} AfterIsAfter(d: Doc, limit: Option<Point>, cs: seq<Candidate>, c: Candidate)
    requires PlacesIn(d, cs) && limit.Some? && limit.value.node in d.nodes && c in After(d, limit, cs)
    ensures c.place.node in d.nodes && Order(d, c.place, limit.value) > 0
  {
    if Order(d, cs[0].place, limit.value) > 0 && c == cs[0] {
    } else {
      AfterIsAfter(d, limit, cs[1..], c);
    }
  }

  // ---------- The pruned search ----------

  /** `get_matches` */
  ghost function Search(d: Doc, f: Tolerance, n: Node, p: TextPointer, limit: Option<Point>): seq<Candidate>
    requires n in d.nodes && p.contexts != [] && Tolerant(f) && (limit.Some? ==> limit.value.node in d.nodes)
    decreases d.height - d.level[n], |Kids(d, n)| + 1
  {
    assert NodeOk(d, n);
    if IsText(d, n) then After(d, limit, Candidates(d, f, n, p))
    else if limit.Some? && Order(d, Point(n, FAR), limit.value) < 0 then []
    else
      var below := if limit.Some? && Order(d, Point(n, 0), limit.value) > 0 then None else limit;
      SearchKids(d, f, n, p, below, |Kids(d, n)|)
  }

  /** The search below the first hi children of n. */
  ghost function SearchKids(d: Doc, f: Tolerance, n: Node, p: TextPointer, limit: Option<Point>, hi: nat)
    : seq<Candidate>
    requires n in d.nodes && p.contexts != [] && Tolerant(f) && (limit.Some? ==> limit.value.node in d.nodes)
    requires hi <= |Kids(d, n)|
    decreases d.height - d.level[n], hi
  {
    if hi == 0 then []
    else SearchKids(d, f, n, p, limit, hi - 1) + Search(d, f, Kids(d, n)[hi - 1], p, limit)
  }

  /** No node at or below n has more than 999999 children. */
  ghost predicate NarrowBelow(d: Doc, n: Node)
    requires n in d.nodes
  {
    forall m | m in d.nodes && Above(d, n, m) :: |Kids(d, m)| <= 999999
  }

  ghost function AllBelow(d: Doc, f: Tolerance, n: Node, p: TextPointer): (r: seq<Candidate>)
    requires n in d.nodes && p.contexts != [] && Tolerant(f)
    ensures PlacesIn(d, r)
  {
    LeavesAreNodes(d, n);
    AllCandidates(d, f, Leaves(d, n), p)
  }

  lemma LeavesAreNodes(d: Doc, n: Node)
    requires n in d.nodes
    ensures NodesIn(d, Leaves(d, n))
    ensures forall i | 0 <= i < |Leaves(d, n)| :: Above(d, n, Leaves(d, n)[i])
  {
    LeavesAreSorted(d, n);
    hide Leaves;
    forall i | 0 <= i < |Leaves(d, n)|
      ensures Leaves(d, n)[i] in d.nodes && Above(d, n, Leaves(d, n)[i])
    {
      assert Leaves(d, n)[i] in Leaves(d, n);
    }
  }

  /** Every candidate below an element n lies in a text further down, after the first place of the element,
      and before the place FAR if it is below an earlier child. */
  lemma CandidatesAreInside(d: Doc, f: Tolerance, n: Node, p: TextPointer, c: Candidate)
    requires n in d.nodes && p.contexts != [] && Tolerant(f) && !IsText(d, n) && c in AllBelow(d, f, n, p)
    ensures c.place.node in d.nodes && SameTree(d, n, c.place.node)
    ensures Above(d, n, c.place.node) && c.place.node != n && c in Candidates(d, f, c.place.node, p)
    ensures Order(d, Point(n, 0), c.place) < 0
    ensures BranchTo(d, n, c.place.node) < FAR ==> Order(d, c.place, Point(n, FAR)) < 0
  {
    hide Leaves, AllCandidates, NodeKey;
    LeavesAreNodes(d, n);
    var k :| 0 <= k < |AllBelow(d, f, n, p)| && AllBelow(d, f, n, p)[k] == c;
    var i := AllComeFrom(d, f, Leaves(d, n), p, k);
    var m := c.place.node;
    AboveIsInTree(d, n, m);
    BelowKeys(d, n, 0, m, [2 * c.place.offset]);
    BelowKeys(d, n, FAR, m, [2 * c.place.offset]);
  }

  /** Whatever is skipped for the limit holds no candidate that comes after it. */
  ghost predicate SkipsOnlyBefore(d: Doc, f: Tolerance, n: Node, p: TextPointer, limit: Option<Point>)
    requires n in d.nodes && p.contexts != [] && Tolerant(f) && (limit.Some? ==> limit.value.node in d.nodes)
  {
    limit.Some? ==>
      forall m, c | m in d.nodes && Above(d, n, m) && !IsText(d, m) && Order(d, Point(m, FAR), limit.value) < 0
                    && c in AllBelow(d, f, m, p) ::
        c.place.node in d.nodes && Order(d, c.place, limit.value) <= 0
  }

  /** The pruned search finds exactly the candidates that come after the limit: skipping a subtree that
      lies before it, and forgetting it inside a subtree that lies after it, loses and adds nothing. */
  lemma PruningIsExact(d: Doc, f: Tolerance, n: Node, p: TextPointer, limit: Option<Point>)
    requires n in d.nodes && p.contexts != [] && Tolerant(f) && NarrowBelow(d, n)
    requires limit.Some? ==> limit.value.node in d.nodes && SameTree(d, n, limit.value.node)
    ensures Search(d, f, n, p, limit) == After(d, limit, AllBelow(d, f, n, p))
  {
    hide AllBelow, Order, Search, After;
    if limit.Some? {
      forall m, c | m in d.nodes && Above(d, n, m) && !IsText(d, m) && Order(d, Point(m, FAR), limit.value) < 0
                    && c in AllBelow(d, f, m, p)
        ensures c.place.node in d.nodes && Order(d, c.place, limit.value) <= 0
      {
        CandidatesAreInside(d, f, m, p, c);
        OrderIsTotal(d, c.place, Point(m, FAR), limit.value);
      }
    }
    PruningIsRight(d, f, n, p, limit);
  }

  /** So it is whenever nothing after the limit is skipped. */
  lemma {:induction false} PruningIsRight(d: Doc, f: Tolerance, n: Node, p: TextPointer, limit: Option<Point>)
    requires n in d.nodes && p.contexts != [] && Tolerant(f)
    requires limit.Some? ==> limit.value.node in d.nodes
    requires SkipsOnlyBefore(d, f, n, p, limit)
    ensures Search(d, f, n, p, limit) == After(d, limit, AllBelow(d, f, n, p))
    decreases d.height - d.level[n], |Kids(d, n)| + 1
  {
    hide SkipsOnlyBefore, After, AllBelow, Order, Candidates, Search;
    assert NodeOk(d, n);
    SearchUnfolds(d, f, n, p, limit);
    if IsText(d, n) {
      BelowText(d, f, n, p);
    } else if limit.Some? && Order(d, Point(n, FAR), limit.value) < 0 {
      AllBefore(d, f, n, p, limit.value);
    } else {
      var below := if limit.Some? && Order(d, Point(n, 0), limit.value) > 0 then None else limit;
      NothingToSkip(d, f, n, p);
      PruningIsRightBelow(d, f, n, p, below, |Kids(d, n)|);
      BelowAllKids(d, f, n, p);
      if below != limit {
        AllBeyond(d, f, n, p, limit.value);
        WithoutLimit(d, AllBelow(d, f, n, p));
      }
    }
  }

  lemma NothingToSkip(d: Doc, f: Tolerance, n: Node, p: TextPointer)
    requires n in d.nodes && p.contexts != [] && Tolerant(f)
    ensures SkipsOnlyBefore(d, f, n, p, None)
  {
  }

  lemma {:induction false} PruningIsRightBelow(d: Doc, f: Tolerance, n: Node, p: TextPointer,
                                              limit: Option<Point>, hi: nat)
    requires n in d.nodes && p.contexts != [] && Tolerant(f) && hi <= |Kids(d, n)|
    requires limit.Some? ==> limit.value.node in d.nodes
    requires SkipsOnlyBefore(d, f, n, p, limit)
    ensures SearchKids(d, f, n, p, limit, hi) == After(d, limit, AllBelowKids(d, f, n, p, hi))
    decreases d.height - d.level[n], hi
  {
    hide After, AllBelow, AllBelowKids, Search, Tolerant, SkipsOnlyBefore;
    if hi == 0 {
      BelowNoKids(d, f, n, p, limit);
    } else {
      var c := Kids(d, n)[hi - 1];
      IndexOfKid(d, n, hi - 1);
      SkipsInKid(d, f, n, p, limit, hi - 1);
      PruningIsRightBelow(d, f, n, p, limit, hi - 1);
      PruningIsRight(d, f, c, p, limit);
      BelowOneMoreKid(d, f, n, p, hi - 1);
      AfterConcat(d, limit, AllBelowKids(d, f, n, p, hi - 1), AllBelow(d, f, c, p));
    }
  }

  lemma SkipsInKid(d: Doc, f: Tolerance, n: Node, p: TextPointer, limit: Option<Point>, i: nat)
    requires n in d.nodes && p.contexts != [] && Tolerant(f) && i < |Kids(d, n)|
    requires limit.Some? ==> limit.value.node in d.nodes
    requires SkipsOnlyBefore(d, f, n, p, limit)
    ensures Kids(d, n)[i] in d.nodes && SkipsOnlyBefore(d, f, Kids(d, n)[i], p, limit)
  {
    hide AllBelow, Order;
    var k := Kids(d, n)[i];
    IndexOfKid(d, n, i);
    assert Above(d, n, k);
    forall m | m in d.nodes && Above(d, k, m)
      ensures Above(d, n, m)
    {
      AboveTransitive(d, n, k, m);
    }
  }

  lemma AllBefore(d: Doc, f: Tolerance, n: Node, p: TextPointer, limit: Point)
    requires n in d.nodes && p.contexts != [] && Tolerant(f) && !IsText(d, n)
    requires limit.node in d.nodes && Order(d, Point(n, FAR), limit) < 0
    requires SkipsOnlyBefore(d, f, n, p, Some(limit))
    ensures After(d, Some(limit), AllBelow(d, f, n, p)) == []
  {
    hide AllBelow, Order;
    var cs := AllBelow(d, f, n, p);
    assert Above(d, n, n);
    AfterNone(d, Some(limit), cs);
  }

  lemma AllBeyond(d: Doc, f: Tolerance, n: Node, p: TextPointer, limit: Point)
    requires n in d.nodes && p.contexts != [] && Tolerant(f) && !IsText(d, n)
    requires limit.node in d.nodes && Order(d, Point(n, 0), limit) > 0
    ensures After(d, Some(limit), AllBelow(d, f, n, p)) == AllBelow(d, f, n, p)
  {
    hide AllBelow, Order;
    var cs := AllBelow(d, f, n, p);
    OrderIsTotal(d, Point(n, 0), limit, limit);
    forall k | 0 <= k < |cs|
      ensures Order(d, cs[k].place, limit) > 0
    {
      CandidatesAreInside(d, f, n, p, cs[k]);
      OrderIsTotal(d, limit, Point(n, 0), cs[k].place);
      OrderIsTotal(d, limit, cs[k].place, limit);
    }
    AfterAll(d, Some(limit), cs);
  }

  lemma BelowText(d: Doc, f: Tolerance, n: Node, p: TextPointer)
    requires n in d.nodes && p.contexts != [] && Tolerant(f) && IsText(d, n)
    ensures AllBelow(d, f, n, p) == Candidates(d, f, n, p)
  {
    TextHasNoKids(d, n);
    assert Leaves(d, n) == [n];
    OneNode(d, f, n, p);
  }

  lemma OneNode(d: Doc, f: Tolerance, n: Node, p: TextPointer)
    requires n in d.nodes && p.contexts != [] && Tolerant(f)
    ensures AllCandidates(d, f, [n], p) == Candidates(d, f, n, p)
  {
    assert [n][1..] == [];
    assert AllCandidates(d, f, [n], p) == Candidates(d, f, n, p) + [];
  }

  /** The candidates below the first hi children. */
  ghost function AllBelowKids(d: Doc, f: Tolerance, n: Node, p: TextPointer, hi: nat): (r: seq<Candidate>)
    requires n in d.nodes && p.contexts != [] && Tolerant(f) && hi <= |Kids(d, n)|
    ensures PlacesIn(d, r)
  {
    KidLeavesAreNodes(d, n, hi);
    AllCandidates(d, f, KidLeaves(d, n, 0, hi), p)
  }

  lemma KidLeavesAreNodes(d: Doc, n: Node, hi: nat)
    requires n in d.nodes && hi <= |Kids(d, n)|
    ensures NodesIn(d, KidLeaves(d, n, 0, hi))
  {
    KidLeavesAreSorted(d, n, 0, hi);
    hide KidLeaves;
    forall i | 0 <= i < |KidLeaves(d, n, 0, hi)|
      ensures KidLeaves(d, n, 0, hi)[i] in d.nodes
    {
      assert KidLeaves(d, n, 0, hi)[i] in KidLeaves(d, n, 0, hi);
    }
  }

  lemma BelowAllKids(d: Doc, f: Tolerance, n: Node, p: TextPointer)
    requires n in d.nodes && p.contexts != [] && Tolerant(f) && !IsText(d, n)
    ensures AllBelow(d, f, n, p) == AllBelowKids(d, f, n, p, |Kids(d, n)|)
  {
    if |Kids(d, n)| == 0 {
      assert Leaves(d, n) == [n];
      OneNode(d, f, n, p);
      OnlyTextHasCandidates(d, f, n, p);
    }
  }

  lemma BelowOneMoreKid(d: Doc, f: Tolerance, n: Node, p: TextPointer, i: nat)
    requires n in d.nodes && p.contexts != [] && Tolerant(f) && i < |Kids(d, n)|
    ensures AllBelowKids(d, f, n, p, i + 1)
         == AllBelowKids(d, f, n, p, i) + AllBelow(d, f, Kids(d, n)[i], p)
  {
    hide AllCandidates, Leaves;
    KidLeavesSplit(d, n, 0, i, i + 1);
    KidLeavesOne(d, n, i);
    KidLeavesAreNodes(d, n, i);
    LeavesAreNodes(d, Kids(d, n)[i]);
    AllConcat(d, f, KidLeaves(d, n, 0, i), Leaves(d, Kids(d, n)[i]), p);
  }

  lemma BelowNoKids(d: Doc, f: Tolerance, n: Node, p: TextPointer, limit: Option<Point>)
    requires n in d.nodes && p.contexts != [] && Tolerant(f) && (limit.Some? ==> limit.value.node in d.nodes)
    ensures After(d, limit, AllBelowKids(d, f, n, p, 0)) == []
  {
    assert KidLeaves(d, n, 0, 0) == [];
  }

  // ---------- The search as it runs ----------

  ghost function LimitOf(limit: DomRange.Position?): Option<Point>
    reads limit
  {
    if limit == null || limit.node.None? then None else Some(limit.At())
  }

  /** A limit is a placed position of the tree of n. */
  ghost predicate LimitFor(d: Doc, n: Node, limit: DomRange.Position?)
    requires n in d.nodes
    reads limit
  {
    limit != null ==> limit.dom == d && limit.node.Some? && limit.Placed() && SameTree(d, n, limit.node.value)
  }

  /** Compares a new position in n with the limit. */
  method Against(d: Doc, n: Node, offset: int, limit: DomRange.Position) returns (order: int)
    requires n in d.nodes && LimitFor(d, n, limit)
    ensures LimitOf(limit).Some?
    ensures order == Order(d, Point(n, DomRange.Clamped(d, Some(n), offset)), LimitOf(limit).value)
  {
    hide Order, Root;
    var place := new DomRange.Position(d, n, offset);
    var comparison := place.Compare(limit);
    order := comparison.value;
  }

  method KeepAfter(d: Doc, n: Node, cs: seq<Candidate>, limit: DomRange.Position?) returns (r: seq<Candidate>)
    requires n in d.nodes && LimitFor(d, n, limit)
    requires forall k | 0 <= k < |cs| :: cs[k].place.node == n && ValidPointOrBelow(d, cs[k].place)
    ensures r == After(d, LimitOf(limit), cs)
  {
    hide Order, SameTree, DomRange.Clamped, After;
    if limit == null {
      WithoutLimit(d, cs);
      return cs;
    }
    ghost var l := LimitOf(limit);
    r := [];
    for k := 0 to |cs|
      invariant r + After(d, l, cs[k..]) == After(d, l, cs)
    {
      AfterOne(d, l.value, cs, k);
      var order := Against(d, n, cs[k].place.offset, limit);
      if order > 0 {
        r := r + [cs[k]];
      }
    }
    assert cs[|cs|..] == [];
    AfterNone(d, l, []);
  }

  lemma WithoutLimit(d: Doc, cs: seq<Candidate>)
    requires PlacesIn(d, cs)
    ensures After(d, None, cs) == cs
  {
  }

  lemma AfterOne(d: Doc, limit: Point, cs: seq<Candidate>, k: nat)
    requires PlacesIn(d, cs) && limit.node in d.nodes && k < |cs|
    ensures After(d, Some(limit), cs[k..])
         == (if Order(d, cs[k].place, limit) > 0 then [cs[k]] else []) + After(d, Some(limit), cs[k + 1..])
  {
    assert cs[k..][0] == cs[k] && cs[k..][1..] == cs[k + 1..];
  }

  /** The offset has been clamped to the data of its node. */
  predicate ValidPointOrBelow(d: Doc, p: Point)
  {
    p.node in d.nodes && p.offset == DomRange.Clamped(d, Some(p.node), p.offset)
  }

  /** The two tests against the limit: whether to skip the subtree at n, and the limit to use below. */
  method Prune(d: Doc, n: Node, limit: DomRange.Position?) returns (skip: bool, below: DomRange.Position?)
    requires n in d.nodes && !IsText(d, n) && LimitFor(d, n, limit)
    ensures skip == (limit != null && Order(d, Point(n, 999999), LimitOf(limit).value) < 0)
    ensures !skip ==>
              below == if limit != null && Order(d, Point(n, 0), LimitOf(limit).value) > 0 then null else limit
  {
    if limit == null {
      return false, null;
    }
    var far := Against(d, n, FAR, limit);
    if far < 0 {
      return true, null;
    }
    var first := Against(d, n, 0, limit);
    return false, if first > 0 then null else limit;
  }

  method GetMatches(d: Doc, f: Tolerance, n: Node, p: TextPointer, limit: DomRange.Position?)
    returns (matches: seq<Candidate>)
    requires n in d.nodes && p.contexts != [] && Tolerant(f) && LimitFor(d, n, limit)
    ensures matches == Search(d, f, n, p, LimitOf(limit))
    decreases d.height - d.level[n]
  {
    hide Order, After, Candidates, Root, Tolerant, ValidPointOrBelow, DomRange.Clamped, Search, SearchKids;
    SearchUnfolds(d, f, n, p, LimitOf(limit));
    assert NodeOk(d, n);
    if IsText(d, n) {
      var outputs := TextMatches(d, f, n, p);
      CandidatesAreClamped(d, f, n, p);
      matches := KeepAfter(d, n, outputs, limit);
    } else {
      matches := [];
      var skip, below := Prune(d, n, limit);
      if skip {
        return;
      }
      ghost var l := LimitOf(below);
      SearchNoKids(d, f, n, p, l);
      for i := 0 to |Kids(d, n)|
        invariant LimitFor(d, n, below) && LimitOf(below) == l
        invariant matches == SearchKids(d, f, n, p, l, i)
      {
        KidInTree(d, n, i);
        SearchOneMoreKid(d, f, n, p, l, i);
        var a := GetMatches(d, f, Kids(d, n)[i], p, below);
        matches := matches + a;
      }
    }
  }

  lemma SearchUnfolds(d: Doc, f: Tolerance, n: Node, p: TextPointer, limit: Option<Point>)
    requires n in d.nodes && p.contexts != [] && Tolerant(f) && (limit.Some? ==> limit.value.node in d.nodes)
    ensures Search(d, f, n, p, limit) ==
            if IsText(d, n) then After(d, limit, Candidates(d, f, n, p))
            else if limit.Some? && Order(d, Point(n, FAR), limit.value) < 0 then []
            else if limit.Some? && Order(d, Point(n, 0), limit.value) > 0 then
              SearchKids(d, f, n, p, None, |Kids(d, n)|)
            else SearchKids(d, f, n, p, limit, |Kids(d, n)|)
  {
    hide Order, After, Candidates, SearchKids, Tolerant;
  }

  lemma SearchNoKids(d: Doc, f: Tolerance, n: Node, p: TextPointer, limit: Option<Point>)
    requires n in d.nodes && p.contexts != [] && Tolerant(f) && (limit.Some? ==> limit.value.node in d.nodes)
    ensures SearchKids(d, f, n, p, limit, 0) == []
  {
  }

  lemma SearchOneMoreKid(d: Doc, f: Tolerance, n: Node, p: TextPointer, limit: Option<Point>, i: nat)
    requires n in d.nodes && p.contexts != [] && Tolerant(f) && (limit.Some? ==> limit.value.node in d.nodes)
    requires i < |Kids(d, n)|
    ensures SearchKids(d, f, n, p, limit, i + 1)
         == SearchKids(d, f, n, p, limit, i) + Search(d, f, Kids(d, n)[i], p, limit)
  {
    hide Search, Tolerant;
  }

  lemma CandidatesAreClamped(d: Doc, f: Tolerance, n: Node, p: TextPointer)
    requires n in d.nodes && IsText(d, n) && p.contexts != [] && Tolerant(f)
    ensures forall k | 0 <= k < |Candidates(d, f, n, p)| ::
              Candidates(d, f, n, p)[k].place.node == n && ValidPointOrBelow(d, Candidates(d, f, n, p)[k].place)
  {
  }

  lemma KidInTree(d: Doc, n: Node, i: nat)
    requires n in d.nodes && i < |Kids(d, n)|
    ensures Kids(d, n)[i] in d.nodes && SameTree(d, n, Kids(d, n)[i])
  {
    IndexOfKid(d, n, i);
  }
}
