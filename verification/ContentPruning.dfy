/** Exactly when pruning the search loses candidates. */
module ContentPruning {
  import opened Options
  import opened Document
  import opened DocumentOrder
  import opened Lexicographic
  import opened TreeWalker
  import opened ContentPointers
  import opened ContentMatches
  import opened ContentSearch

  // ---------- For one limit ----------

  /** What the search finds lies at or below the node. */
  lemma {:induction false} FoundBelow(d: Doc, f: Tolerance, n: Node, p: TextPointer, limit: Option<Point>, c: Candidate)
    requires n in d.nodes && p.contexts != [] && Tolerant(f) && (limit.Some? ==> limit.value.node in d.nodes)
    requires c in Search(d, f, n, p, limit)
    ensures c.place.node in d.nodes && Above(d, n, c.place.node)
    decreases d.height - d.level[n], |Kids(d, n)| + 1
  {
    hide Order, Candidates, After, Search, SearchKids;
    assert NodeOk(d, n);
    SearchUnfolds(d, f, n, p, limit);
    if !IsText(d, n) {
      var below := if limit.Some? && Order(d, Point(n, 0), limit.value) > 0 then None else limit;
      assert c in SearchKids(d, f, n, p, below, |Kids(d, n)|);
      var i := FoundInKid(d, f, n, p, below, |Kids(d, n)|, c);
    }
  }

  lemma {:induction false} FoundInKid(d: Doc, f: Tolerance, n: Node, p: TextPointer, limit: Option<Point>, hi: nat,
                                     c: Candidate) returns (i: nat)
    requires n in d.nodes && p.contexts != [] && Tolerant(f) && (limit.Some? ==> limit.value.node in d.nodes)
    requires hi <= |Kids(d, n)| && c in SearchKids(d, f, n, p, limit, hi)
    ensures i < hi && Kids(d, n)[i] in d.nodes && c in Search(d, f, Kids(d, n)[i], p, limit)
    ensures c.place.node in d.nodes && Above(d, n, c.place.node) && n != c.place.node
    ensures BranchTo(d, n, c.place.node) == i
    decreases d.height - d.level[n], hi
  {
    hide Search, SearchKids;
    SearchNoKids(d, f, n, p, limit);
    i := hi - 1;
    SearchOneMoreKid(d, f, n, p, limit, i);
    if c in Search(d, f, Kids(d, n)[i], p, limit) {
      FoundBelow(d, f, Kids(d, n)[i], p, limit, c);
      BranchIsUnique(d, n, c.place.node, i);
    } else {
      i := FoundInKid(d, f, n, p, limit, hi - 1, c);
    }
  }

  /** Nothing is found in what is skipped. */
  lemma {:induction false} SkippedIsNotFound(d: Doc, f: Tolerance, n: Node, m: Node, p: TextPointer, limit: Point,
                                            c: Candidate)
    requires n in d.nodes && p.contexts != [] && Tolerant(f) && limit.node in d.nodes
    requires m in d.nodes && Above(d, n, m) && !IsText(d, m) && Order(d, Point(m, FAR), limit) < 0
    requires c.place.node in d.nodes && Above(d, m, c.place.node)
    ensures c !in Search(d, f, n, p, Some(limit))
    decreases d.height - d.level[n]
  {
    hide Order, Search, SearchKids, Candidates, After;
    SearchUnfolds(d, f, n, p, Some(limit));
    if n != m {
      StartsBefore(d, n, m, limit);
      var i := BranchTo(d, n, m);
      IndexOfKid(d, n, i);
      if c in SearchKids(d, f, n, p, Some(limit), |Kids(d, n)|) {
        var j := FoundInKid(d, f, n, p, Some(limit), |Kids(d, n)|, c);
        AboveTransitive(d, Kids(d, n)[i], m, c.place.node);
        BranchIsUnique(d, n, c.place.node, i);
        SkippedIsNotFound(d, f, Kids(d, n)[i], m, p, limit, c);
      }
    }
  }

  /** A limit after a place of m comes after the start of everything around m. */
  lemma StartsBefore(d: Doc, n: Node, m: Node, limit: Point)
    requires m in d.nodes && Above(d, n, m) && n != m && limit.node in d.nodes
    requires Order(d, Point(m, FAR), limit) < 0
    ensures n in d.nodes && !IsText(d, n) && Order(d, Point(n, 0), limit) < 0
  {
    BelowKeys(d, n, 0, m, [2 * FAR]);
    OrderIsTotal(d, Point(n, 0), Point(m, FAR), limit);
    if IsText(d, n) {
      TextHasNoKids(d, n);
    }
  }

  /** For each limit, the pruned search finds exactly the candidates after it if and only if no subtree that it
      skips holds one. */
  lemma PruningIsExactIff(d: Doc, f: Tolerance, n: Node, p: TextPointer, limit: Option<Point>)
    requires n in d.nodes && p.contexts != [] && Tolerant(f)
    requires limit.Some? ==> limit.value.node in d.nodes
    ensures Search(d, f, n, p, limit) == After(d, limit, AllBelow(d, f, n, p)) <==> SkipsOnlyBefore(d, f, n, p, limit)
  {
    hide Search, After, AllBelow, Order;
    if SkipsOnlyBefore(d, f, n, p, limit) {
      PruningIsRight(d, f, n, p, limit);
    } else {
      var m, c :| m in d.nodes && Above(d, n, m) && !IsText(d, m) && Order(d, Point(m, FAR), limit.value) < 0
                  && c in AllBelow(d, f, m, p)
                  && !(c.place.node in d.nodes && Order(d, c.place, limit.value) <= 0);
      CandidatesAreInside(d, f, m, p, c);
      SkippedIsNotFound(d, f, n, m, p, limit.value, c);
      HeldAbove(d, f, n, m, p, c);
      AfterHas(d, limit.value, AllBelow(d, f, n, p), c);
    }
  }

  /** The candidates below m are among those below a node above it. */
  lemma HeldAbove(d: Doc, f: Tolerance, n: Node, m: Node, p: TextPointer, c: Candidate)
    requires n in d.nodes && m in d.nodes && Above(d, n, m) && p.contexts != [] && Tolerant(f)
    requires !IsText(d, m) && c in AllBelow(d, f, m, p)
    ensures c in AllBelow(d, f, n, p)
  {
    hide Candidates, Leaves, AllBelow, Tolerant;
    CandidatesAreInside(d, f, m, p, c);
    AboveTransitive(d, n, m, c.place.node);
    HasCandidates(d, f, n, p, c);
  }

  /** The candidates of a text are among those below any node above it. */
  lemma HasCandidates(d: Doc, f: Tolerance, n: Node, p: TextPointer, c: Candidate)
    requires n in d.nodes && p.contexts != [] && Tolerant(f)
    requires c.place.node in d.nodes && Above(d, n, c.place.node) && c in Candidates(d, f, c.place.node, p)
    ensures c in AllBelow(d, f, n, p)
  {
    hide Candidates, Leaves, AllCandidates, Tolerant;
    var t := c.place.node;
    OnlyTextHasCandidates(d, f, t, p);
    TextHasNoKids(d, t);
    LeavesAreChildless(d, n, t);
    LeavesAreNodes(d, n);
    var ns := Leaves(d, n);
    var i :| 0 <= i < |ns| && ns[i] == t;
    assert ns == ns[..i] + ([t] + ns[i + 1..]);
    AllConcat(d, f, ns[..i], [t] + ns[i + 1..], p);
    AllConcat(d, f, [t], ns[i + 1..], p);
    OneNode(d, f, t, p);
  }

  lemma {:induction false} AfterHas(d: Doc, limit: Point, cs: seq<Candidate>, c: Candidate)
    requires PlacesIn(d, cs) && limit.node in d.nodes && c in cs && c.place.node in d.nodes
    requires Order(d, c.place, limit) > 0
    ensures c in After(d, Some(limit), cs)
  {
    if c != cs[0] {
      AfterHas(d, limit, cs[1..], c);
    }
  }

  // ---------- For all limits ----------

  /** The candidate lies below a child of m that does not come before the place FAR, and not at the very start
      of the first such child. */
  ghost predicate TooFar(d: Doc, m: Node, c: Candidate)
    requires m in d.nodes && c.place.node in d.nodes && Above(d, m, c.place.node) && m != c.place.node
  {
    && BranchTo(d, m, c.place.node) >= FAR
    && !(c.place.node == Kids(d, m)[FAR] && c.place.offset <= 0)
  }

  ghost predicate NoneTooFar(d: Doc, f: Tolerance, n: Node, p: TextPointer)
    requires n in d.nodes && p.contexts != [] && Tolerant(f)
  {
    forall m, c | m in d.nodes && Above(d, n, m) && !IsText(d, m) && c in AllBelow(d, f, m, p) ::
      c.place.node in d.nodes && Above(d, m, c.place.node) && m != c.place.node && !TooFar(d, m, c)
  }

  /** A place in the tree of n. */
  ghost predicate PlaceNear(d: Doc, n: Node, limit: Point)
    requires n in d.nodes
  {
    limit.node in d.nodes && SameTree(d, n, limit.node) && limit.offset >= 0
  }

  /** No place of the document lies between a place of m and the start of the text that follows it. */
  lemma NothingBetween(d: Doc, m: Node, i: nat, limit: Point)
    requires m in d.nodes && i < |Kids(d, m)| && IsText(d, Kids(d, m)[i]) && PlaceNear(d, m, limit)
    requires Order(d, Point(m, i), limit) < 0
    ensures Order(d, Point(Kids(d, m)[i], 0), limit) <= 0
  {
    var k, q := Kids(d, m)[i], limit.node;
    hide NodeKey, Lex;
    IndexOfKid(d, m, i);
    assert Above(d, m, k);
    BranchIsUnique(d, m, k, i);
    if Above(d, m, q) && m != q {
      var j := BranchTo(d, m, q);
      BelowKeys(d, m, i, q, [2 * limit.offset]);
      OrderIsTotal(d, Point(m, i), limit, limit);
      if j == i {
        OnlyTheText(d, k, q);
        SameNodeOrder(d, k, 0, limit.offset);
      } else {
        ForkKeys(d, m, k, q, [0], [2 * limit.offset]);
      }
    } else if m == q {
      SameNodeOrder(d, m, i, limit.offset);
      BelowKeys(d, m, limit.offset, k, [0]);
    } else if Above(d, q, m) {
      AboveTransitive(d, q, m, k);
      BranchesAgree(d, q, m, k);
      BelowKeys(d, q, limit.offset, m, [2 * i]);
      BelowKeys(d, q, limit.offset, k, [0]);
    } else {
      SameOutside(d, m, i, k, limit);
    }
  }

  lemma OnlyTheText(d: Doc, k: Node, q: Node)
    requires k in d.nodes && q in d.nodes && IsText(d, k) && Above(d, k, q)
    ensures k == q
  {
    TextHasNoKids(d, k);
    if k != q {
      HasBranch(d, k, q);
    }
  }

  lemma HasBranch(d: Doc, k: Node, q: Node)
    requires q in d.nodes && Above(d, k, q) && k != q
    ensures k in d.nodes && Kids(d, k) != []
  {
    var i := BranchTo(d, k, q);
    IndexOfKid(d, k, i);
  }

  lemma BranchesAgree(d: Doc, q: Node, m: Node, k: Node)
    requires m in d.nodes && k in d.nodes && Above(d, q, m) && q != m && Above(d, m, k)
    ensures Above(d, q, k) && q != k && BranchTo(d, q, k) == BranchTo(d, q, m)
  {
    AboveTransitive(d, q, m, k);
    AboveIsInTree(d, q, m);
    var i := BranchTo(d, q, m);
    AboveTransitive(d, Kids(d, q)[i], m, k);
    BranchIsUnique(d, q, k, i);
  }

  /** Away from m, its places and those below it compare alike. */
  lemma SameOutside(d: Doc, m: Node, i: nat, k: Node, limit: Point)
    requires m in d.nodes && k in d.nodes && Above(d, m, k) && PlaceNear(d, m, limit) && !Above(d, m, limit.node)
    ensures Order(d, Point(m, i), limit) == Order(d, Point(k, 0), limit)
  {
    KeyBelow(d, m, k);
    var rest := NodeKey(d, k)[|NodeKey(d, m)|..];
    assert NodeKey(d, k) + [0] == NodeKey(d, m) + (rest + [0]);
    OrderOutside(d, m, [2 * i], limit);
    OrderOutside(d, m, rest + [0], limit);
  }

  /** The candidates that are not too far are not skipped, whatever the limit. */
  lemma NearIsNotSkipped(d: Doc, f: Tolerance, n: Node, p: TextPointer, limit: Point, m: Node, c: Candidate)
    requires n in d.nodes && p.contexts != [] && Tolerant(f) && NoneTooFar(d, f, n, p) && PlaceNear(d, n, limit)
    requires m in d.nodes && Above(d, n, m) && !IsText(d, m) && Order(d, Point(m, FAR), limit) < 0
    requires c in AllBelow(d, f, m, p)
    ensures c.place.node in d.nodes && Order(d, c.place, limit) <= 0
  {
    hide AllBelow, Order, Candidates, Tolerant;
    CandidatesAreInside(d, f, m, p, c);
    AboveIsInTree(d, n, m);
    if BranchTo(d, m, c.place.node) < FAR {
      OrderIsTotal(d, c.place, Point(m, FAR), limit);
    } else {
      var k := Kids(d, m)[FAR];
      assert !TooFar(d, m, c);
      OnlyTextHasCandidates(d, f, k, p);
      NothingBetween(d, m, FAR, limit);
      SameNodeOrder(d, k, c.place.offset, 0);
      OrderIsTotal(d, c.place, Point(k, 0), limit);
    }
  }

  /** One that is too far is skipped for the limit at the start of the child at FAR. */
  lemma FarIsSkipped(d: Doc, m: Node, c: Candidate)
    requires m in d.nodes && c.place.node in d.nodes && Above(d, m, c.place.node) && m != c.place.node
    requires TooFar(d, m, c)
    ensures FAR < |Kids(d, m)| && PlaceNear(d, m, Point(Kids(d, m)[FAR], 0))
    ensures Order(d, Point(m, FAR), Point(Kids(d, m)[FAR], 0)) < 0
    ensures Order(d, c.place, Point(Kids(d, m)[FAR], 0)) > 0
  {
    hide NodeKey, Lex;
    var k, t := Kids(d, m)[FAR], c.place.node;
    IndexOfKid(d, m, FAR);
    assert Above(d, m, k);
    AboveIsInTree(d, m, k);
    BranchIsUnique(d, m, k, FAR);
    BelowKeys(d, m, FAR, k, [0]);
    if BranchTo(d, m, t) > FAR {
      ForkKeys(d, m, k, t, [0], [2 * c.place.offset]);
    } else if t == k {
      SameNodeOrder(d, k, c.place.offset, 0);
    } else {
      BelowKeys(d, k, 0, t, [2 * c.place.offset]);
    }
  }

  /** The search is exact for every limit if and only if no candidate is too far: if none lies below a child at
      place FAR or later of its parent, or of a node further up, unless it is the start of the text that is the
      child at FAR itself. */
  lemma AllLimitsExactIff(d: Doc, f: Tolerance, n: Node, p: TextPointer)
    requires n in d.nodes && p.contexts != [] && Tolerant(f)
    ensures (forall limit | PlaceNear(d, n, limit) ::
               Search(d, f, n, p, Some(limit)) == After(d, Some(limit), AllBelow(d, f, n, p)))
            <==> NoneTooFar(d, f, n, p)
  {
    hide Search, After, AllBelow, Order, Root, Tolerant;
    if NoneTooFar(d, f, n, p) {
      forall limit | PlaceNear(d, n, limit)
        ensures Search(d, f, n, p, Some(limit)) == After(d, Some(limit), AllBelow(d, f, n, p))
      {
        NearIsExact(d, f, n, p, limit);
      }
    } else {
      var m, limit := FarIsLost(d, f, n, p);
      assert PlaceNear(d, n, limit);
    }
  }

  lemma NearIsExact(d: Doc, f: Tolerance, n: Node, p: TextPointer, limit: Point)
    requires n in d.nodes && p.contexts != [] && Tolerant(f) && NoneTooFar(d, f, n, p) && PlaceNear(d, n, limit)
    ensures Search(d, f, n, p, Some(limit)) == After(d, Some(limit), AllBelow(d, f, n, p))
  {
    hide Search, After, AllBelow, Order, Root, Tolerant;
    forall m, c | m in d.nodes && Above(d, n, m) && !IsText(d, m) && Order(d, Point(m, FAR), limit) < 0
                  && c in AllBelow(d, f, m, p)
      ensures c.place.node in d.nodes && Order(d, c.place, limit) <= 0
    {
      NearIsNotSkipped(d, f, n, p, limit, m, c);
    }
    PruningIsRight(d, f, n, p, Some(limit));
  }

  lemma FarIsLost(d: Doc, f: Tolerance, n: Node, p: TextPointer) returns (m: Node, limit: Point)
    requires n in d.nodes && p.contexts != [] && Tolerant(f) && !NoneTooFar(d, f, n, p)
    ensures m in d.nodes && Above(d, n, m) && PlaceNear(d, n, limit)
    ensures Search(d, f, n, p, Some(limit)) != After(d, Some(limit), AllBelow(d, f, n, p))
  {
    hide Search, After, AllBelow, Order, TooFar, Tolerant;
    var k, c :| k in d.nodes && Above(d, n, k) && !IsText(d, k) && c in AllBelow(d, f, k, p)
                && !(c.place.node in d.nodes && Above(d, k, c.place.node) && k != c.place.node && !TooFar(d, k, c));
    m := k;
    CandidatesAreInside(d, f, m, p, c);
    FarIsSkipped(d, m, c);
    limit := Point(Kids(d, m)[FAR], 0);
    AboveIsInTree(d, n, m);
    assert !SkipsOnlyBefore(d, f, n, p, Some(limit));
    PruningIsExactIff(d, f, n, p, Some(limit));
  }

  /** For example, an element with more than FAR children is skipped for a limit at the start of the text that
      is the child at FAR, although the matches further on in that text come after the limit. */
  lemma TooWideLosesMatches(d: Doc, f: Tolerance, n: Node, p: TextPointer, c: Candidate)
    requires n in d.nodes && p.contexts != [] && Tolerant(f) && |Kids(d, n)| > FAR
    requires var m := Kids(d, n)[FAR]; m in d.nodes && IsText(d, m) && c in Candidates(d, f, m, p)
    requires c.place.offset > 0
    ensures var limit := Some(Point(Kids(d, n)[FAR], 0));
            && Search(d, f, n, p, limit) == []
            && c in After(d, limit, AllBelow(d, f, n, p))
  {
    hide AllBelow, Candidates, NodeKey, Lex, After, SearchKids;
    var m := Kids(d, n)[FAR];
    IndexOfKid(d, n, FAR);
    assert Above(d, n, m);
    BranchIsUnique(d, n, m, FAR);
    BelowKeys(d, n, FAR, m, [0]);
    if IsText(d, n) {
      TextHasNoKids(d, n);
    }
    SearchUnfolds(d, f, n, p, Some(Point(m, 0)));
    HasCandidates(d, f, n, p, c);
    SameNodeOrder(d, m, c.place.offset, 0);
    AfterHas(d, Point(m, 0), AllBelow(d, f, n, p), c);
  }
}
