/** The round trip of a text range through a content range, in an unchanged document. */
module RoundTrip {
  import opened Options
  import opened Document
  import opened DocumentOrder
  import opened Lexicographic
  import opened TreeWalker
  import opened RangeText
  import opened Strings
  import opened ContentPointers
  import opened ContentMatches
  import opened ContentSearch
  import opened ContentRanges
  import DomRange

  // ---------- Perfect matches ----------

  /** The words of the pointer stand in the data where they are expected, from the end for a start and from the
      start for an end; so many leaves further, every text has the further words and every element has none; and
      the pointer has no fewer contexts than it would have been given here. */
  ghost predicate Perfect(d: Doc, n: Node, p: TextPointer)
    requires n in d.nodes && p.contexts != []
  {
    && IsText(d, n)
    && OccursAt(Data(d, n), p.contexts[0].text,
                if p.role.Backward? then |Data(d, n)| - p.contexts[0].offset else p.contexts[0].offset)
    && MeetsAll(d, p.role, n, p.contexts[1..])
  }

  /** A node has a candidate that scores 1 exactly when it matches perfectly. */
  lemma ScoresOneIffPerfect(d: Doc, f: Tolerance, n: Node, p: TextPointer)
    requires n in d.nodes && p.contexts != [] && Tolerant(f)
    ensures (exists k | 0 <= k < |Candidates(d, f, n, p)| :: Candidates(d, f, n, p)[k].score == 1.0)
       <==> Perfect(d, n, p)
  {
    if IsText(d, n) {
      MultiplierInWords(d, p.role, n, p.contexts[1..]);
      hide Multiplier, OccursAt, MeetsAll, MeetsAt, Discount;
      var lefts := Occurrences(Data(d, n), p.contexts[0].text, 0);
      OccurrencesAreAll(Data(d, n), p.contexts[0].text, 0);
      if Perfect(d, n, p) {
        var k :| 0 <= k < |lefts| && lefts[k] == Expected(p, |Data(d, n)|);
        assert Candidates(d, f, n, p)[k].score == 1.0;
      }
      forall k | 0 <= k < |lefts| && Candidates(d, f, n, p)[k].score == 1.0
        ensures Perfect(d, n, p)
      {
        assert lefts[k] in lefts;
        assert Candidates(d, f, n, p)[k] == CandidateAt(d, f, n, p, lefts[k]);
      }
    }
  }

  /** The contexts taken on the way out agree on the way back, and there were as many as could be had. */
  lemma {:induction false} SecondaryAgrees(d: Doc, w: WordOf, dir: Direction, n: Node, total: nat, count: nat)
    requires n in d.nodes && TakesWords(w)
    ensures var cs := Secondary(d, w, dir, n, total, count);
            && Agreement(d, dir, n, cs) == |cs|
            && (Walk(d, dir, n, |cs| + 1).None?
                || total + TotalLength(cs) >= ENOUGH_CHARACTERS
                || count + |cs| > ENOUGH_CONTEXTS)
    decreases ENOUGH_CONTEXTS + 1 - count
  {
    hide Step, Secondary, Agreement, Walk, Agrees, ContextOf;
    var next := Step(d, dir, n);
    SecondaryUnfolds(d, w, dir, n, total, count);
    if next.Some? && total < ENOUGH_CHARACTERS && count <= ENOUGH_CONTEXTS {
      var c := ContextOf(d, w, dir, next.value);
      var rest := Secondary(d, w, dir, next.value, total + |c.text|, count + 1);
      SecondaryAgrees(d, w, dir, next.value, total + |c.text|, count + 1);
      OwnContextAgrees(d, w, dir, next.value);
      AgreesAndGoesOn(d, dir, n, c, rest);
      WalkStarts(d, dir, n, |rest| + 1);
    } else {
      NothingToAgree(d, dir, n);
      WalkStarts(d, dir, n, 0);
    }
  }

  lemma NothingToAgree(d: Doc, dir: Direction, n: Node)
    requires n in d.nodes
    ensures Agreement(d, dir, n, []) == 0 && TotalLength([]) == 0
    ensures Walk(d, dir, n, 0) == Some(n)
  {
  }

  lemma AgreesAndGoesOn(d: Doc, dir: Direction, n: Node, c: TextContext, rest: seq<TextContext>)
    requires n in d.nodes && Step(d, dir, n).Some? && Agrees(d, Step(d, dir, n).value, c)
    ensures Agreement(d, dir, n, [c] + rest) == 1 + Agreement(d, dir, Step(d, dir, n).value, rest)
    ensures TotalLength([c] + rest) == |c.text| + TotalLength(rest)
  {
    hide Step, Agrees;
    assert ([c] + rest)[1..] == rest;
  }

  lemma WalkStarts(d: Doc, dir: Direction, n: Node, k: nat)
    requires n in d.nodes
    ensures Walk(d, dir, n, k + 1) ==
            if Step(d, dir, n).None? then None else Walk(d, dir, Step(d, dir, n).value, k)
  {
    hide Step;
  }

  lemma OwnContextAgrees(d: Doc, w: WordOf, dir: Direction, n: Node)
    requires n in d.nodes && TakesWords(w)
    ensures Agrees(d, n, ContextOf(d, w, dir, n))
  {
    if IsText(d, n) {
      var data := Data(d, n);
      assert Occurs(data, w(dir, data));
      var i :| 0 <= i <= |data| && OccursAt(data, w(dir, data), i);
    }
  }

  /** In the node it came from, the primary context stands where the pointer expects it. */
  lemma OriginalIsThere(d: Doc, w: WordOf, dir: Direction, t: Node, o: nat, a: Node)
    requires t in d.nodes && IsText(d, t) && o <= |Data(d, t)| && a in d.nodes && d.nodes[a].kind.Element?
    ensures var p, data := PointerTo(d, w, dir, t, o, a), Data(d, t);
            && Expected(p, |data|) == WordStart(data, o) && p.edgeOffset == o - WordStart(data, o)
            && OccursAt(data, p.contexts[0].text, WordStart(data, o))
            && p.contexts[1..] == Secondary(d, w, dir, t, 0, 1)
  {
    hide Secondary, FindLast;
  }

  lemma OriginalAgrees(d: Doc, w: WordOf, dir: Direction, t: Node, o: nat, a: Node)
    requires t in d.nodes && IsText(d, t) && o <= |Data(d, t)| && TakesWords(w)
    requires a in d.nodes && d.nodes[a].kind.Element?
    ensures var p := PointerTo(d, w, dir, t, o, a); Multiplier(d, p.role, t, p.contexts[1..]) == 1.0
  {
    OriginalIsThere(d, w, dir, t, o, a);
    SecondaryAgrees(d, w, dir, t, 0, 1);
    hide Secondary, Agreement, Walk;
  }

  lemma CandidatePlace(d: Doc, f: Tolerance, n: Node, p: TextPointer, left: int)
    requires n in d.nodes && IsText(d, n) && p.contexts != [] && Tolerant(f) && left >= 0
    requires 0 <= left + p.edgeOffset <= |Data(d, n)|
    ensures CandidateAt(d, f, n, p, left).place == Point(n, left + p.edgeOffset)
  {
    hide Multiplier, PlaceScore;
  }

  /** Only the candidate at the place expected can score 1, and it names the point. */
  lemma PerfectCandidate(d: Doc, f: Tolerance, n: Node, p: TextPointer, o: nat)
    requires n in d.nodes && IsText(d, n) && o <= |Data(d, n)| && p.contexts != [] && Tolerant(f)
    requires Perfect(d, n, p) && Expected(p, |Data(d, n)|) + p.edgeOffset == o
    ensures var cs := Candidates(d, f, n, p);
            && Candidate(Point(n, o), 1.0) in cs
            && forall c | c in cs :: c.score == 1.0 ==> c == Candidate(Point(n, o), 1.0)
  {
    hide *;
    var lefts, cs := Lefts(d, n, p), Candidates(d, f, n, p);
    CandidatesOf(d, f, n, p);
    var k := ExpectedIsLeft(d, n, p);
    PerfectScore(d, f, n, p, lefts[k], o);
    assert cs[k] == Candidate(Point(n, o), 1.0);
    forall c | c in cs
      ensures c.score == 1.0 ==> c == cs[k]
    {
      var j :| 0 <= j < |cs| && cs[j] == c;
      PerfectScore(d, f, n, p, lefts[j], o);
    }
  }

  function Lefts(d: Doc, n: Node, p: TextPointer): seq<nat>
    requires n in d.nodes && IsText(d, n) && p.contexts != []
  {
    Occurrences(Data(d, n), p.contexts[0].text, 0)
  }

  lemma CandidatesOf(d: Doc, f: Tolerance, n: Node, p: TextPointer)
    requires n in d.nodes && IsText(d, n) && p.contexts != [] && Tolerant(f)
    ensures var lefts, cs := Lefts(d, n, p), Candidates(d, f, n, p);
            |cs| == |lefts| && forall k | 0 <= k < |cs| :: cs[k] == CandidateAt(d, f, n, p, lefts[k])
  {
    hide CandidateAt, Occurrences;
  }

  lemma ExpectedIsLeft(d: Doc, n: Node, p: TextPointer) returns (k: nat)
    requires n in d.nodes && IsText(d, n) && p.contexts != [] && Perfect(d, n, p)
    ensures k < |Lefts(d, n, p)| && Lefts(d, n, p)[k] == Expected(p, |Data(d, n)|)
  {
    hide Occurrences, MeetsAll;
    OccurrencesAreAll(Data(d, n), p.contexts[0].text, 0);
    k :| 0 <= k < |Lefts(d, n, p)| && Lefts(d, n, p)[k] == Expected(p, |Data(d, n)|);
  }

  /** The candidate at the place expected, and only that one, scores 1. */
  lemma PerfectScore(d: Doc, f: Tolerance, n: Node, p: TextPointer, left: nat, o: nat)
    requires n in d.nodes && IsText(d, n) && o <= |Data(d, n)| && p.contexts != [] && Tolerant(f)
    requires Perfect(d, n, p) && Expected(p, |Data(d, n)|) + p.edgeOffset == o
    ensures if left == Expected(p, |Data(d, n)|) then CandidateAt(d, f, n, p, left) == Candidate(Point(n, o), 1.0)
            else CandidateAt(d, f, n, p, left).score != 1.0
  {
    MultiplierInWords(d, p.role, n, p.contexts[1..]);
    hide MeetsAll, MeetsAt, Discount;
    if left == Expected(p, |Data(d, n)|) {
      CandidatePlace(d, f, n, p, left);
    }
    hide CandidateAt, OccursAt, Multiplier, Expected;
  }

  /** In the node it came from, a pointer's perfect match is the original place; any other occurrence of
      the same words scores less. */
  lemma OriginalIsPerfect(d: Doc, f: Tolerance, w: WordOf, dir: Direction, t: Node, o: nat, a: Node)
    requires t in d.nodes && IsText(d, t) && o <= |Data(d, t)| && TakesWords(w) && Tolerant(f)
    requires a in d.nodes && d.nodes[a].kind.Element?
    ensures var p := PointerTo(d, w, dir, t, o, a);
            && Perfect(d, t, p)
            && Candidate(Point(t, o), 1.0) in Candidates(d, f, t, p)
            && forall c | c in Candidates(d, f, t, p) ::
                 0.0 < c.score <= 1.0 && (c.score == 1.0 ==> c == Candidate(Point(t, o), 1.0))
  {
    OriginalIsThere(d, w, dir, t, o, a);
    OriginalAgrees(d, w, dir, t, o, a);
    var p := PointerTo(d, w, dir, t, o, a);
    MultiplierInWords(d, p.role, t, p.contexts[1..]);
    hide PointerTo, Secondary, Multiplier, WordStart, Candidates, MeetsAll, MeetsAt, Discount;
    assert Perfect(d, t, p);
    hide Expected;
    PerfectCandidate(d, f, t, p, o);
    forall c | c in Candidates(d, f, t, p)
      ensures 0.0 < c.score <= 1.0
    {
      var j :| 0 <= j < |Candidates(d, f, t, p)| && Candidates(d, f, t, p)[j] == c;
    }
  }

  // ---------- Which candidate wins ----------

  /** A perfect match later in the scope, which would win over the original place. */
  ghost predicate HasRival(d: Doc, scope: Node, t: Node, p: TextPointer)
    requires scope in d.nodes && t in d.nodes && p.contexts != []
  {
    exists m | m in d.nodes && Above(d, scope, m) && Precedes(d, t, m) :: Perfect(d, m, p)
  }

  ghost predicate Beyond(d: Doc, limit: Option<Point>, p: Point)
    requires p.node in d.nodes && (limit.Some? ==> limit.value.node in d.nodes)
  {
    limit.None? || Order(d, p, limit.value) > 0
  }

  lemma {:induction false} KeptIfBeyond(d: Doc, limit: Option<Point>, cs: seq<Candidate>, c: Candidate)
    requires PlacesIn(d, cs) && (limit.Some? ==> limit.value.node in d.nodes) && c in cs
    ensures c.place.node in d.nodes && (c in After(d, limit, cs) <==> Beyond(d, limit, c.place))
  {
    if limit.Some? {
      hide Order;
      if c in After(d, limit, cs) {
        AfterIsAfter(d, limit, cs, c);
      } else if c != cs[0] {
        KeptIfBeyond(d, limit, cs[1..], c);
      }
    }
  }

  /** Among the candidates of the original's own node the original is best, if the limit keeps it. */
  lemma BestOfOwnNode(d: Doc, f: Tolerance, w: WordOf, dir: Direction, t: Node, o: nat, a: Node,
                      limit: Option<Point>)
    requires t in d.nodes && IsText(d, t) && o <= |Data(d, t)| && TakesWords(w) && Tolerant(f)
    requires a in d.nodes && d.nodes[a].kind.Element?
    requires limit.Some? ==> limit.value.node in d.nodes
    requires Beyond(d, limit, Point(t, o))
    ensures var own := After(d, limit, Candidates(d, f, t, PointerTo(d, w, dir, t, o, a)));
            own != [] && Best(own) == Candidate(Point(t, o), 1.0)
  {
    hide Candidates, PointerTo, Order;
    var p := PointerTo(d, w, dir, t, o, a);
    var original := Candidate(Point(t, o), 1.0);
    OriginalIsPerfect(d, f, w, dir, t, o, a);
    KeptIfBeyond(d, limit, Candidates(d, f, t, p), original);
    var own := After(d, limit, Candidates(d, f, t, p));
    BestIsHighest(own);
    assert Best(own) in Candidates(d, f, t, p);
  }

  /** Later leaves hold a candidate that scores 1, beyond the limit, exactly when one matches perfectly. */
  lemma PerfectLater(d: Doc, f: Tolerance, ns: seq<Node>, p: TextPointer, limit: Option<Point>)
    requires NodesIn(d, ns) && p.contexts != [] && Tolerant(f)
    requires limit.Some? ==> limit.value.node in d.nodes
    requires forall i, u | 0 <= i < |ns| && IsText(d, ns[i]) :: Beyond(d, limit, Point(ns[i], u))
    ensures var later := After(d, limit, AllCandidates(d, f, ns, p));
            (later != [] && Best(later).score == 1.0) <==> exists i | 0 <= i < |ns| :: Perfect(d, ns[i], p)
    ensures var later := After(d, limit, AllCandidates(d, f, ns, p));
            later != [] ==> Best(later).score <= 1.0 && Best(later).place.node in ns
  {
    hide Candidates, Perfect, Beyond;
    var all := AllCandidates(d, f, ns, p);
    var later := After(d, limit, all);
    if later != [] {
      BestIsHighest(later);
      var k :| 0 <= k < |all| && all[k] == Best(later);
      var i := AllComeFrom(d, f, ns, p, k);
      ScoresOneIffPerfect(d, f, ns[i], p);
      assert ns[i] in ns;
    }
    forall i | 0 <= i < |ns| && Perfect(d, ns[i], p)
      ensures later != [] && Best(later).score == 1.0
    {
      ScoresOneIffPerfect(d, f, ns[i], p);
      OnlyTextHasCandidates(d, f, ns[i], p);
      var cs := Candidates(d, f, ns[i], p);
      var k :| 0 <= k < |cs| && cs[k].score == 1.0;
      HasCandidatesOf(d, f, ns, p, i, cs[k]);
      assert Beyond(d, limit, Point(ns[i], cs[k].place.offset));
      KeptIfBeyond(d, limit, all, cs[k]);
    }
  }

  lemma {:induction false} HasCandidatesOf(d: Doc, f: Tolerance, ns: seq<Node>, p: TextPointer, i: nat, c: Candidate)
    requires NodesIn(d, ns) && p.contexts != [] && Tolerant(f) && i < |ns| && c in Candidates(d, f, ns[i], p)
    ensures c in AllCandidates(d, f, ns, p)
  {
    hide Candidates, Tolerant;
    if i > 0 {
      HasCandidatesOf(d, f, ns[1..], p, i - 1, c);
    }
  }

  /** What lies after a text node lies beyond any limit that a point of the node is beyond. */
  lemma LaterIsBeyond(d: Doc, t: Node, o: int, m: Node, u: int, limit: Option<Point>)
    requires t in d.nodes && m in d.nodes && SameTree(d, t, m) && Kids(d, t) == [] && Kids(d, m) == []
    requires Lex(NodeKey(d, t), NodeKey(d, m)) < 0
    requires limit.Some? ==> limit.value.node in d.nodes
    requires Beyond(d, limit, Point(t, o))
    ensures Beyond(d, limit, Point(m, u))
  {
    if limit.Some? {
      LexZero(NodeKey(d, t), NodeKey(d, m));
      LeafKeysDecide(d, Point(t, o), Point(m, u));
      OrderIsTotal(d, limit.value, Point(t, o), Point(m, u));
      OrderIsTotal(d, Point(t, o), limit.value, limit.value);
      OrderIsTotal(d, limit.value, Point(m, u), limit.value);
    }
  }

  /** The leaves of the scope around t, and the search result cut there. */
  lemma MatchesAround(d: Doc, f: Tolerance, scope: Node, t: Node, p: TextPointer, limit: Option<Point>)
    returns (before: seq<Node>, later: seq<Node>)
    requires scope in d.nodes && t in d.nodes && IsText(d, t) && Above(d, scope, t) && NarrowBelow(d, scope)
    requires p.contexts != [] && Tolerant(f)
    requires limit.Some? ==> limit.value.node in d.nodes && SameTree(d, scope, limit.value.node)
    ensures NodesIn(d, before) && NodesIn(d, later)
    ensures Leaves(d, scope) == before + [t] + later
    ensures Search(d, f, scope, p, limit)
         == After(d, limit, AllCandidates(d, f, before, p))
            + After(d, limit, Candidates(d, f, t, p))
            + After(d, limit, AllCandidates(d, f, later, p))
  {
    hide Leaves, Candidates, AllCandidates, After, Search, NarrowBelow, Root, Tolerant;
    TextHasNoKids(d, t);
    LeavesAreChildless(d, scope, t);
    LeavesAreNodes(d, scope);
    var ns := Leaves(d, scope);
    var i :| 0 <= i < |ns| && ns[i] == t;
    before, later := ns[..i], ns[i + 1..];
    assert ns == before + [t] + later;
    PruningIsExact(d, f, scope, p, limit);
    AllConcat(d, f, before + [t], later, p);
    AllConcat(d, f, before, [t], p);
    OneNode(d, f, t, p);
    AfterConcat(d, limit, AllCandidates(d, f, before + [t], p), AllCandidates(d, f, later, p));
    AfterConcat(d, limit, AllCandidates(d, f, before, p), Candidates(d, f, t, p));
  }

  /** The leaves after t are preceded by t. */
  lemma LaterLeaves(d: Doc, scope: Node, t: Node, before: seq<Node>, later: seq<Node>)
    requires scope in d.nodes && t in d.nodes && IsText(d, t) && Above(d, scope, t)
    requires Leaves(d, scope) == before + [t] + later
    ensures forall i | 0 <= i < |later| :: later[i] != t && IsLaterLeaf(d, scope, t, later[i])
  {
    LeavesAreSorted(d, scope);
    hide Leaves, Precedes, Root;
    AboveIsInTree(d, scope, t);
    LexZero(NodeKey(d, t), NodeKey(d, t));
    forall i | 0 <= i < |later|
      ensures later[i] != t && IsLaterLeaf(d, scope, t, later[i])
    {
      assert LeafAt(before + [t] + later, |before| + 1 + i, later[i]);
      assert LeafAt(before + [t] + later, |before|, t);
      assert later[i] in Leaves(d, scope);
      AboveIsInTree(d, scope, later[i]);
      PrecedesByKey(d, t, later[i]);
    }
  }

  predicate LeafAt(s: seq<Node>, j: nat, n: Node)
  {
    j < |s| && s[j] == n
  }

  ghost predicate IsLaterLeaf(d: Doc, scope: Node, t: Node, m: Node)
    requires t in d.nodes
  {
    && m in d.nodes && Above(d, scope, m) && SameTree(d, t, m) && Kids(d, m) == []
    && Lex(NodeKey(d, t), NodeKey(d, m)) < 0 && Precedes(d, t, m)
  }

  /** A childless node of the scope that t precedes is one of the leaves after t. */
  lemma LaterLeavesAreAll(d: Doc, scope: Node, t: Node, before: seq<Node>, later: seq<Node>, m: Node)
    requires scope in d.nodes && t in d.nodes && IsText(d, t) && Above(d, scope, t)
    requires Leaves(d, scope) == before + [t] + later
    requires m in d.nodes && Above(d, scope, m) && Precedes(d, t, m) && Kids(d, m) == []
    ensures m in later
  {
    LeavesAreSorted(d, scope);
    LeavesAreChildless(d, scope, m);
    hide Leaves, Precedes, Root;
    AboveIsInTree(d, scope, t);
    AboveIsInTree(d, scope, m);
    PrecedesByKey(d, t, m);
    LexZero(NodeKey(d, t), NodeKey(d, t));
    var ns := before + [t] + later;
    var j :| 0 <= j < |ns| && ns[j] == m;
    assert LeafAt(ns, |before|, t);
    if j < |before| {
      LexAntisymmetric(NodeKey(d, t), NodeKey(d, m));
    } else {
      assert m == later[j - |before| - 1];
    }
  }

  lemma RivalIsLaterLeaf(d: Doc, scope: Node, t: Node, p: TextPointer, before: seq<Node>, later: seq<Node>)
    requires scope in d.nodes && t in d.nodes && IsText(d, t) && Above(d, scope, t) && p.contexts != []
    requires Leaves(d, scope) == before + [t] + later && NodesIn(d, later)
    ensures HasRival(d, scope, t, p) <==> exists i | 0 <= i < |later| :: Perfect(d, later[i], p)
  {
    hide Leaves, Precedes;
    LaterLeaves(d, scope, t, before, later);
    if HasRival(d, scope, t, p) {
      var m :| m in d.nodes && Above(d, scope, m) && Precedes(d, t, m) && Perfect(d, m, p);
      TextHasNoKids(d, m);
      LaterLeavesAreAll(d, scope, t, before, later, m);
    }
  }

  /** Searched for in a scope around its node, a pointer resolves to the place it was made for exactly
      when the place is beyond the limit and has no rival. */
  lemma OriginalWins(d: Doc, f: Tolerance, w: WordOf, dir: Direction, t: Node, o: nat, a: Node,
                     scope: Node, limit: Option<Point>)
    requires t in d.nodes && IsText(d, t) && o <= |Data(d, t)| && TakesWords(w) && Tolerant(f)
    requires a in d.nodes && d.nodes[a].kind.Element?
    requires scope in d.nodes && Above(d, scope, t) && NarrowBelow(d, scope)
    requires limit.Some? ==> limit.value.node in d.nodes && SameTree(d, scope, limit.value.node)
    ensures var p := PointerTo(d, w, dir, t, o, a);
            var matches := Search(d, f, scope, p, limit);
            && (matches != [] && Best(matches).place == Point(t, o)
                <==> Beyond(d, limit, Point(t, o)) && !HasRival(d, scope, t, p))
  {
    hide Candidates, AllCandidates, After, Search, PointerTo, Order, Leaves, HasRival, NarrowBelow, Perfect;
    var p := PointerTo(d, w, dir, t, o, a);
    var matches := Search(d, f, scope, p, limit);
    var before, later := MatchesAround(d, f, scope, t, p, limit);
    if Beyond(d, limit, Point(t, o)) {
      LaterLeaves(d, scope, t, before, later);
      TextHasNoKids(d, t);
      forall i, u | 0 <= i < |later| && IsText(d, later[i])
        ensures Beyond(d, limit, Point(later[i], u))
      {
        LaterIsBeyond(d, t, o, later[i], u, limit);
      }
      RivalIsLaterLeaf(d, scope, t, p, before, later);
      WinnerAmongThree(d, f, w, dir, t, o, a, before, later, limit);
    } else if matches != [] {
      BestIsHighest(matches);
      PruningIsExact(d, f, scope, p, limit);
      AfterIsAfter(d, limit, AllBelow(d, f, scope, p), Best(matches));
    }
  }

  lemma WinnerAmongThree(d: Doc, f: Tolerance, w: WordOf, dir: Direction, t: Node, o: nat, a: Node,
                         before: seq<Node>, later: seq<Node>, limit: Option<Point>)
    requires t in d.nodes && IsText(d, t) && o <= |Data(d, t)| && TakesWords(w) && Tolerant(f)
    requires a in d.nodes && d.nodes[a].kind.Element?
    requires NodesIn(d, before) && NodesIn(d, later) && t !in later
    requires limit.Some? ==> limit.value.node in d.nodes
    requires Beyond(d, limit, Point(t, o))
    requires forall i, u | 0 <= i < |later| && IsText(d, later[i]) :: Beyond(d, limit, Point(later[i], u))
    ensures var p := PointerTo(d, w, dir, t, o, a);
            var matches := After(d, limit, AllCandidates(d, f, before, p))
                           + After(d, limit, Candidates(d, f, t, p))
                           + After(d, limit, AllCandidates(d, f, later, p));
            && matches != []
            && (Best(matches).place == Point(t, o) <==> !exists i | 0 <= i < |later| :: Perfect(d, later[i], p))
  {
    hide Candidates, AllCandidates, After, PointerTo, Order, Perfect, Beyond;
    var p := PointerTo(d, w, dir, t, o, a);
    var x := After(d, limit, AllCandidates(d, f, before, p));
    var own := After(d, limit, Candidates(d, f, t, p));
    var y := After(d, limit, AllCandidates(d, f, later, p));
    BestOfOwnNode(d, f, w, dir, t, o, a, limit);
    if x != [] {
      BestIsHighest(x);
      var k :| 0 <= k < |AllCandidates(d, f, before, p)| && AllCandidates(d, f, before, p)[k] == Best(x);
      var i := AllComeFrom(d, f, before, p, k);
      BestOfTwo(x, own);
    } else {
      assert x + own == own;
    }
    assert Best(x + own) == Candidate(Point(t, o), 1.0);
    BestOfTwo(x + own, y);
    PerfectLater(d, f, later, p, limit);
  }

  // ---------- The round trip ----------

  /** No other element under the document looks like the anchor. */
  ghost predicate UniqueAnchor(d: Doc, document: Node, anchor: Node)
    requires document in d.nodes && anchor in d.nodes && d.nodes[anchor].kind.Element?
  {
    forall m | m in d.nodes && Above(d, document, m) && d.nodes[m].kind.Element?
               && d.nodes[m].kind.id == d.nodes[anchor].kind.id
               && d.nodes[m].kind.tagName == d.nodes[anchor].kind.tagName :: m == anchor
  }

  /** The search for a unique anchor ends in a subtree that holds everything below the anchor. */
  lemma ScopeHoldsAnchor(d: Doc, document: Node, anchor: Node, t: Node)
    requires document in d.nodes && anchor in d.nodes && t in d.nodes && d.nodes[anchor].kind.Element?
    requires UniqueAnchor(d, document, anchor) && Above(d, document, anchor) && Above(d, anchor, t)
    ensures Seek(d, document, ConvertElement(d, anchor)).Some?
    ensures var scope := Seek(d, document, ConvertElement(d, anchor)).value;
            Above(d, document, scope) && Above(d, scope, anchor) && Above(d, scope, t)
  {
    var e := ConvertElement(d, anchor);
    SeekFinds(d, document, e);
    assert IsReferent(d, anchor, e);
    var scope := Seek(d, document, e).value;
    var m :| m in d.nodes && Above(d, scope, m) && IsReferent(d, m, e);
    AboveTransitive(d, document, scope, m);
    AboveTransitive(d, scope, anchor, t);
  }

  lemma NarrowDown(d: Doc, n: Node, m: Node)
    requires n in d.nodes && m in d.nodes && Above(d, n, m) && NarrowBelow(d, n)
    ensures NarrowBelow(d, m)
  {
    forall x | x in d.nodes && Above(d, m, x)
      ensures |Kids(d, x)| <= FAR
    {
      AboveTransitive(d, n, m, x);
    }
  }

  /** A text pointer resolves to the point it was made for exactly when that point is beyond the limit
      and no later node of the scope matches it perfectly. */
  lemma PointRoundTrip(d: Doc, f: Tolerance, w: WordOf, document: Node, anchor: Node, dir: Direction,
                       t: Node, o: nat, a: Node, limit: Option<Point>)
    requires t in d.nodes && IsText(d, t) && o <= |Data(d, t)| && TakesWords(w) && Tolerant(f)
    requires a in d.nodes && d.nodes[a].kind.Element?
    requires document in d.nodes && NarrowBelow(d, document)
    requires anchor in d.nodes && d.nodes[anchor].kind.Element? && UniqueAnchor(d, document, anchor)
    requires Above(d, document, anchor) && Above(d, anchor, t)
    requires limit.Some? ==> limit.value.node in d.nodes && SameTree(d, document, limit.value.node)
    ensures var scope := Seek(d, document, ConvertElement(d, anchor));
            var p := PointerTo(d, w, dir, t, o, a);
            && scope.Some? && Above(d, scope.value, anchor)
            && (Resolved(d, f, document, ConvertElement(d, anchor), p, limit) == Found(Point(t, o))
                <==> Beyond(d, limit, Point(t, o)) && !HasRival(d, scope.value, t, p))
  {
    hide Search, Best, HasRival, Beyond, PointerTo;
    ScopeHoldsAnchor(d, document, anchor, t);
    var scope := Seek(d, document, ConvertElement(d, anchor)).value;
    NarrowDown(d, document, scope);
    AboveIsInTree(d, document, scope);
    OriginalWins(d, f, w, dir, t, o, a, scope, limit);
  }

  /** A range between two text points comes back unchanged exactly when its start has no rival, its end
      lies after its start, and its end has no rival. */
  lemma RangeRoundTrip(d: Doc, f: Tolerance, w: WordOf, document: Node, c: ContentRange, s: Point, e: Point,
                       anchor: Node)
    requires ValidPoint(d, s) && IsText(d, s.node) && ValidPoint(d, e) && IsText(d, e.node)
    requires TakesWords(w) && Tolerant(f) && Describes(d, w, c, s, e, anchor)
    requires document in d.nodes && NarrowBelow(d, document) && Above(d, document, anchor)
    requires UniqueAnchor(d, document, anchor)
    ensures c.start.contexts != [] && c.end.contexts != []
    ensures var scope := Seek(d, document, c.ancestor);
            && scope.Some?
            && (Restored(d, f, document, c) == (Found(s), Found(e))
                <==> && !HasRival(d, scope.value, s.node, c.start)
                     && Order(d, s, e) < 0
                     && !HasRival(d, scope.value, e.node, c.end))
  {
    hide Resolved, HasRival, PointerTo, Order;
    var a :| a in d.nodes && d.nodes[a].kind.Element?
             && c.start == PointerTo(d, w, Backward, s.node, s.offset, a);
    var b :| b in d.nodes && d.nodes[b].kind.Element?
             && c.end == PointerTo(d, w, Forward, e.node, e.offset, b);
    PointRoundTrip(d, f, w, document, anchor, Backward, s.node, s.offset, a, None);
    AboveIsInTree(d, document, anchor);
    AboveIsInTree(d, anchor, s.node);
    PointRoundTrip(d, f, w, document, anchor, Forward, e.node, e.offset, b, Some(s));
    OrderIsTotal(d, s, e, s);
  }
}
