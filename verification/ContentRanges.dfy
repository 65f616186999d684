/** Content ranges: finding the anchor, choosing the best candidate, and the way there and back. */
module ContentRanges {
  import opened Options
  import opened Document
  import opened DocumentOrder
  import opened Lexicographic
  import opened TreeWalker
  import opened RangeText
  import opened Strings
  import opened ContentPointers
  import opened ContentMatches
  import opened ContentSearch
  import DomRange

  // ---------- Finding the anchor ----------

  predicate IsReferent(d: Doc, n: Node, e: ElementPointer)
    requires n in d.nodes
  {
    match d.nodes[n].kind
    case Element(tag, id, _) => id == e.elementId && tag == e.tagName
    case _ => false
  }

  /** `seek_dom_element`: the node itself if it matches, else its first child with a match inside. */
  function Seek(d: Doc, n: Node, e: ElementPointer): (r: Option<Node>)
    requires n in d.nodes
    ensures r.Some? ==> r.value in d.nodes
    decreases d.height - d.level[n], |Kids(d, n)| + 1
  {
    assert NodeOk(d, n);
    if IsReferent(d, n, e) then Some(n) else SeekKids(d, n, e, 0)
  }

  function SeekKids(d: Doc, n: Node, e: ElementPointer, i: nat): (r: Option<Node>)
    requires n in d.nodes && i <= |Kids(d, n)|
    ensures r.Some? ==> r.value in d.nodes
    decreases d.height - d.level[n], |Kids(d, n)| - i
  {
    if i == |Kids(d, n)| then None
    else if Seek(d, Kids(d, n)[i], e).Some? then Some(Kids(d, n)[i])
    else SeekKids(d, n, e, i + 1)
  }

  /** There is something to find exactly when the subtree has a match, and what is found has a match
      at or below it. */
  lemma {:induction false} SeekFinds(d: Doc, n: Node, e: ElementPointer)
    requires n in d.nodes
    ensures Seek(d, n, e).Some? <==> exists m | m in d.nodes && Above(d, n, m) :: IsReferent(d, m, e)
    ensures Seek(d, n, e).Some? ==>
              && Above(d, n, Seek(d, n, e).value)
              && exists m | m in d.nodes && Above(d, Seek(d, n, e).value, m) :: IsReferent(d, m, e)
    decreases d.height - d.level[n], |Kids(d, n)| + 1
  {
    assert NodeOk(d, n);
    assert Above(d, n, n);
    if !IsReferent(d, n, e) {
      SeekKidsFinds(d, n, e, 0);
      forall m | m in d.nodes && Above(d, n, m) && IsReferent(d, m, e)
        ensures Seek(d, n, e).Some?
      {
        var k := BranchTo(d, n, m);
      }
      if Seek(d, n, e).Some? {
        var c := Seek(d, n, e).value;
        var m :| m in d.nodes && Above(d, c, m) && IsReferent(d, m, e);
        AboveTransitive(d, n, c, m);
      }
    }
  }

  lemma {:induction false} SeekKidsFinds(d: Doc, n: Node, e: ElementPointer, i: nat)
    requires n in d.nodes && i <= |Kids(d, n)|
    ensures SeekKids(d, n, e, i).None? ==>
              forall k, m | i <= k < |Kids(d, n)| && m in d.nodes && Above(d, Kids(d, n)[k], m) ::
                !IsReferent(d, m, e)
    ensures SeekKids(d, n, e, i).Some? ==>
              && Above(d, n, SeekKids(d, n, e, i).value)
              && exists m | m in d.nodes && Above(d, SeekKids(d, n, e, i).value, m) :: IsReferent(d, m, e)
    decreases d.height - d.level[n], |Kids(d, n)| - i
  {
    if i < |Kids(d, n)| {
      IndexOfKid(d, n, i);
      SeekFinds(d, Kids(d, n)[i], e);
      SeekKidsFinds(d, n, e, i + 1);
    }
  }

  /** An element with the identifier and the tag. */
  ghost predicate LooksLike(d: Doc, m: Node, e: ElementPointer)
    requires m in d.nodes
  {
    d.nodes[m].kind.Element? && d.nodes[m].kind.id == e.elementId && d.nodes[m].kind.tagName == e.tagName
  }

  ghost predicate HasBelow(d: Doc, n: Node, e: ElementPointer)
  {
    exists m | m in d.nodes && Above(d, n, m) :: LooksLike(d, m, e)
  }

  lemma HasBelowIfFound(d: Doc, n: Node, e: ElementPointer)
    requires n in d.nodes
    ensures HasBelow(d, n, e) <==> Seek(d, n, e).Some?
  {
    hide Seek, Above;
    SeekFinds(d, n, e);
    assert forall m | m in d.nodes :: LooksLike(d, m, e) <==> IsReferent(d, m, e);
  }

  /** What is found is the node itself if it looks like that, and otherwise its first child with something at or
      below it that does; it is nothing exactly if nothing at or below the node does. */
  lemma SeekFindsFirst(d: Doc, n: Node, e: ElementPointer)
    requires n in d.nodes
    ensures Seek(d, n, e).Some? <==> HasBelow(d, n, e)
    ensures LooksLike(d, n, e) ==> Seek(d, n, e) == Some(n)
    ensures !LooksLike(d, n, e) && HasBelow(d, n, e) ==>
              exists i | 0 <= i < |Kids(d, n)| :: Seek(d, n, e) == Some(Kids(d, n)[i]) && HasBelow(d, Kids(d, n)[i], e)
                                          && forall j | 0 <= j < i :: !HasBelow(d, Kids(d, n)[j], e)
  {
    HasBelowIfFound(d, n, e);
    hide HasBelow;
    assert NodeOk(d, n);
    if !LooksLike(d, n, e) && HasBelow(d, n, e) {
      var i := SeekKidsFirst(d, n, e, 0);
      assert Seek(d, n, e) == Some(Kids(d, n)[i]);
    }
  }

  lemma {:induction false} SeekKidsFirst(d: Doc, n: Node, e: ElementPointer, lo: nat) returns (i: nat)
    requires n in d.nodes && lo <= |Kids(d, n)| && SeekKids(d, n, e, lo).Some?
    ensures lo <= i < |Kids(d, n)| && SeekKids(d, n, e, lo) == Some(Kids(d, n)[i])
    ensures HasBelow(d, Kids(d, n)[i], e) && forall j | lo <= j < i :: !HasBelow(d, Kids(d, n)[j], e)
    decreases |Kids(d, n)| - lo
  {
    hide HasBelow;
    HasBelowIfFound(d, Kids(d, n)[lo], e);
    if Seek(d, Kids(d, n)[lo], e).Some? {
      i := lo;
    } else {
      i := SeekKidsFirst(d, n, e, lo + 1);
    }
  }

  // ---------- Choosing the best candidate ----------

  /** c takes its place before the candidates that score at least as much. */
  function InsertByScore(c: Candidate, s: seq<Candidate>): (r: seq<Candidate>)
    ensures r != []
  {
    if s == [] || c.score <= s[0].score then [c] + s else [s[0]] + InsertByScore(c, s[1..])
  }

  /** `sorted(matches, key=score)`: stable, so equal scores keep their order. */
  function SortedByScore(s: seq<Candidate>): (r: seq<Candidate>)
    ensures s != [] ==> r != []
  {
    if s == [] then [] else InsertByScore(s[0], SortedByScore(s[1..]))
  }

  /** The last one of those that score most. */
  function Best(s: seq<Candidate>): Candidate
    requires s != []
  {
    if |s| == 1 then s[0]
    else if s[0].score > Best(s[1..]).score then s[0]
    else Best(s[1..])
  }

  ghost predicate Increasing(s: seq<Candidate>)
  {
    forall i, j | 0 <= i < j < |s| :: s[i].score <= s[j].score
  }

  lemma {:induction false} InsertKeepsOrder(c: Candidate, s: seq<Candidate>)
    requires Increasing(s)
    ensures Increasing(InsertByScore(c, s))
    ensures forall x | x in InsertByScore(c, s) :: x == c || x in s
    ensures InsertByScore(c, s)[|InsertByScore(c, s)| - 1]
         == if s == [] || c.score > s[|s| - 1].score then c else s[|s| - 1]
  {
    if s != [] && c.score > s[0].score {
      InsertKeepsOrder(c, s[1..]);
      var rest := InsertByScore(c, s[1..]);
      forall j | 0 <= j < |rest|
        ensures s[0].score <= rest[j].score
      {
        assert rest[j] in rest;
      }
    }
  }

  /** The last candidate of the sorted list is the best one. */
  lemma {:induction false} LastOfSorted(s: seq<Candidate>)
    requires s != []
    ensures Increasing(SortedByScore(s))
    ensures SortedByScore(s)[|SortedByScore(s)| - 1] == Best(s)
  {
    if |s| == 1 {
      assert s[1..] == [];
    } else {
      LastOfSorted(s[1..]);
      InsertKeepsOrder(s[0], SortedByScore(s[1..]));
    }
  }

  /** The best of two lists, the later one winning a tie. */
  lemma {:induction false} BestOfTwo(a: seq<Candidate>, b: seq<Candidate>)
    requires a != []
    ensures Best(a + b) == if b == [] || Best(a).score > Best(b).score then Best(a) else Best(b)
  {
    if b == [] {
      assert a + b == a;
    } else {
      assert (a + b)[1..] == a[1..] + b;
      if |a| > 1 {
        BestOfTwo(a[1..], b);
      } else {
        assert a[1..] + b == b;
      }
    }
  }

  lemma {:induction false} BestIsHighest(s: seq<Candidate>)
    requires s != []
    ensures Best(s) in s
    ensures forall c | c in s :: c.score <= Best(s).score
  {
    if |s| > 1 {
      BestIsHighest(s[1..]);
    }
  }

  // ---------- Resolving a pointer ----------

  datatype Resolution = Found(place: Point) | NotFound | Failed

  /** What `point_convert` resolves a text pointer to: the best candidate below the anchor, beyond the
      limit.  It fails when the anchor itself is not found. */
  ghost function Resolved(d: Doc, f: Tolerance, document: Node, anchor: ElementPointer, p: TextPointer,
                          limit: Option<Point>): Resolution
    requires document in d.nodes && p.contexts != [] && Tolerant(f)
    requires limit.Some? ==> limit.value.node in d.nodes
  {
    var scope := Seek(d, document, anchor);
    if scope.None? then Failed
    else
      var matches := Search(d, f, scope.value, p, limit);
      if matches == [] then NotFound else Found(Best(matches).place)
  }

  method ResolvePoint(d: Doc, f: Tolerance, document: Node, anchor: ElementPointer, p: TextPointer,
                      limit: DomRange.Position?) returns (r: Resolution)
    requires document in d.nodes && p.contexts != [] && Tolerant(f) && LimitFor(d, document, limit)
    ensures r == Resolved(d, f, document, anchor, p, LimitOf(limit))
  {
    hide Search, Seek, Best, Root, IsReferent, Tolerant;
    var scope := Seek(d, document, anchor);
    if scope.None? {
      return Failed;
    }
    SeekFinds(d, document, anchor);
    AboveIsInTree(d, document, scope.value);
    var matches := GetMatches(d, f, scope.value, p, limit);
    var sorted := SortedByScore(matches);
    if |sorted| > 0 {
      LastOfSorted(matches);
      return Found(sorted[|sorted| - 1].place);
    }
    return NotFound;
  }

  /** What a search finds lies in the subtree searched, at a clamped offset. */
  lemma {:induction false} SearchStaysBelow(d: Doc, f: Tolerance, n: Node, p: TextPointer,
                                           limit: Option<Point>, c: Candidate)
    requires n in d.nodes && p.contexts != [] && Tolerant(f) && (limit.Some? ==> limit.value.node in d.nodes)
    requires c in Search(d, f, n, p, limit)
    ensures c.place.node in d.nodes && Above(d, n, c.place.node) && ValidPointOrBelow(d, c.place)
    decreases d.height - d.level[n], |Kids(d, n)| + 1
  {
    hide Order, Candidates;
    assert NodeOk(d, n);
    SearchUnfolds(d, f, n, p, limit);
    if IsText(d, n) {
      CandidatesAreClamped(d, f, n, p);
      assert c in Candidates(d, f, n, p);
    } else {
      var below := if limit.Some? && Order(d, Point(n, 0), limit.value) > 0 then None else limit;
      SearchKidsStaysBelow(d, f, n, p, below, |Kids(d, n)|, c);
    }
  }

  lemma {:induction false} SearchKidsStaysBelow(d: Doc, f: Tolerance, n: Node, p: TextPointer,
                                               limit: Option<Point>, hi: nat, c: Candidate)
    requires n in d.nodes && p.contexts != [] && Tolerant(f) && (limit.Some? ==> limit.value.node in d.nodes)
    requires hi <= |Kids(d, n)| && c in SearchKids(d, f, n, p, limit, hi)
    ensures c.place.node in d.nodes && Above(d, n, c.place.node) && ValidPointOrBelow(d, c.place)
    decreases d.height - d.level[n], hi
  {
    hide Search, Candidates;
    if c in SearchKids(d, f, n, p, limit, hi - 1) {
      SearchKidsStaysBelow(d, f, n, p, limit, hi - 1, c);
    } else {
      var kid := Kids(d, n)[hi - 1];
      IndexOfKid(d, n, hi - 1);
      SearchStaysBelow(d, f, kid, p, limit, c);
      assert Above(d, n, kid);
      AboveTransitive(d, n, kid, c.place.node);
    }
  }

  lemma ResolvedIsPlaced(d: Doc, f: Tolerance, document: Node, anchor: ElementPointer, p: TextPointer,
                         limit: Option<Point>)
    requires document in d.nodes && p.contexts != [] && Tolerant(f)
    requires limit.Some? ==> limit.value.node in d.nodes
    requires Resolved(d, f, document, anchor, p, limit).Found?
    ensures var place := Resolved(d, f, document, anchor, p, limit).place;
            place.node in d.nodes && SameTree(d, document, place.node) && ValidPointOrBelow(d, place)
  {
    var scope := Seek(d, document, anchor).value;
    var matches := Search(d, f, scope, p, limit);
    SeekFinds(d, document, anchor);
    BestIsHighest(matches);
    SearchStaysBelow(d, f, scope, p, limit, Best(matches));
    AboveTransitive(d, document, scope, Best(matches).place.node);
    AboveIsInTree(d, document, Best(matches).place.node);
  }

  // ---------- The two conversions ----------

  datatype ContentRange = ContentRange(start: TextPointer, end: TextPointer, ancestor: ElementPointer)

  ghost predicate TextEnds(r: DomRange.Range)
    reads r.start, r.end
  {
    && r.start.dom == r.dom && r.end.dom == r.dom && r.start.node.Some? && r.end.node.Some?
    && ValidPoint(r.dom, r.start.At()) && ValidPoint(r.dom, r.end.At())
    && IsText(r.dom, r.start.node.value) && IsText(r.dom, r.end.node.value)
    && SameTree(r.dom, r.start.node.value, r.end.node.value)
  }

  /** c describes the range from s to e, with c's anchor the nearest one above both. */
  ghost predicate Describes(d: Doc, w: WordOf, c: ContentRange, s: Point, e: Point, anchor: Node)
    requires ValidPoint(d, s) && IsText(d, s.node) && ValidPoint(d, e) && IsText(d, e.node)
  {
    && anchor in d.nodes && AnchorableElement(d, anchor) && Above(d, anchor, s.node) && Above(d, anchor, e.node)
    && (forall m | m in d.nodes && Above(d, m, s.node) && Above(d, m, e.node) && AnchorableElement(d, m) ::
          Above(d, m, anchor))
    && c.ancestor == ConvertElement(d, anchor)
    && (exists a | a in d.nodes && d.nodes[a].kind.Element? ::
          c.start == PointerTo(d, w, Backward, s.node, s.offset, a))
    && (exists a | a in d.nodes && d.nodes[a].kind.Element? ::
          c.end == PointerTo(d, w, Forward, e.node, e.offset, a))
  }

  /** `domToContentRange` for a range between two text points; None where the code raises for want of
      an anchor. */
  method DomToContentRange(w: WordOf, r: DomRange.Range) returns (c: Option<ContentRange>, ghost anchor: Node)
    requires r.Valid() && TextEnds(r)
    ensures c.Some? ==> Describes(r.dom, w, c.value, r.start.At(), r.end.At(), anchor)
    ensures c.Some? ==>
              && anchor in r.dom.nodes && LooksLike(r.dom, anchor, c.value.ancestor)
              && PointsTo(r.dom, w, Backward, r.start.node.value, r.start.offset, c.value.start)
              && PointsTo(r.dom, w, Forward, r.end.node.value, r.end.offset, c.value.end)
    ensures c.None? ==>
              forall m | m in r.dom.nodes && Above(r.dom, m, r.start.node.value)
                         && Above(r.dom, m, r.end.node.value) :: !AnchorableElement(r.dom, m)
  {
    hide PointerTo, Order, PointsTo;
    var d := r.dom;
    var s, e := r.start.node.value, r.end.node.value;
    anchor := 0;
    var start := ConvertPoint(d, w, Backward, s, r.start.offset);
    if start.None? {
      return None, anchor;
    }
    var end := ConvertPoint(d, w, Forward, e, r.end.offset);
    if end.None? {
      return None, anchor;
    }
    CommonAncestorExists(d, s, e, r.ancestor);
    var found := GetAnchorableAncestor(d, r.ancestor.value);
    AnchorsOfBoth(d, s, e, r.ancestor.value);
    if found.None? {
      return None, anchor;
    }
    anchor := found.value;
    c := Some(ContentRange(start.value, end.value, ConvertElement(d, found.value)));
  }

  lemma AnchorsOfBoth(d: Doc, s: Node, e: Node, common: Node)
    requires s in d.nodes && e in d.nodes && DeepestCommon(d, Some(s), Some(e), Some(common))
    ensures common in d.nodes
    ensures forall m | m in d.nodes :: Above(d, m, common) <==> Above(d, m, s) && Above(d, m, e)
  {
    forall m | m in d.nodes && Above(d, m, common)
      ensures Above(d, m, s) && Above(d, m, e)
    {
      AboveTransitive(d, m, common, s);
      AboveTransitive(d, m, common, e);
    }
  }

  /** What `contentToDomRange` yields: the two places, or nothing, or an exception. */
  ghost function Restored(d: Doc, f: Tolerance, document: Node, c: ContentRange): (Resolution, Resolution)
    requires document in d.nodes && c.start.contexts != [] && c.end.contexts != [] && Tolerant(f)
  {
    var start := Resolved(d, f, document, c.ancestor, c.start, None);
    if !start.Found? then (start, start)
    else
      ResolvedIsPlaced(d, f, document, c.ancestor, c.start, None);
      (start, Resolved(d, f, document, c.ancestor, c.end, Some(start.place)))
  }

  method ContentToDomRange(d: Doc, f: Tolerance, document: Node, c: ContentRange)
    returns (failed: bool, output: DomRange.Range?)
    requires document in d.nodes && c.start.contexts != [] && c.end.contexts != [] && Tolerant(f)
    ensures failed <==> Restored(d, f, document, c).0.Failed? || Restored(d, f, document, c).1.Failed?
    ensures output != null <==> Restored(d, f, document, c).0.Found? && Restored(d, f, document, c).1.Found?
    ensures output != null ==>
              && fresh(output) && output.Valid() && output.BothSet() && output.dom == d
              && output.start.At() == Restored(d, f, document, c).0.place
              && output.end.At() == Restored(d, f, document, c).1.place
  {
    hide Resolved, Order, SameTree;
    var start := ResolvePoint(d, f, document, c.ancestor, c.start, null);
    if start.Failed? {
      return true, null;
    }
    if start.NotFound? {
      return false, null;
    }
    ResolvedIsPlaced(d, f, document, c.ancestor, c.start, None);
    var limit := new DomRange.Position(d, start.place.node, start.place.offset);
    var end := ResolvePoint(d, f, document, c.ancestor, c.end, limit);
    if end.Failed? {
      return true, null;
    }
    if end.NotFound? {
      return false, null;
    }
    ResolvedIsPlaced(d, f, document, c.ancestor, c.end, Some(start.place));
    output := new DomRange.Range(d, None, None);
    output.SetStart(start.place.node, start.place.offset);
    output.SetEnd(end.place.node, end.place.offset);
    failed := false;
  }
}
