/** From a content pointer back to a text point: every occurrence of the primary context is scored, and
    the best one wins. */
module ContentMatches {
  import opened Options
  import opened Document
  import opened DocumentOrder
  import opened TreeWalker
  import opened RangeText
  import opened Strings
  import opened ContentPointers
  import DomRange

  datatype Candidate = Candidate(place: Point, score: real)

  /** The tolerance for misplaced occurrences, as a function of the length of the data. */
  type Tolerance = nat -> real

  ghost predicate Tolerant(f: Tolerance)
  {
    forall n :: f(n) >= 1.0
  }

  // ---------- Scores ----------

  function Distance(a: int, b: int): (r: nat)
    ensures r == 0 <==> a == b
  {
    if a < b then b - a else a - b
  }

  lemma QuotientInUnit(a: real, b: real)
    requires 0.0 < a <= b
    ensures 0.0 < a / b <= 1.0
    ensures a / b == 1.0 <==> a == b
  {
    var q := a / b;
    assert q * b == a;
    assert q > 1.0 ==> q * b > b;
    assert q <= 0.0 ==> q * b <= 0.0;
  }

  function PlaceScore(f: real, distance: nat): (r: real)
    requires f >= 1.0
    ensures 0.0 < r <= 1.0
    ensures r == 1.0 <==> distance == 0
  {
    QuotientInUnit(f, f + distance as real);
    f / (f + distance as real)
  }

  function Discount(i: nat): (r: real)
    ensures 0.0 < r < 1.0
  {
    QuotientInUnit(i as real + 1.0, i as real + 1.5);
    (i as real + 1.0) / (i as real + 1.5)
  }

  /** At distance g the score is f to f + g, and for the failing context at index i it is i + 1 to i + 1.5. */
  lemma ScoresAre(f: real, g: nat, i: nat)
    requires f >= 1.0
    ensures PlaceScore(f, g) * (f + g as real) == f
    ensures Discount(i) * (i as real + 1.5) == i as real + 1.0
  {
  }

  lemma ProductInUnit(a: real, b: real)
    requires 0.0 < a <= 1.0 && 0.0 < b <= 1.0
    ensures 0.0 < a * b <= 1.0
    ensures a * b == 1.0 <==> a == 1.0 && b == 1.0
  {
    if a < 1.0 {
      assert a * b < b;
    }
  }

  /** Where the primary context is expected in data of the given length. */
  function Expected(p: TextPointer, length: nat): int
    requires p.contexts != []
  {
    if p.role.Backward? then length - p.contexts[0].offset else p.contexts[0].offset
  }

  // ---------- Agreement with the secondary contexts ----------

  predicate Agrees(d: Doc, n: Node, c: TextContext)
    requires n in d.nodes
  {
    match d.nodes[n].kind
    case Text(data) => Find(data, c.text, 0) != -1
    case Element(_, _, _) => c.text == ""
    case _ => true
  }

  /** How many of the contexts, from the first on, agree with the nodes met on the walk from n. */
  ghost function Agreement(d: Doc, dir: Direction, n: Node, contexts: seq<TextContext>): (r: nat)
    requires n in d.nodes
    ensures r <= |contexts|
    decreases |contexts|
  {
    if contexts == [] then 0
    else
      var next := Step(d, dir, n);
      if next.None? || !Agrees(d, next.value, contexts[0]) then 0
      else 1 + Agreement(d, dir, next.value, contexts[1..])
  }

  /** The node k steps away from n. */
  ghost function Walk(d: Doc, dir: Direction, n: Node, k: nat): (r: Option<Node>)
    requires n in d.nodes
    ensures r.Some? ==> r.value in d.nodes
    decreases k
  {
    if k == 0 then Some(n)
    else match Step(d, dir, n)
         case None => None
         case Some(m) => Walk(d, dir, m, k - 1)
  }

  lemma {:induction false} WalkOneMore(d: Doc, dir: Direction, n: Node, k: nat)
    requires n in d.nodes
    ensures Walk(d, dir, n, k + 1) ==
            match Walk(d, dir, n, k) {
              case None => None
              case Some(m) => Step(d, dir, m)
            }
    decreases k
  {
    hide Step;
    if k > 0 {
      var next := Step(d, dir, n);
      if next.Some? {
        WalkOneMore(d, dir, next.value, k - 1);
      }
    }
  }

  /** Whether a pointer with these secondary contexts would have taken one more, had there been a node. */
  predicate ShortOfContexts(contexts: seq<TextContext>)
  {
    |contexts| < ENOUGH_CONTEXTS && TotalLength(contexts) < ENOUGH_CHARACTERS
  }

  ghost function Multiplier(d: Doc, dir: Direction, n: Node, contexts: seq<TextContext>): (r: real)
    requires n in d.nodes
    ensures 0.0 < r <= 1.0
    ensures r == 1.0 <==> Agreement(d, dir, n, contexts) == |contexts|
                          && !(ShortOfContexts(contexts) && Walk(d, dir, n, |contexts| + 1).Some?)
  {
    var i := Agreement(d, dir, n, contexts);
    if i < |contexts| then Discount(i)
    else if ShortOfContexts(contexts) && Walk(d, dir, n, |contexts| + 1).Some? then Discount(|contexts|)
    else 1.0
  }

  lemma {:induction false} WalkIsSteps(d: Doc, dir: Direction, n: Node, k: nat)
    requires n in d.nodes
    ensures Walk(d, dir, n, k) == Steps(d, dir, n, k)
  {
    hide Step;
    if k > 0 {
      WalkIsSteps(d, dir, n, k - 1);
      WalkOneMore(d, dir, n, k - 1);
    }
  }

  /** There is a leaf so many steps away, and if it is a text the words of the context are in it, if an element
      there are no words. */
  ghost predicate MeetsAt(d: Doc, dir: Direction, n: Node, contexts: seq<TextContext>, i: nat)
    requires n in d.nodes && i < |contexts|
  {
    && Steps(d, dir, n, i + 1).Some?
    && var m := Steps(d, dir, n, i + 1).value;
       && (IsText(d, m) ==> Occurs(Data(d, m), contexts[i].text))
       && (d.nodes[m].kind.Element? ==> contexts[i].text == "")
  }

  lemma AgreesInWords(d: Doc, m: Node, c: TextContext)
    requires m in d.nodes
    ensures Agrees(d, m, c) <==> (IsText(d, m) ==> Occurs(Data(d, m), c.text))
                                 && (d.nodes[m].kind.Element? ==> c.text == "")
  {
    if IsText(d, m) && Occurs(Data(d, m), c.text) {
      var i :| 0 <= i <= |Data(d, m)| && OccursAt(Data(d, m), c.text, i);
    }
  }

  /** Agreement counts the contexts met before the first that is not. */
  lemma {:induction false} AgreementInWords(d: Doc, dir: Direction, n: Node, contexts: seq<TextContext>, k: nat)
    requires n in d.nodes && k <= |contexts| && Walk(d, dir, n, k).Some?
    requires forall i | 0 <= i < k :: MeetsAt(d, dir, n, contexts, i)
    ensures var r := k + Agreement(d, dir, Walk(d, dir, n, k).value, contexts[k..]);
            && k <= r <= |contexts| && (forall i | 0 <= i < r :: MeetsAt(d, dir, n, contexts, i))
            && (r < |contexts| ==> !MeetsAt(d, dir, n, contexts, r))
    decreases |contexts| - k
  {
    hide Step, Agrees, Steps;
    var m := Walk(d, dir, n, k).value;
    if k < |contexts| {
      assert contexts[k..][0] == contexts[k] && contexts[k..][1..] == contexts[k + 1..];
      WalkOneMore(d, dir, n, k);
      WalkIsSteps(d, dir, n, k + 1);
      var next := Step(d, dir, m);
      if next.Some? {
        AgreesInWords(d, next.value, contexts[k]);
        if Agrees(d, next.value, contexts[k]) {
          assert MeetsAt(d, dir, n, contexts, k);
          AgreementInWords(d, dir, n, contexts, k + 1);
        }
      }
    }
  }

  /** The contexts are all met, and there are not fewer than could be had: five, or 15 characters, or one for
      every leaf there is. */
  ghost predicate MeetsAll(d: Doc, dir: Direction, n: Node, contexts: seq<TextContext>)
    requires n in d.nodes
  {
    && (forall i | 0 <= i < |contexts| :: MeetsAt(d, dir, n, contexts, i))
    && (|contexts| >= 5 || TotalLength(contexts) >= 15 || Steps(d, dir, n, |contexts| + 1).None?)
  }

  /** The multiplier is 1 exactly then; otherwise the first context that fails, or the one that is missing,
      decides. */
  lemma MultiplierInWords(d: Doc, dir: Direction, n: Node, contexts: seq<TextContext>)
    requires n in d.nodes
    ensures Multiplier(d, dir, n, contexts) == 1.0 <==> MeetsAll(d, dir, n, contexts)
    ensures forall i | 0 <= i < |contexts| && !MeetsAt(d, dir, n, contexts, i)
                       && (forall j | 0 <= j < i :: MeetsAt(d, dir, n, contexts, j)) ::
              Multiplier(d, dir, n, contexts) == Discount(i)
    ensures !MeetsAll(d, dir, n, contexts) && (forall i | 0 <= i < |contexts| :: MeetsAt(d, dir, n, contexts, i)) ==>
              Multiplier(d, dir, n, contexts) == Discount(|contexts|)
  {
    hide Step, Agreement, Steps, MeetsAt, Walk, Multiplier, Discount;
    FromTheStart(d, dir, n, contexts);
    MultiplierByFirst(d, dir, n, contexts);
    AgreementInWords(d, dir, n, contexts, 0);
    WalkIsSteps(d, dir, n, |contexts| + 1);
    var r := Agreement(d, dir, n, contexts);
    forall i | 0 <= i < |contexts| && !MeetsAt(d, dir, n, contexts, i)
               && (forall j | 0 <= j < i :: MeetsAt(d, dir, n, contexts, j))
      ensures i == r
    {
      OneFirstMiss(d, dir, n, contexts, i, r);
    }
  }

  lemma MultiplierByFirst(d: Doc, dir: Direction, n: Node, contexts: seq<TextContext>)
    requires n in d.nodes
    ensures var r := Agreement(d, dir, n, contexts);
            Multiplier(d, dir, n, contexts)
            == if r < |contexts| || (|contexts| < 5 && TotalLength(contexts) < 15
                                     && Walk(d, dir, n, |contexts| + 1).Some?)
               then Discount(r) else 1.0
  {
    hide Agreement, Walk, TotalLength, Discount;
  }

  lemma FromTheStart(d: Doc, dir: Direction, n: Node, contexts: seq<TextContext>)
    requires n in d.nodes
    ensures Walk(d, dir, n, 0) == Some(n) && contexts[0..] == contexts
  {
  }

  lemma OneFirstMiss(d: Doc, dir: Direction, n: Node, contexts: seq<TextContext>, i: nat, r: nat)
    requires n in d.nodes && i < |contexts| && r <= |contexts|
    requires !MeetsAt(d, dir, n, contexts, i) && forall j | 0 <= j < i :: MeetsAt(d, dir, n, contexts, j)
    requires r < |contexts| ==> !MeetsAt(d, dir, n, contexts, r)
    requires forall j | 0 <= j < r :: MeetsAt(d, dir, n, contexts, j)
    ensures i == r
  {
    hide MeetsAt;
  }

  // ---------- Candidates ----------

  /** The candidate for the occurrence of the primary context at `left`. */
  ghost function CandidateAt(d: Doc, f: Tolerance, n: Node, p: TextPointer, left: nat): (r: Candidate)
    requires n in d.nodes && IsText(d, n) && p.contexts != [] && Tolerant(f)
    ensures r.place.node == n && 0.0 < r.score <= 1.0
    ensures r.score == 1.0 <==>
            left == Expected(p, |Data(d, n)|) && Multiplier(d, p.role, n, p.contexts[1..]) == 1.0
  {
    var length := |Data(d, n)|;
    var score := PlaceScore(f(length), Distance(left, Expected(p, length)));
    var multiplier := Multiplier(d, p.role, n, p.contexts[1..]);
    ProductInUnit(score, multiplier);
    Candidate(Point(n, DomRange.Clamped(d, Some(n), left + p.edgeOffset)), score * multiplier)
  }

  ghost function CandidatesAt(d: Doc, f: Tolerance, n: Node, p: TextPointer, lefts: seq<nat>): (r: seq<Candidate>)
    requires n in d.nodes && IsText(d, n) && p.contexts != [] && Tolerant(f)
    ensures |r| == |lefts| && forall k | 0 <= k < |r| :: r[k] == CandidateAt(d, f, n, p, lefts[k])
  {
    if lefts == [] then [] else [CandidateAt(d, f, n, p, lefts[0])] + CandidatesAt(d, f, n, p, lefts[1..])
  }

  /** All candidates in one leaf; none unless it is a text node. */
  ghost function Candidates(d: Doc, f: Tolerance, n: Node, p: TextPointer): (r: seq<Candidate>)
    requires n in d.nodes && p.contexts != [] && Tolerant(f)
    ensures forall k | 0 <= k < |r| :: r[k].place.node == n && 0.0 < r[k].score <= 1.0
  {
    if IsText(d, n) then CandidatesAt(d, f, n, p, Occurrences(Data(d, n), p.contexts[0].text, 0)) else []
  }

  /** The loop that collects the occurrences of the primary context with their scores. */
  method PlaceMatches(data: string, f: real, text: string, expected: int)
    returns (lefts: seq<nat>, scores: seq<real>)
    requires f >= 1.0
    ensures lefts == Occurrences(data, text, 0) && |scores| == |lefts|
    ensures forall k | 0 <= k < |lefts| :: scores[k] == PlaceScore(f, Distance(lefts[k], expected))
  {
    hide OccursAt, PlaceScore, Find;
    lefts, scores := [], [];
    var left := Find(data, text, 0);
    while left != -1
      invariant left == -1 || 0 <= left <= |data|
      invariant Occurrences(data, text, 0)
             == lefts + if left == -1 then [] else [left as nat] + Occurrences(data, text, left + 1)
      invariant |scores| == |lefts|
      invariant forall k | 0 <= k < |lefts| :: scores[k] == PlaceScore(f, Distance(lefts[k], expected))
      decreases if left == -1 then 0 else |data| + 1 - left
    {
      ghost var rest := Occurrences(data, text, left + 1);
      assert lefts + ([left as nat] + rest) == (lefts + [left as nat]) + rest;
      lefts := lefts + [left];
      scores := scores + [PlaceScore(f, Distance(left, expected))];
      left := Find(data, text, left + 1);
    }
  }

  /** The candidate for an occurrence, written out: at the edge but not past the end of the data, scored by the
      distance from where the occurrence is expected and by the further contexts. */
  ghost function CandidateInWords(d: Doc, f: Tolerance, n: Node, p: TextPointer, left: nat): Candidate
    requires n in d.nodes && IsText(d, n) && p.contexts != [] && Tolerant(f)
  {
    var data := Data(d, n);
    var expected := if p.role.Backward? then |data| - p.contexts[0].offset else p.contexts[0].offset;
    var distance := if left < expected then expected - left else left - expected;
    Candidate(Point(n, if left + p.edgeOffset > |data| then |data| else left + p.edgeOffset),
              PlaceScore(f(|data|), distance) * Multiplier(d, p.role, n, p.contexts[1..]))
  }

  lemma CandidateIs(d: Doc, f: Tolerance, n: Node, p: TextPointer, left: nat)
    requires n in d.nodes && IsText(d, n) && p.contexts != [] && Tolerant(f)
    ensures CandidateAt(d, f, n, p, left) == CandidateInWords(d, f, n, p, left)
  {
    hide Multiplier;
  }

  /** The candidates of a text node are those of all occurrences of the primary context, in their order. */
  lemma CandidatesInWords(d: Doc, f: Tolerance, n: Node, p: TextPointer)
    requires n in d.nodes && IsText(d, n) && p.contexts != [] && Tolerant(f)
    ensures var lefts, cs := Occurrences(Data(d, n), p.contexts[0].text, 0), Candidates(d, f, n, p);
            |cs| == |lefts| && forall k | 0 <= k < |cs| :: cs[k] == CandidateInWords(d, f, n, p, lefts[k])
  {
    hide CandidateAt, CandidateInWords, Occurrences;
    var lefts := Occurrences(Data(d, n), p.contexts[0].text, 0);
    forall k | 0 <= k < |lefts|
      ensures CandidateAt(d, f, n, p, lefts[k]) == CandidateInWords(d, f, n, p, lefts[k])
    {
      CandidateIs(d, f, n, p, lefts[k]);
    }
  }

  /** The occurrences with their scores, as candidates. */
  method ScoreAll(d: Doc, f: Tolerance, n: Node, p: TextPointer, lefts: seq<nat>, scores: seq<real>, multiplier: real)
    returns (outputs: seq<Candidate>)
    requires n in d.nodes && IsText(d, n) && p.contexts != [] && Tolerant(f) && |scores| == |lefts|
    requires forall k | 0 <= k < |lefts| ::
               scores[k] == PlaceScore(f(|Data(d, n)|), Distance(lefts[k], Expected(p, |Data(d, n)|)))
    requires multiplier == Multiplier(d, p.role, n, p.contexts[1..])
    ensures outputs == CandidatesAt(d, f, n, p, lefts)
  {
    hide PlaceScore, Multiplier, DomRange.Clamped, Distance, Expected;
    outputs := [];
    for k := 0 to |lefts|
      invariant |outputs| == k
      invariant forall j | 0 <= j < k :: outputs[j] == CandidateAt(d, f, n, p, lefts[j])
    {
      var place := Point(n, DomRange.Clamped(d, Some(n), lefts[k] + p.edgeOffset));
      outputs := outputs + [Candidate(place, scores[k] * multiplier)];
    }
  }

  /** All candidates of one text node, in the order of the occurrences of the primary context. */
  method TextMatches(d: Doc, f: Tolerance, n: Node, p: TextPointer) returns (outputs: seq<Candidate>)
    requires n in d.nodes && IsText(d, n) && p.contexts != [] && Tolerant(f)
    ensures outputs == Candidates(d, f, n, p)
    ensures |outputs| == |Occurrences(Data(d, n), p.contexts[0].text, 0)|
    ensures forall k | 0 <= k < |outputs| ::
              outputs[k] == CandidateInWords(d, f, n, p, Occurrences(Data(d, n), p.contexts[0].text, 0)[k])
  {
    hide PlaceScore, Multiplier, Occurrences, Distance, Expected, MeetsAt, MeetsAll, Discount, CandidateInWords,
         CandidateAt;
    var data := Data(d, n);
    var lefts, scores := PlaceMatches(data, f(|data|), p.contexts[0].text, Expected(p, |data|));
    var multiplier := MultiplierOf(d, p.role, n, p.contexts[1..]);
    outputs := ScoreAll(d, f, n, p, lefts, scores, multiplier);
    CandidatesInWords(d, f, n, p);
  }

  /** The walk along the secondary contexts. */
  method MultiplierOf(d: Doc, dir: Direction, n: Node, contexts: seq<TextContext>) returns (multiplier: real)
    requires n in d.nodes
    ensures multiplier == Multiplier(d, dir, n, contexts)
    ensures multiplier == 1.0 <==> MeetsAll(d, dir, n, contexts)
    ensures forall i | 0 <= i < |contexts| && !MeetsAt(d, dir, n, contexts, i)
                       && (forall j | 0 <= j < i :: MeetsAt(d, dir, n, contexts, j)) ::
              multiplier == Discount(i)
    ensures !MeetsAll(d, dir, n, contexts) && (forall i | 0 <= i < |contexts| :: MeetsAt(d, dir, n, contexts, i)) ==>
              multiplier == Discount(|contexts|)
  {
    hide Step, Agrees, TotalLength, MeetsAll, MeetsAt, Discount;
    MultiplierInWords(d, dir, n, contexts);
    multiplier := 1.0;
    var current := Some(n);
    var failed := false;
    var total := 0;
    var i := 0;
    while i < |contexts| && !failed
      invariant 0 <= i <= |contexts|
      invariant failed ==> i < |contexts| && multiplier == Discount(i) && Agreement(d, dir, n, contexts) == i
      invariant !failed ==>
                  && multiplier == 1.0
                  && current.Some? && current.value in d.nodes && current == Walk(d, dir, n, i)
                  && Agreement(d, dir, n, contexts) == i + Agreement(d, dir, current.value, contexts[i..])
      decreases |contexts| - i, !failed
    {
      WalkOneMore(d, dir, n, i);
      assert contexts[i..][0] == contexts[i] && contexts[i..][1..] == contexts[i + 1..];
      current := OneStep(d, dir, current);
      failed := current.None? || !Agrees(d, current.value, contexts[i]);
      if failed {
        multiplier := Discount(i);
      } else {
        i := i + 1;
      }
    }
    if !failed {
      WalkOneMore(d, dir, n, |contexts|);
      current := OneStep(d, dir, current);
      if ShortOfContexts(contexts) && current.Some? {
        multiplier := Discount(|contexts|);
      }
    }
  }
}
