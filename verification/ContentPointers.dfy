/** From a text point to a content pointer: the words around the point, further words met by walking
    away from it, and the nearest element that can serve as an anchor. */
module ContentPointers {
  import opened Options
  import opened Document
  import opened DocumentOrder
  import opened TreeWalker
  import opened RangeText
  import opened Strings

  datatype TextContext = TextContext(text: string, offset: int)

  datatype ElementPointer = ElementPointer(elementId: string, tagName: string)

  datatype TextPointer = TextPointer(
    role: Direction,
    contexts: seq<TextContext>,
    edgeOffset: int,
    ancestor: ElementPointer)

  const ENOUGH_CHARACTERS := 15
  const ENOUGH_CONTEXTS := 5

  // ---------- Anchors ----------

  /** An element with an id and a tag that is neither excluded nor generated. */
  predicate AnchorableElement(d: Doc, n: Node)
    requires n in d.nodes
  {
    match d.nodes[n].kind
    case Element(tag, id, nonAnchorable) =>
      id != "" && tag != "" && !nonAnchorable && !("MathJax" <= id) && !("ext-gen" <= id)
    case _ => false
  }

  /** a is the nearest anchorable element at or above n. */
  ghost predicate NearestAnchor(d: Doc, n: Node, a: Node)
    requires n in d.nodes
  {
    && Above(d, a, n) && a in d.nodes && AnchorableElement(d, a)
    && forall m | m in d.nodes && Above(d, m, n) && AnchorableElement(d, m) :: Above(d, m, a)
  }

  /** `is_anchorable`: for a text node, whether some element above it is anchorable. */
  method IsAnchorable(d: Doc, node: Option<Node>) returns (r: bool)
    requires node.Some? ==> node.value in d.nodes
    ensures node.None? ==> !r
    ensures node.Some? && !IsText(d, node.value) ==> r == AnchorableElement(d, node.value)
    ensures node.Some? && !IsText(d, node.value) ==>
              var kind := d.nodes[node.value].kind;
              r == (kind.Element? && !kind.nonAnchorable && kind.id != "" && kind.tagName != ""
                    && !("MathJax" <= kind.id) && !("ext-gen" <= kind.id))
    ensures node.Some? && IsText(d, node.value) ==>
              r == exists m | m in d.nodes && Above(d, m, node.value) :: AnchorableElement(d, m)
  {
    if node.None? {
      return false;
    }
    if !IsText(d, node.value) {
      return AnchorableElement(d, node.value);
    }
    var current := Parent(d, node.value);
    while current.Some?
      invariant current.Some? ==> current.value in d.nodes && Above(d, current.value, node.value)
      invariant forall m | m in d.nodes && Above(d, m, node.value) && AnchorableElement(d, m) ::
                  IsAncestor(d, Some(m), current)
      decreases if current.Some? then d.level[current.value] + 1 else 0
    {
      if AnchorableElement(d, current.value) {
        return true;
      }
      var up := Parent(d, current.value);
      if up.Some? {
        assert Above(d, up.value, current.value);
        AboveTransitive(d, up.value, current.value, node.value);
      }
      current := up;
    }
    return false;
  }

  method GetAnchorableAncestor(d: Doc, node: Node) returns (r: Option<Node>)
    requires node in d.nodes
    ensures r.Some? ==> NearestAnchor(d, node, r.value)
    ensures r.None? ==> forall m | m in d.nodes && Above(d, m, node) :: !AnchorableElement(d, m)
  {
    var output := node;
    var anchorable := IsAnchorable(d, Some(output));
    while !anchorable || IsText(d, output)
      invariant output in d.nodes && Above(d, output, node)
      invariant !IsText(d, output) ==> anchorable == AnchorableElement(d, output)
      invariant forall m | m in d.nodes && Above(d, m, node) && AnchorableElement(d, m) :: Above(d, m, output)
      decreases d.level[output]
    {
      var up := Parent(d, output);
      if up.None? {
        return None;
      }
      assert Above(d, up.value, output);
      AboveTransitive(d, up.value, output, node);
      output := up.value;
      anchorable := IsAnchorable(d, Some(output));
    }
    return Some(output);
  }

  function ConvertElement(d: Doc, n: Node): ElementPointer
    requires n in d.nodes && d.nodes[n].kind.Element?
  {
    ElementPointer(d.nodes[n].kind.id, d.nodes[n].kind.tagName)
  }

  // ---------- Contexts ----------

  /** `first_word`: any function that takes a word out of the data it is given. */
  type WordOf = (Direction, string) -> string

  ghost predicate TakesWords(w: WordOf)
  {
    forall dir, s :: Occurs(s, w(dir, s))
  }

  /** The words of a node as a secondary context: none for anything but text. */
  function ContextOf(d: Doc, w: WordOf, dir: Direction, n: Node): TextContext
    requires n in d.nodes
  {
    var text := if IsText(d, n) then w(dir, Data(d, n)) else "";
    TextContext(text, |text|)
  }

  function TotalLength(contexts: seq<TextContext>): nat
  {
    if contexts == [] then 0 else |contexts[0].text| + TotalLength(contexts[1..])
  }

  lemma {:induction false} TotalLengthConcat(a: seq<TextContext>, b: seq<TextContext>)
    ensures TotalLength(a + b) == TotalLength(a) + TotalLength(b)
  {
    if a == [] {
      assert a + b == b;
    } else {
      assert (a + b)[1..] == a[1..] + b;
      TotalLengthConcat(a[1..], b);
    }
  }

  /** The contexts met on the walk from n, with `total` characters and `count` contexts already taken. */
  ghost function Secondary(d: Doc, w: WordOf, dir: Direction, n: Node, total: nat, count: nat): seq<TextContext>
    requires n in d.nodes
    decreases ENOUGH_CONTEXTS + 1 - count
  {
    var next := Step(d, dir, n);
    if next.None? || total >= ENOUGH_CHARACTERS || count > ENOUGH_CONTEXTS then []
    else
      var c := ContextOf(d, w, dir, next.value);
      [c] + Secondary(d, w, dir, next.value, total + |c.text|, count + 1)
  }

  lemma SecondaryUnfolds(d: Doc, w: WordOf, dir: Direction, n: Node, total: nat, count: nat)
    requires n in d.nodes
    ensures var next := Step(d, dir, n);
            Secondary(d, w, dir, n, total, count) ==
            if next.None? || total >= ENOUGH_CHARACTERS || count > ENOUGH_CONTEXTS then []
            else
              [ContextOf(d, w, dir, next.value)]
              + Secondary(d, w, dir, next.value, total + |ContextOf(d, w, dir, next.value).text|, count + 1)
  {
    hide Step, ContextOf;
  }

  /** Where the words around offset o of the data begin: after the last space before the point. */
  function WordStart(data: string, o: nat): (r: nat)
    requires o <= |data|
    ensures r <= o
  {
    var left := data[..o];
    FindLast(left[..if |left| == 0 then 0 else |left| - 1], ' ') + 1
  }

  /** How much of what follows the point belongs to the words around it. */
  function WordEnd(data: string, o: nat): (r: nat)
    requires o <= |data|
    ensures o <= r <= |data|
  {
    var right := data[o..];
    var next := Find(if |right| == 0 then "" else right[1..], " ", 0) + 1;
    if next == 0 then |data| else o + next
  }

  /** The primary context: the words around the point, and where they stand in the data, counted from
      the far end for a start point. */
  function Primary(data: string, dir: Direction, o: nat): TextContext
    requires o <= |data|
  {
    var b, e := WordStart(data, o), WordEnd(data, o);
    TextContext(data[b..e], if dir.Backward? then |data| - b else b)
  }

  /** The pointer that `point_convert` builds for offset o of text node t, anchored at a. */
  ghost function PointerTo(d: Doc, w: WordOf, dir: Direction, t: Node, o: nat, a: Node): (r: TextPointer)
    requires t in d.nodes && IsText(d, t) && o <= |Data(d, t)|
    requires a in d.nodes && d.nodes[a].kind.Element?
    ensures r.contexts != [] && r.role == dir
  {
    TextPointer(
      dir,
      [Primary(Data(d, t), dir, o)] + Secondary(d, w, dir, t, 0, 1),
      o - WordStart(Data(d, t), o),
      ConvertElement(d, a))
  }

  /** The context at i is what the node i steps away from t has to say, and only words taken before it count
      towards enough. */
  ghost predicate TakenAt(d: Doc, w: WordOf, dir: Direction, t: Node, contexts: seq<TextContext>, i: nat)
    requires t in d.nodes && 1 <= i < |contexts|
  {
    && Steps(d, dir, t, i).Some?
    && (var m := Steps(d, dir, t, i).value;
        contexts[i].text == (if IsText(d, m) then w(dir, Data(d, m)) else ""))
    && contexts[i].offset == |contexts[i].text|
    && TotalLength(contexts[1..i]) < 15
  }

  /** After the first, one context for each node walked over, until the walk ends, or there are 15 characters or
      five contexts more. */
  ghost predicate TakenAlong(d: Doc, w: WordOf, dir: Direction, t: Node, contexts: seq<TextContext>)
    requires t in d.nodes
  {
    && 1 <= |contexts| <= 6
    && (forall i | 1 <= i < |contexts| :: TakenAt(d, w, dir, t, contexts, i))
    && (Steps(d, dir, t, |contexts|).None? || TotalLength(contexts[1..]) >= 15 || |contexts| == 6)
  }

  lemma TakenMore(d: Doc, w: WordOf, dir: Direction, t: Node, contexts: seq<TextContext>, c: TextContext)
    requires t in d.nodes && contexts != []
    requires forall i | 1 <= i < |contexts| :: TakenAt(d, w, dir, t, contexts, i)
    requires Steps(d, dir, t, |contexts|).Some?
    requires c == ContextOf(d, w, dir, Steps(d, dir, t, |contexts|).value) && TotalLength(contexts[1..]) < 15
    ensures forall i | 1 <= i < |contexts| + 1 :: TakenAt(d, w, dir, t, contexts + [c], i)
    ensures TotalLength((contexts + [c])[1..]) == TotalLength(contexts[1..]) + |c.text|
  {
    hide Steps;
    var more := contexts + [c];
    assert more[1..] == contexts[1..] + [c];
    TotalLengthConcat(contexts[1..], [c]);
    assert TotalLength([c]) == |c.text| + TotalLength([]);
    forall i | 1 <= i < |more|
      ensures TakenAt(d, w, dir, t, more, i)
    {
      assert more[1..i] == contexts[1..i];
      assert i < |contexts| ==> TakenAt(d, w, dir, t, contexts, i);
      assert contexts[1..|contexts|] == contexts[1..];
    }
  }

  lemma StepsOneMore(d: Doc, dir: Direction, t: Node, k: nat)
    requires t in d.nodes && (k == 0 || Steps(d, dir, t, k).Some?)
    ensures Steps(d, dir, t, k).Some? && (k == 0 ==> Steps(d, dir, t, k) == Some(t))
    ensures Steps(d, dir, t, k + 1) == Step(d, dir, Steps(d, dir, t, k).value)
  {
    hide Step;
  }

  /** The loop of `point_convert` that walks away from t for more contexts. */
  method TakeContexts(d: Doc, w: WordOf, dir: Direction, t: Node, primary: TextContext)
    returns (contexts: seq<TextContext>)
    requires t in d.nodes
    ensures contexts == [primary] + Secondary(d, w, dir, t, 0, 1)
    ensures contexts[0] == primary && TakenAlong(d, w, dir, t, contexts)
  {
    hide Step, Steps, Secondary, TakenAt;
    contexts := [primary];
    var totalCharacters: nat := 0;
    ghost var from := t;
    StepsOneMore(d, dir, t, 0);
    var current := OneStep(d, dir, Some(t));
    while current.Some? && totalCharacters < ENOUGH_CHARACTERS && |contexts| <= ENOUGH_CONTEXTS
      invariant current.Some? ==> current.value in d.nodes
      invariant from in d.nodes && current == Step(d, dir, from) == Steps(d, dir, t, |contexts|)
      invariant contexts != [] && contexts[0] == primary && |contexts| <= ENOUGH_CONTEXTS + 1
      invariant totalCharacters == TotalLength(contexts[1..])
      invariant forall i | 1 <= i < |contexts| :: TakenAt(d, w, dir, t, contexts, i)
      invariant contexts + Secondary(d, w, dir, from, totalCharacters, |contexts|)
             == [primary] + Secondary(d, w, dir, t, 0, 1)
      decreases ENOUGH_CONTEXTS + 1 - |contexts|
    {
      SecondaryUnfolds(d, w, dir, from, totalCharacters, |contexts|);
      var word := if IsText(d, current.value) then w(dir, Data(d, current.value)) else "";
      ghost var rest := Secondary(d, w, dir, current.value, totalCharacters + |word|, |contexts| + 1);
      assert contexts + ([TextContext(word, |word|)] + rest) == (contexts + [TextContext(word, |word|)]) + rest;
      TakenMore(d, w, dir, t, contexts, TextContext(word, |word|));
      StepsOneMore(d, dir, t, |contexts|);
      totalCharacters := totalCharacters + |word|;
      contexts := contexts + [TextContext(word, |word|)];
      from := current.value;
      current := OneStep(d, dir, current);
    }
    SecondaryUnfolds(d, w, dir, from, totalCharacters, |contexts|);
  }

  lemma JoinSlices(s: string, a: nat, b: nat, c: nat)
    requires a <= b <= c <= |s|
    ensures s[a..b] + s[b..c] == s[a..c]
  {
  }

  /** s is where the words around offset o begin, and e where they end: just after the last space before the
      character before o, and at the first space after the character at o, or at the ends of the data. */
  ghost predicate WordsAround(data: string, o: nat, s: nat, e: nat)
    requires o <= |data|
  {
    && s <= o <= e <= |data|
    && (s == 0 || (s < o && data[s - 1] == ' ')) && (forall i | s <= i < o - 1 :: data[i] != ' ')
    && (e == |data| || (o < e && data[e] == ' ')) && (forall i | o < i < e :: data[i] != ' ')
  }

  /** Such words are unique. */
  lemma OneWordsAround(data: string, o: nat, s: nat, e: nat, t: nat, f: nat)
    requires o <= |data| && WordsAround(data, o, s, e) && WordsAround(data, o, t, f)
    ensures s == t && e == f
  {
  }

  lemma WordsFound(data: string, o: nat)
    requires o <= |data|
    ensures WordsAround(data, o, WordStart(data, o), WordEnd(data, o))
  {
    var right := if o == |data| then "" else data[o..][1..];
    var next := Find(right, " ", 0);
    forall i | o < i < WordEnd(data, o)
      ensures data[i] != ' '
    {
      assert right[i - o - 1] == data[i] && !OccursAt(right, " ", i - o - 1);
      assert right[i - o - 1..i - o] == [data[i]];
    }
    if next != -1 {
      assert right[next..next + 1] == " " && data[o + 1 + next] == right[next];
    }
    var left := data[..o][..if o == 0 then 0 else o - 1];
    forall i | WordStart(data, o) <= i < o - 1
      ensures data[i] != ' '
    {
      assert left[i] == data[i];
    }
  }

  /** The slicing of `point_convert` that finds the words around the point. */
  method PrimaryContext(data: string, dir: Direction, o: nat) returns (context: TextContext, lastSpace: nat)
    requires o <= |data|
    ensures context == Primary(data, dir, o) && lastSpace == WordStart(data, o)
    ensures exists e: nat :: WordsAround(data, o, lastSpace, e) && context.text == data[lastSpace..e]
    ensures context.offset == if dir.Backward? then |data| - lastSpace else lastSpace
  {
    var left, right := data[..o], data[o..];
    lastSpace := FindLast(left[..if |left| == 0 then 0 else |left| - 1], ' ') + 1;
    var nextSpace := Find(if |right| == 0 then "" else right[1..], " ", 0) + 1;
    if nextSpace == 0 {
      nextSpace := |data|;
    }
    left := left[lastSpace..];
    right := right[..if nextSpace <= |right| then nextSpace else |right|];
    assert left == data[lastSpace..o] && right == data[o..WordEnd(data, o)];
    JoinSlices(data, lastSpace, o, WordEnd(data, o));
    context := TextContext(left + right, if dir.Backward? then |data| - lastSpace else lastSpace);
    WordsFound(data, o);
    assert WordsAround(data, o, lastSpace, WordEnd(data, o));
  }

  /** The words around the point come first, at their place counted from the end of the data for a start and
      from its start for an end, then those met on the way; the edge is where the point stands in the words. */
  ghost predicate PointsTo(d: Doc, w: WordOf, dir: Direction, t: Node, o: nat, p: TextPointer)
    requires t in d.nodes && IsText(d, t) && o <= |Data(d, t)|
  {
    && p.role == dir && TakenAlong(d, w, dir, t, p.contexts)
    && (exists s: nat, e: nat | WordsAround(Data(d, t), o, s, e) ::
          && p.contexts[0].text == Data(d, t)[s..e]
          && p.contexts[0].offset == (if dir.Backward? then |Data(d, t)| - s else s)
          && p.edgeOffset == o - s)
  }

  /** `point_convert`; None where the code raises because nothing above the text can be an anchor. */
  method ConvertPoint(d: Doc, w: WordOf, dir: Direction, t: Node, o: nat) returns (r: Option<TextPointer>)
    requires t in d.nodes && IsText(d, t) && o <= |Data(d, t)|
    ensures r.None? ==> forall a | a in d.nodes && Above(d, a, t) :: !AnchorableElement(d, a)
    ensures r.Some? ==> exists a | a in d.nodes && NearestAnchor(d, t, a) && d.nodes[a].kind.Element? ::
                          && r.value == PointerTo(d, w, dir, t, o, a)
                          && r.value.ancestor.elementId == d.nodes[a].kind.id
                          && r.value.ancestor.tagName == d.nodes[a].kind.tagName
    ensures r.Some? ==> PointsTo(d, w, dir, t, o, r.value)
  {
    hide Secondary, Primary, WordStart, Step, WordsAround, TakenAlong;
    var primary, lastSpace := PrimaryContext(Data(d, t), dir, o);

    var contexts := TakeContexts(d, w, dir, t, primary);
    var up := Parent(d, t);
    if up.None? {
      NoAnchorAtTop(d, t);
      return None;
    }
    var anchor := GetAnchorableAncestor(d, up.value);
    AnchorsAboveText(d, t);
    if anchor.None? {
      return None;
    }
    r := Some(TextPointer(dir, contexts, o - lastSpace, ConvertElement(d, anchor.value)));
    assert NearestAnchor(d, t, anchor.value);
    assert r.value == PointerTo(d, w, dir, t, o, anchor.value);
  }

  lemma NoAnchorAtTop(d: Doc, t: Node)
    requires t in d.nodes && IsText(d, t) && Parent(d, t).None?
    ensures forall a | a in d.nodes && Above(d, a, t) :: !AnchorableElement(d, a)
  {
  }

  /** A text node and its parent have the same anchors. */
  lemma AnchorsAboveText(d: Doc, t: Node)
    requires t in d.nodes && IsText(d, t) && Parent(d, t).Some?
    ensures forall a | a in d.nodes && AnchorableElement(d, a) ::
              Above(d, a, t) <==> Above(d, a, Parent(d, t).value)
    ensures forall a | a in d.nodes :: Above(d, a, Parent(d, t).value) ==> Above(d, a, t)
  {
  }
}
