/** Boundary points and ranges as objects: a range keeps its common ancestor and its collapsed flag up
    to date whenever one of its two positions is set. */
module DomRange {
  import opened Options
  import opened Document
  import opened DocumentOrder
  import opened RangeText
  import opened RangeWalk

  const START_TO_START := 0
  const START_TO_END := 1
  const END_TO_START := 2
  const END_TO_END := 3

  /** An offset into the data of a text node does not run past its end. */
  function Clamped(d: Doc, node: Option<Node>, offset: int): (r: int)
    requires node.Some? ==> node.value in d.nodes
    ensures node.Some? && ValidPoint(d, Point(node.value, offset)) ==> r == offset
    ensures node.Some? && IsText(d, node.value) ==> r <= |Data(d, node.value)|
  {
    if node.Some? && IsText(d, node.value) && offset > |Data(d, node.value)| then |Data(d, node.value)|
    else offset
  }

  /** How two possibly unset positions compare: document order within one tree, None (no answer)
      otherwise, except that two unset positions compare by offset. */
  ghost function Comparison(d: Doc, n: Option<Node>, o: int, m: Option<Node>, u: int): Option<int>
    requires n.Some? ==> n.value in d.nodes
    requires m.Some? ==> m.value in d.nodes
  {
    if n.Some? && m.Some? && SameTree(d, n.value, m.value) then
      Some(Order(d, Point(n.value, o), Point(m.value, u)))
    else if n.None? && m.None? then Some(if o < u then -1 else if o == u then 0 else 1)
    else None
  }

  class Position {
    const dom: Doc
    var node: Option<Node>
    var offset: int
    var parent: Range?

    ghost predicate Placed()
      reads this
    {
      node.Some? ==> node.value in dom.nodes && offset == Clamped(dom, node, offset)
    }

    ghost function At(): Point
      requires node.Some?
      reads this
    {
      Point(node.value, offset)
    }

    constructor Unset(dom: Doc)
      ensures this.dom == dom && node == None && offset == 0 && parent == null
    {
      this.dom := dom;
      node, offset, parent := None, 0, null;
    }

    constructor (dom: Doc, node: Node, offset: int)
      requires node in dom.nodes
      ensures this.dom == dom && this.node == Some(node) && parent == null && Placed()
      ensures this.offset == if IsText(dom, node) && offset > |Data(dom, node)| then |Data(dom, node)| else offset
    {
      this.dom := dom;
      this.parent := null;
      this.node, this.offset := Some(node), Clamped(dom, Some(node), offset);
    }

    /** This position is one of the two ends of the range it belongs to, if any. */
    ghost predicate Linked()
      reads this, parent, if parent == null then {} else {parent.start, parent.end}
    {
      parent != null ==>
        && parent.Wired() && parent.dom == dom
        && (this == parent.start || this == parent.end)
        && parent.start.Placed() && parent.end.Placed()
    }

    /** Past the end of the data of a text node, the offset is that end; any other is taken as it is. */
    method Set(node: Option<Node>, offset: int)
      requires node.Some? ==> node.value in dom.nodes
      requires Linked()
      modifies this`node, this`offset, parent
      ensures this.node == node && Placed()
      ensures this.offset == if node.Some? && IsText(dom, node.value) && offset > |Data(dom, node.value)|
                             then |Data(dom, node.value)| else offset
      ensures parent != null ==> parent.Valid()
    {
      this.node, this.offset := node, offset;
      if node.Some? && IsText(dom, node.value) && this.offset > |Data(dom, node.value)| {
        this.offset := |Data(dom, node.value)|;
      }
      if parent != null {
        parent.Update();
      }
    }

    /** Moves to the place just before the node; fails for a node without a parent. */
    method SetBefore(node: Node) returns (ok: bool)
      requires node in dom.nodes && Linked()
      modifies this`node, this`offset, parent
      ensures ok == Parent(dom, node).Some?
      ensures ok ==> this.node == Parent(dom, node) && this.offset == Index(dom, node) && Placed()
      ensures ok && parent != null ==> parent.Valid()
      ensures !ok ==> unchanged(this) && (parent != null ==> unchanged(parent))
    {
      var index := ChildIndex(dom, node);
      if index.None? {
        return false;
      }
      ParentIsNotText(dom, node);
      this.node, this.offset := Parent(dom, node), index.value;
      if parent != null {
        parent.Update();
      }
      return true;
    }

    /** Moves to the place just after the node; fails for a node without a parent. */
    method SetAfter(node: Node) returns (ok: bool)
      requires node in dom.nodes && Linked()
      modifies this`node, this`offset, parent
      ensures ok == Parent(dom, node).Some?
      ensures ok ==> this.node == Parent(dom, node) && this.offset == Index(dom, node) + 1 && Placed()
      ensures ok && parent != null ==> parent.Valid()
      ensures !ok ==> unchanged(this) && (parent != null ==> unchanged(parent))
    {
      var index := ChildIndex(dom, node);
      if index.None? {
        return false;
      }
      ParentIsNotText(dom, node);
      this.node, this.offset := Parent(dom, node), index.value + 1;
      if parent != null {
        parent.Update();
      }
      return true;
    }

    /** `__cmp__`: document order within one tree, offsets if both are unset, and otherwise no answer. */
    method Compare(other: Position) returns (r: Option<int>)
      requires other.dom == dom && Placed() && other.Placed()
      ensures r == Comparison(dom, node, offset, other.node, other.offset)
      ensures node.Some? && other.node.Some? ==>
                r == if SameTree(dom, node.value, other.node.value) then Some(Order(dom, At(), other.At())) else None
      ensures node.Some? != other.node.Some? ==> r == None
      ensures node.None? && other.node.None? && offset < other.offset ==> r == Some(-1)
      ensures node.None? && other.node.None? && offset == other.offset ==> r == Some(0)
      ensures node.None? && other.node.None? && offset > other.offset ==> r == Some(1)
    {
      if node == other.node {
        if node.Some? {
          SameNodeOrder(dom, node.value, offset, other.offset);
        }
        return Some(if offset < other.offset then -1 else if offset == other.offset then 0 else 1);
      }
      var ancestor := FindCommonAncestor(dom, node, other.node);
      if node.Some? && other.node.Some? {
        CommonAncestorExists(dom, node.value, other.node.value, ancestor);
      }
      if ancestor.None? {
        return None;
      }
      OrderIsAtAncestor(dom, At(), other.At(), ancestor.value);
      var selfIndex, otherIndex := BranchIndex(dom, ancestor.value, node.value, other.node.value);
      if IsAncestor(dom, node, other.node) {
        assert Above(dom, node.value, ancestor.value);
        AboveAntisymmetric(dom, node.value, ancestor.value);
        return Some(if otherIndex < offset then 1 else -1);
      }
      if IsAncestor(dom, other.node, node) {
        assert Above(dom, other.node.value, ancestor.value);
        AboveAntisymmetric(dom, other.node.value, ancestor.value);
        return Some(if selfIndex < other.offset then -1 else 1);
      }
      return Some(if otherIndex < selfIndex then 1 else -1);
    }
  }

  lemma ParentIsNotText(d: Doc, n: Node)
    requires n in d.nodes && Parent(d, n).Some?
    ensures !IsText(d, Parent(d, n).value)
  {
    if IsText(d, Parent(d, n).value) {
      TextHasNoKids(d, Parent(d, n).value);
    }
  }

  /** The indexes of the children of `ancestor` that a and b lie below, -1 for the ancestor itself. */
  method BranchIndex(d: Doc, ancestor: Node, a: Node, b: Node) returns (aIndex: int, bIndex: int)
    requires a in d.nodes && b in d.nodes && Above(d, ancestor, a) && Above(d, ancestor, b)
    ensures aIndex == if a == ancestor then -1 else BranchTo(d, ancestor, a)
    ensures bIndex == if b == ancestor then -1 else BranchTo(d, ancestor, b)
  {
    AboveIsInTree(d, ancestor, a);
    aIndex, bIndex := -1, -1;
    var children := Kids(d, ancestor);
    for i := 0 to |children|
      invariant aIndex == if a != ancestor && BranchTo(d, ancestor, a) < i then BranchTo(d, ancestor, a) else -1
      invariant bIndex == if b != ancestor && BranchTo(d, ancestor, b) < i then BranchTo(d, ancestor, b) else -1
    {
      if IsAncestor(d, Some(children[i]), Some(a)) {
        assert Above(d, children[i], a);
        BranchIsUnique(d, ancestor, a, i);
        aIndex := i;
      }
      if IsAncestor(d, Some(children[i]), Some(b)) {
        assert Above(d, children[i], b);
        BranchIsUnique(d, ancestor, b, i);
        bIndex := i;
      }
    }
  }

  /** The points that `pointInside` accepts. */
  ghost predicate Inside(d: Doc, start: Point, end: Point, p: Point)
    requires start.node in d.nodes && end.node in d.nodes && p.node in d.nodes
  {
    Order(d, start, p) <= 0 && Order(d, end, p) >= 0
  }

  /** They form an interval of document order, empty exactly when the end comes before the start. */
  lemma InsideIsInterval(d: Doc, start: Point, end: Point, p: Point, q: Point, r: Point)
    requires start.node in d.nodes && end.node in d.nodes
    requires p.node in d.nodes && q.node in d.nodes && r.node in d.nodes
    ensures Inside(d, start, end, p) && Inside(d, start, end, r) && Order(d, p, q) <= 0 && Order(d, q, r) <= 0
            ==> Inside(d, start, end, q)
    ensures Inside(d, start, end, p) ==> Order(d, start, end) <= 0
    ensures Order(d, start, end) <= 0 ==> Inside(d, start, end, start) && Inside(d, start, end, end)
  {
    OrderIsTotal(d, end, p, end);
    OrderIsTotal(d, end, r, end);
    OrderIsTotal(d, end, q, end);
    OrderIsTotal(d, start, end, end);
    OrderIsTotal(d, start, p, q);
    OrderIsTotal(d, q, r, end);
    OrderIsTotal(d, start, p, end);
    OrderIsTotal(d, start, start, start);
    SameNodeOrder(d, start.node, start.offset, start.offset);
    SameNodeOrder(d, end.node, end.offset, end.offset);
  }

  class Range {
    const dom: Doc
    const start: Position
    const end: Position
    var ancestor: Option<Node>
    var collapsed: bool

    ghost predicate Wired()
      reads start, end
    {
      start != end && start.parent == this && end.parent == this && start.dom == dom && end.dom == dom
    }

    /** The derived fields agree with the two ends, as far as these are set and lie in one tree. */
    ghost predicate Derived()
      requires start.dom == dom && end.dom == dom
      requires start.Placed() && end.Placed()
      reads this, start, end
    {
      && (start.node.Some? && end.node.Some? ==> DeepestCommon(dom, start.node, end.node, ancestor))
      && (start.node.Some? && end.node.Some? && SameTree(dom, start.node.value, end.node.value) ==>
            (collapsed <==> Order(dom, end.At(), start.At()) <= 0))
    }

    ghost predicate Valid()
      reads this, start, end
    {
      Wired() && start.Placed() && end.Placed() && Derived()
    }

    ghost predicate BothSet()
      reads start, end
    {
      start.node.Some? && end.node.Some?
    }

    constructor (dom: Doc, s: Option<Point>, f: Option<Point>)
      requires s.Some? ==> s.value.node in dom.nodes
      requires f.Some? ==> f.value.node in dom.nodes
      ensures Valid() && this.dom == dom && fresh(start) && fresh(end)
      ensures match s
              case None => start.node == None && start.offset == 0
              case Some(p) =>
                && start.node == Some(p.node)
                && start.offset == if IsText(dom, p.node) && p.offset > |Data(dom, p.node)|
                                   then |Data(dom, p.node)| else p.offset
      ensures match f
              case None => end.node == None && end.offset == 0
              case Some(p) =>
                && end.node == Some(p.node)
                && end.offset == if IsText(dom, p.node) && p.offset > |Data(dom, p.node)|
                                 then |Data(dom, p.node)| else p.offset
    {
      this.dom := dom;
      start := new Position.Unset(dom);
      end := new Position.Unset(dom);
      ancestor, collapsed := None, false;
      new;
      start.parent := this;
      end.parent := this;
      if s.Some? {
        start.Set(Some(s.value.node), s.value.offset);
      }
      if f.Some? {
        end.Set(Some(f.value.node), f.value.offset);
      }
    }

    method Update()
      requires Wired() && start.Placed() && end.Placed()
      modifies this`ancestor, this`collapsed
      ensures Valid()
      ensures !BothSet() ==> ancestor == old(ancestor)
    {
      if start.node.Some? && end.node.Some? {
        ancestor := FindCommonAncestor(dom, start.node, end.node);
      }
      var order := end.Compare(start);
      if order.Some? {
        collapsed := order.value <= 0;
      } else {
        collapsed := *;
      }
    }

    method SetStart(node: Node, offset: int)
      requires Valid() && node in dom.nodes
      modifies this, start`node, start`offset
      ensures Valid() && start.node == Some(node)
      ensures start.offset == if IsText(dom, node) && offset > |Data(dom, node)| then |Data(dom, node)| else offset
    {
      start.Set(Some(node), offset);
    }

    method SetEnd(node: Node, offset: int)
      requires Valid() && node in dom.nodes
      modifies this, end`node, end`offset
      ensures Valid() && end.node == Some(node)
      ensures end.offset == if IsText(dom, node) && offset > |Data(dom, node)| then |Data(dom, node)| else offset
    {
      end.Set(Some(node), offset);
    }

    method SetStartBefore(node: Node) returns (ok: bool)
      requires Valid() && node in dom.nodes
      modifies this, start`node, start`offset
      ensures Valid() && ok == Parent(dom, node).Some?
      ensures ok ==> start.node == Parent(dom, node) && start.offset == Index(dom, node)
      ensures !ok ==> unchanged(this) && unchanged(start)
    {
      ok := start.SetBefore(node);
    }

    method SetStartAfter(node: Node) returns (ok: bool)
      requires Valid() && node in dom.nodes
      modifies this, start`node, start`offset
      ensures Valid() && ok == Parent(dom, node).Some?
      ensures ok ==> start.node == Parent(dom, node) && start.offset == Index(dom, node) + 1
      ensures !ok ==> unchanged(this) && unchanged(start)
    {
      ok := start.SetAfter(node);
    }

    method SetEndBefore(node: Node) returns (ok: bool)
      requires Valid() && node in dom.nodes
      modifies this, end`node, end`offset
      ensures Valid() && ok == Parent(dom, node).Some?
      ensures ok ==> end.node == Parent(dom, node) && end.offset == Index(dom, node)
      ensures !ok ==> unchanged(this) && unchanged(end)
    {
      ok := end.SetBefore(node);
    }

    method SetEndAfter(node: Node) returns (ok: bool)
      requires Valid() && node in dom.nodes
      modifies this, end`node, end`offset
      ensures Valid() && ok == Parent(dom, node).Some?
      ensures ok ==> end.node == Parent(dom, node) && end.offset == Index(dom, node) + 1
      ensures !ok ==> unchanged(this) && unchanged(end)
    {
      ok := end.SetAfter(node);
    }

    /** Both ends meet where one of them was. */
    method Collapse(toStart: bool)
      requires Valid()
      modifies this, start`node, start`offset, end`node, end`offset
      ensures Valid() && start.node == end.node && start.offset == end.offset
      ensures if toStart then unchanged(start) else unchanged(end)
      ensures start.node.Some? ==> collapsed && ancestor == start.node
    {
      if toStart {
        end.Set(start.node, start.offset);
      } else {
        start.Set(end.node, end.offset);
      }
      if start.node.Some? {
        var n := start.node.value;
        SameNodeOrder(dom, n, start.offset, start.offset);
        assert Above(dom, n, n);
        AboveAntisymmetric(dom, n, ancestor.value);
      }
    }

    /** Whether a point, its offset clamped, lies between the ends, both included. */
    method PointInside(node: Node, offset: int) returns (inside: bool)
      requires Valid() && BothSet() && node in dom.nodes
      requires SameTree(dom, node, start.node.value) && SameTree(dom, node, end.node.value)
      ensures inside <==>
                var p := Point(node, if IsText(dom, node) && offset > |Data(dom, node)| then |Data(dom, node)|
                                     else offset);
                Inside(dom, start.At(), end.At(), p)
    {
      var p := new Position(dom, node, offset);
      var fromStart := start.Compare(p);
      if fromStart.value > 0 {
        return false;
      }
      var fromEnd := end.Compare(p);
      return fromEnd.value >= 0;
    }

    /** The constants are 0 for START_TO_START, 1 for START_TO_END, 2 for END_TO_START and 3 for END_TO_END. */
    method CompareBoundaryPoints(how: int, other: Range) returns (r: Option<int>)
      requires Valid() && other.Valid() && other.dom == dom
      ensures how == 0 ==>
                r == Comparison(dom, start.node, start.offset, other.start.node, other.start.offset)
      ensures how == 1 ==>
                r == Comparison(dom, start.node, start.offset, other.end.node, other.end.offset)
      ensures how == 2 ==>
                r == Comparison(dom, end.node, end.offset, other.start.node, other.start.offset)
      ensures how == 3 ==>
                r == Comparison(dom, end.node, end.offset, other.end.node, other.end.offset)
      ensures how !in {0, 1, 2, 3} ==> r == None
    {
      r := None;
      if how == START_TO_START {
        r := start.Compare(other.start);
      } else if how == START_TO_END {
        r := start.Compare(other.end);
      } else if how == END_TO_START {
        r := end.Compare(other.start);
      } else if how == END_TO_END {
        r := end.Compare(other.end);
      }
    }

    /** The text of the range; None where the code raises for ends without a common ancestor. */
    method Stringify() returns (text: Option<string>)
      requires Valid() && BothSet() && ValidPoint(dom, start.At()) && ValidPoint(dom, end.At())
      ensures SameTree(dom, start.node.value, end.node.value) ==>
                text == Some(TextBetween(dom, start.At(), end.At()))
      ensures !SameTree(dom, start.node.value, end.node.value) ==> text == if collapsed then Some("") else None
    {
      hide TextBetween, Order, Remaining, SameTree, DeepestCommon, Root;
      ghost var from, to := start.At(), end.At();
      CommonAncestorExists(dom, from.node, to.node, ancestor);
      if collapsed {
        if SameTree(dom, from.node, to.node) {
          TextBackwards(dom, from, to);
        }
        return Some("");
      }
      if ancestor.None? {
        return None;
      }
      hide Reading;
      StartReading(dom, from, to);
      var result := "";
      var node, offset := start.node.value, start.offset;
      while true
        invariant ValidPoint(dom, Point(node, offset)) && Reading(dom, from, to, Point(node, offset), result)
        decreases Remaining(dom, node, offset)
      {
        if IsText(dom, node) {
          if node == end.node.value {
            ReadLastText(dom, from, to, node, offset, result);
            result := result + Data(dom, node)[offset..end.offset];
            break;
          } else {
            LeaveText(dom, from, to, node, offset, result);
            result := result + Data(dom, node)[offset..];
            var index := ChildIndex(dom, node);
            node, offset := Parent(dom, node).value, index.value + 1;
          }
        } else {
          if node == end.node.value && offset == end.offset {
            ReadToEnd(dom, from, to, result);
            break;
          }
          if offset < |Kids(dom, node)| {
            EnterChild(dom, from, to, node, offset, result);
            node, offset := Kids(dom, node)[offset], 0;
          } else {
            LeaveElement(dom, from, to, node, offset, result);
            var index := ChildIndex(dom, node);
            node, offset := Parent(dom, node).value, index.value + 1;
          }
        }
      }
      return Some(result);
    }
  }

  // ---------- The loop of Stringify ----------

  /** The loop has read `result`, stands at `here`, not past `to`, and still has the rest to read. */
  ghost predicate Reading(d: Doc, from: Point, to: Point, here: Point, result: string)
  {
    && from.node in d.nodes && ValidPoint(d, to) && ValidPoint(d, here) && SameTree(d, here.node, to.node)
    && Order(d, here, to) <= 0
    && TextBetween(d, from, to) == result + TextBetween(d, here, to)
  }

  lemma StartReading(d: Doc, from: Point, to: Point)
    requires ValidPoint(d, from) && ValidPoint(d, to) && SameTree(d, from.node, to.node)
    requires Order(d, to, from) > 0
    ensures Reading(d, from, to, from, "")
  {
    OrderIsTotal(d, from, to, to);
  }

  lemma ReadToEnd(d: Doc, from: Point, to: Point, result: string)
    requires Reading(d, from, to, to, result)
    ensures result == TextBetween(d, from, to)
  {
    TextFromEnd(d, to);
  }

  lemma ReadLastText(d: Doc, from: Point, to: Point, t: Node, o: int, result: string)
    requires Reading(d, from, to, Point(t, o), result) && IsText(d, t) && to.node == t
    ensures 0 <= o <= to.offset <= |Data(d, t)|
    ensures result + Data(d, t)[o..to.offset] == TextBetween(d, from, to)
  {
    SameNodeOrder(d, t, o, to.offset);
    TextOfSlice(d, t, o, to);
  }

  lemma EnterChild(d: Doc, from: Point, to: Point, n: Node, o: nat, result: string)
    requires n in d.nodes && o < |Kids(d, n)|
    requires Reading(d, from, to, Point(n, o), result) && Point(n, o) != to
    ensures ValidPoint(d, Point(Kids(d, n)[o], 0))
    ensures Reading(d, from, to, Point(Kids(d, n)[o], 0), result)
    ensures Remaining(d, Kids(d, n)[o], 0) < Remaining(d, n, o)
  {
    OrderIsTotal(d, Point(n, o), to, to);
    IntoChild(d, n, o, to);
    TextIntoChild(d, n, o, to);
    RemainingInto(d, n, o);
  }

  /** Before the end of the range, a node walked to its end has a parent to go back to. */
  lemma LeaveNode(d: Doc, n: Node, o: nat, to: Point)
    requires ValidPoint(d, Point(n, o)) && ValidPoint(d, to) && SameTree(d, n, to.node)
    requires Order(d, Point(n, o), to) < 0 && o >= |Kids(d, n)|
    requires IsText(d, n) ==> n != to.node
    ensures Parent(d, n).Some?
    ensures var next := Point(Parent(d, n).value, Index(d, n) + 1);
            && ValidPoint(d, next) && SameTree(d, next.node, to.node) && Order(d, next, to) <= 0
            && Remaining(d, next.node, next.offset) < Remaining(d, n, o)
  {
    if Parent(d, n).None? {
      NothingAfterRoot(d, n, o, to);
    }
    ParentIsNotText(d, n);
    OutToParent(d, n, o, to);
  }

  lemma LeaveElement(d: Doc, from: Point, to: Point, n: Node, o: nat, result: string)
    requires Reading(d, from, to, Point(n, o), result) && Point(n, o) != to
    requires !IsText(d, n) && o >= |Kids(d, n)|
    ensures Parent(d, n).Some?
    ensures var next := Point(Parent(d, n).value, Index(d, n) + 1);
            && ValidPoint(d, next) && Reading(d, from, to, next, result)
            && Remaining(d, next.node, next.offset) < Remaining(d, n, o)
  {
    OrderIsTotal(d, Point(n, o), to, to);
    LeaveNode(d, n, o, to);
    TextOutOfElement(d, n, o, to);
  }

  lemma LeaveText(d: Doc, from: Point, to: Point, t: Node, o: nat, result: string)
    requires Reading(d, from, to, Point(t, o), result) && IsText(d, t) && t != to.node
    ensures Parent(d, t).Some?
    ensures var next := Point(Parent(d, t).value, Index(d, t) + 1);
            && ValidPoint(d, next) && Reading(d, from, to, next, result + Data(d, t)[o..])
            && Remaining(d, next.node, next.offset) < Remaining(d, t, o)
  {
    hide TextBetween, Order, Remaining;
    var data := Data(d, t)[o..];
    OrderIsTotal(d, Point(t, o), to, to);
    TextHasNoKids(d, t);
    LeaveNode(d, t, o, to);
    TextOutOfText(d, t, o, to);
    var rest := TextBetween(d, Point(Parent(d, t).value, Index(d, t) + 1), to);
    assert result + (data + rest) == (result + data) + rest;
  }
}
