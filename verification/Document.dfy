/** The DOM as the range code sees it: node objects with a kind, a parent link and an ordered list
    of children.  Nodes are compared by identity, so a node is an opaque number.  Several separate
    trees may live in one document. */
module Document {
  import opened Options

  type Node = nat

  datatype Kind =
    | Element(tagName: string, id: string, nonAnchorable: bool)
    | Text(data: string)
    | DocumentNode
    | OtherNode

  datatype NodeInfo = NodeInfo(kind: Kind, parentNode: Option<Node>, childNodes: seq<Node>)

  /** `level` and `height` witness that parent links do not form a cycle. */
  datatype Dom = Dom(nodes: map<Node, NodeInfo>, level: map<Node, nat>, height: nat)

  /** Parent and child links of n agree, its children are distinct, and text nodes are leaves. */
  ghost predicate NodeOk(d: Dom, n: Node)
    requires d.level.Keys == d.nodes.Keys && n in d.nodes
  {
    var info := d.nodes[n];
    && d.level[n] <= d.height
    && (info.parentNode.Some? ==>
          && info.parentNode.value in d.nodes
          && d.level[n] == d.level[info.parentNode.value] + 1
          && n in d.nodes[info.parentNode.value].childNodes)
    && (forall i | 0 <= i < |info.childNodes| ::
          info.childNodes[i] in d.nodes && d.nodes[info.childNodes[i]].parentNode == Some(n))
    && (forall i, j | 0 <= i < j < |info.childNodes| :: info.childNodes[i] != info.childNodes[j])
    && (info.kind.Text? ==> info.childNodes == [])
  }

  ghost predicate WellFormed(d: Dom)
  {
    d.level.Keys == d.nodes.Keys && forall n {:trigger NodeOk(d, n)} | n in d.nodes :: NodeOk(d, n)
  }

  type Doc = d: Dom | WellFormed(d) ghost witness Dom(map[], map[], 0)

  function Parent(d: Doc, n: Node): (p: Option<Node>)
    requires n in d.nodes
    ensures p.Some? ==> p.value in d.nodes && d.level[p.value] < d.level[n] && n in Kids(d, p.value)
  {
    assert NodeOk(d, n);
    d.nodes[n].parentNode
  }

  function Kids(d: Doc, n: Node): (c: seq<Node>)
    requires n in d.nodes
    ensures forall i | 0 <= i < |c| ::
              c[i] in d.nodes && d.nodes[c[i]].parentNode == Some(n) && d.level[c[i]] == d.level[n] + 1 <= d.height
  {
    assert NodeOk(d, n);
    var children := d.nodes[n].childNodes;
    assert forall i | 0 <= i < |children| :: children[i] in d.nodes && NodeOk(d, children[i]);
    children
  }

  predicate IsText(d: Doc, n: Node)
    requires n in d.nodes
  {
    d.nodes[n].kind.Text?
  }

  function Data(d: Doc, n: Node): string
    requires n in d.nodes && IsText(d, n)
  {
    d.nodes[n].kind.data
  }

  lemma TextHasNoKids(d: Doc, n: Node)
    requires n in d.nodes && IsText(d, n)
    ensures Kids(d, n) == []
  {
    assert NodeOk(d, n);
  }

  /** The position of n among its parent's children. */
  ghost function Index(d: Doc, n: Node): (i: nat)
    requires n in d.nodes && Parent(d, n).Some?
    ensures i < |Kids(d, Parent(d, n).value)| && Kids(d, Parent(d, n).value)[i] == n
  {
    var i: nat :| i < |Kids(d, Parent(d, n).value)| && Kids(d, Parent(d, n).value)[i] == n;
    i
  }

  lemma IndexOfKid(d: Doc, n: Node, i: nat)
    requires n in d.nodes && i < |Kids(d, n)|
    ensures Kids(d, n)[i] in d.nodes && Parent(d, Kids(d, n)[i]) == Some(n) && Index(d, Kids(d, n)[i]) == i
  {
    assert NodeOk(d, n);
  }

  /** The climb of `childIndex`; a node without a parent has no index. */
  method ChildIndex(d: Doc, n: Node) returns (r: Option<nat>)
    requires n in d.nodes
    ensures r == if Parent(d, n).None? then None else Some(Index(d, n))
  {
    var parent := Parent(d, n);
    if parent.None? {
      return None;
    }
    var children := Kids(d, parent.value);
    ghost var place := Index(d, n);
    for i := 0 to |children|
      invariant i <= place
    {
      if children[i] == n {
        IndexOfKid(d, parent.value, i);
        return Some(i);
      }
    }
    assert false;
  }

  /** Whether `ancestor` is `descendant` or one of the nodes above it. */
  predicate IsAncestor(d: Doc, ancestor: Option<Node>, descendant: Option<Node>)
    requires descendant.Some? ==> descendant.value in d.nodes
    decreases if descendant.Some? then d.level[descendant.value] + 1 else 0
  {
    if ancestor.None? || descendant.None? then false
    else if ancestor == descendant then true
    else IsAncestor(d, ancestor, Parent(d, descendant.value))
  }

  predicate Above(d: Doc, a: Node, n: Node): (r: bool)
    requires n in d.nodes
    ensures r <==> a == n || (Parent(d, n).Some? && IsAncestor(d, Some(a), Parent(d, n)))
  {
    assert Parent(d, n).None? ==> !IsAncestor(d, Some(a), Parent(d, n));
    IsAncestor(d, Some(a), Some(n))
  }

  ghost function Root(d: Doc, n: Node): (r: Node)
    requires n in d.nodes
    ensures r in d.nodes && Parent(d, r).None?
    decreases d.level[n]
  {
    if Parent(d, n).None? then n else Root(d, Parent(d, n).value)
  }

  ghost predicate SameTree(d: Doc, a: Node, b: Node)
    requires a in d.nodes && b in d.nodes
  {
    Root(d, a) == Root(d, b)
  }

  lemma {:induction false} AboveIsInTree(d: Doc, a: Node, n: Node)
    requires n in d.nodes && Above(d, a, n)
    ensures a in d.nodes && Root(d, a) == Root(d, n) && d.level[a] <= d.level[n]
    decreases d.level[n]
  {
    if a != n {
      AboveIsInTree(d, a, Parent(d, n).value);
    }
  }

  lemma {:induction false} AboveTransitive(d: Doc, a: Node, b: Node, c: Node)
    requires b in d.nodes && c in d.nodes && Above(d, a, b) && Above(d, b, c)
    ensures Above(d, a, c)
    decreases d.level[c]
  {
    if b != c {
      if a == c {
      } else {
        AboveTransitive(d, a, b, Parent(d, c).value);
      }
    }
  }

  lemma {:induction false} RootIsAbove(d: Doc, n: Node)
    requires n in d.nodes
    ensures Above(d, Root(d, n), n)
    decreases d.level[n]
  {
    if Parent(d, n).Some? {
      RootIsAbove(d, Parent(d, n).value);
    }
  }

  lemma AboveAntisymmetric(d: Doc, a: Node, b: Node)
    requires a in d.nodes && b in d.nodes && Above(d, a, b) && Above(d, b, a)
    ensures a == b
  {
    if a != b {
      AboveIsInTree(d, a, Parent(d, b).value);
      AboveIsInTree(d, b, a);
    }
  }

  /** A node strictly below n lies below exactly one child of n. */
  ghost function BranchTo(d: Doc, n: Node, m: Node): (i: nat)
    requires m in d.nodes && Above(d, n, m) && n != m
    ensures n in d.nodes && i < |Kids(d, n)| && Above(d, Kids(d, n)[i], m)
    decreases d.level[m]
  {
    var p := Parent(d, m).value;
    AboveIsInTree(d, n, m);
    if p == n then Index(d, m) else BranchTo(d, n, p)
  }

  lemma {:induction false} AncestorsAreChained(d: Doc, a: Node, b: Node, m: Node)
    requires m in d.nodes && Above(d, a, m) && Above(d, b, m)
    requires a in d.nodes && b in d.nodes && d.level[a] <= d.level[b]
    ensures Above(d, a, b)
    decreases d.level[m]
  {
    if b == m {
    } else if a == m {
      AboveIsInTree(d, b, Parent(d, m).value);
    } else {
      AncestorsAreChained(d, a, b, Parent(d, m).value);
    }
  }

  lemma BranchIsUnique(d: Doc, n: Node, m: Node, i: nat)
    requires n in d.nodes && m in d.nodes && i < |Kids(d, n)| && Above(d, Kids(d, n)[i], m)
    ensures Above(d, n, m) && n != m && BranchTo(d, n, m) == i
  {
    var c := Kids(d, n)[i];
    IndexOfKid(d, n, i);
    assert Above(d, n, c);
    AboveTransitive(d, n, c, m);
    AboveIsInTree(d, c, m);
    var j := BranchTo(d, n, m);
    IndexOfKid(d, n, j);
    AncestorsAreChained(d, c, Kids(d, n)[j], m);
    if c != Kids(d, n)[j] {
      AboveIsInTree(d, c, n);
    }
  }

  /** r is what `find_common_ancestor` is for: the lowest node above both a and b, None if there is none. */
  ghost predicate DeepestCommon(d: Doc, a: Option<Node>, b: Option<Node>, r: Option<Node>)
    requires a.Some? ==> a.value in d.nodes
    requires b.Some? ==> b.value in d.nodes
  {
    match r
    case None => forall m | m in d.nodes :: !(IsAncestor(d, Some(m), a) && IsAncestor(d, Some(m), b))
    case Some(c) =>
      && c in d.nodes && IsAncestor(d, r, a) && IsAncestor(d, r, b)
      && forall m | m in d.nodes && IsAncestor(d, Some(m), a) && IsAncestor(d, Some(m), b) :: Above(d, m, c)
  }

  lemma DeepestCommonIsUnique(d: Doc, a: Option<Node>, b: Option<Node>, r: Option<Node>, s: Option<Node>)
    requires a.Some? ==> a.value in d.nodes
    requires b.Some? ==> b.value in d.nodes
    requires DeepestCommon(d, a, b, r) && DeepestCommon(d, a, b, s)
    ensures r == s
  {
    if r.Some? && s.Some? {
      AboveAntisymmetric(d, r.value, s.value);
    }
  }

  /** There is a common ancestor exactly for two nodes of one tree. */
  lemma CommonAncestorExists(d: Doc, a: Node, b: Node, r: Option<Node>)
    requires a in d.nodes && b in d.nodes && DeepestCommon(d, Some(a), Some(b), r)
    ensures r.Some? <==> SameTree(d, a, b)
  {
    if r.Some? {
      AboveIsInTree(d, r.value, a);
      AboveIsInTree(d, r.value, b);
    } else if SameTree(d, a, b) {
      RootIsAbove(d, a);
      RootIsAbove(d, b);
    }
  }

  method FindCommonAncestor(d: Doc, a: Option<Node>, b: Option<Node>) returns (ancestor: Option<Node>)
    requires a.Some? ==> a.value in d.nodes
    requires b.Some? ==> b.value in d.nodes
    ensures DeepestCommon(d, a, b, ancestor)
  {
    ancestor := a;
    while ancestor.Some? && !IsAncestor(d, ancestor, b)
      invariant ancestor.Some? ==> ancestor.value in d.nodes && IsAncestor(d, ancestor, a)
      invariant forall m | m in d.nodes && IsAncestor(d, Some(m), a) && IsAncestor(d, Some(m), b) ::
                  IsAncestor(d, Some(m), ancestor)
      decreases if ancestor.Some? then d.level[ancestor.value] + 1 else 0
    {
      var up := Parent(d, ancestor.value);
      if up.Some? {
        assert Above(d, up.value, ancestor.value);
        AboveTransitive(d, up.value, ancestor.value, a.value);
      }
      ancestor := up;
    }
  }
}
