/** The content folders as a store of objects that refer to each other by identity: every object has a
    name and a parent, every folder a container of children under case-folded keys. */
module FolderTree {
  import opened Options

  type Oid = nat
  type Data = string

  datatype Kind = RootFolder | Folder | File

  datatype Item = Item(kind: Kind, name: string, parent: Option<Oid>, children: map<string, Oid>, data: Data)

  type Store = map<Oid, Item>

  /** The case folding of container keys; nothing is assumed about it. */
  type Fold = string -> string

  /** A folder's links and its children's name and parent agree; a root folder is nobody's child, files
      have no children, and parents are objects of the store. */
  ghost predicate LinksAgree(s: Store, fold: Fold, p: Oid)
    requires p in s
  {
    && (forall k | k in s[p].children ::
          var c := s[p].children[k];
          c in s && s[c].kind != RootFolder && s[c].parent == Some(p) && fold(s[c].name) == k)
    && (s[p].kind == File ==> s[p].children == map[])
    && (s[p].parent.Some? ==> s[p].parent.value in s)
  }

  /** Every object's links agree, and the root is a root folder without a parent. */
  ghost predicate IsTree(s: Store, fold: Fold, root: Oid)
  {
    && root in s && s[root].kind == RootFolder && s[root].parent == None
    && forall p {:trigger LinksAgree(s, fold, p)} | p in s :: LinksAgree(s, fold, p)
  }

  // ---------- Walking down ----------

  /** Follows keys down from x. */
  function Walk(s: Store, x: Oid, keys: seq<string>): Option<Oid>
    decreases |keys|
  {
    if keys == [] then Some(x)
    else if x in s && keys[0] in s[x].children then Walk(s, s[x].children[keys[0]], keys[1..])
    else None
  }

  /** y is x or somewhere below it. */
  ghost predicate Below(s: Store, x: Oid, y: Oid)
  {
    exists keys :: Walk(s, x, keys) == Some(y)
  }

  lemma BelowBy(s: Store, x: Oid, y: Oid, keys: seq<string>)
    requires Walk(s, x, keys) == Some(y)
    ensures Below(s, x, y)
  {
  }

  lemma BelowSelf(s: Store, x: Oid)
    ensures Below(s, x, x)
  {
    assert Walk(s, x, []) == Some(x);
  }

  lemma {:induction false} WalkConcat(s: Store, x: Oid, a: seq<string>, b: seq<string>)
    ensures Walk(s, x, a + b) ==
            match Walk(s, x, a) {
              case None => None
              case Some(y) => Walk(s, y, b)
            }
    decreases |a|
  {
    if a == [] {
      assert a + b == b;
    } else {
      assert (a + b)[1..] == a[1..] + b;
      if x in s && a[0] in s[x].children {
        WalkConcat(s, s[x].children[a[0]], a[1..], b);
      }
    }
  }

  lemma BelowTransitive(s: Store, x: Oid, y: Oid, z: Oid)
    requires Below(s, x, y) && Below(s, y, z)
    ensures Below(s, x, z)
  {
    var a :| Walk(s, x, a) == Some(y);
    var b :| Walk(s, y, b) == Some(z);
    WalkConcat(s, x, a, b);
  }

  /** The last step of a walk comes from the parent, by the folded name. */
  lemma LastStep(s: Store, fold: Fold, root: Oid, x: Oid, keys: seq<string>, y: Oid)
    requires IsTree(s, fold, root) && x in s && Walk(s, x, keys) == Some(y) && keys != []
    ensures y in s && s[y].parent.Some? && keys[|keys| - 1] == fold(s[y].name)
    ensures var p := s[y].parent.value;
            p in s && Walk(s, x, keys[..|keys| - 1]) == Some(p)
            && keys[|keys| - 1] in s[p].children && s[p].children[keys[|keys| - 1]] == y
  {
    var k := keys[|keys| - 1];
    var front := keys[..|keys| - 1];
    assert keys == front + [k];
    WalkConcat(s, x, front, [k]);
    var p := Walk(s, x, front).value;
    assert [k][1..] == [];
    assert p in s && k in s[p].children;
    assert LinksAgree(s, fold, p);
  }

  lemma {:induction false} WalkStays(s: Store, fold: Fold, root: Oid, x: Oid, keys: seq<string>)
    requires IsTree(s, fold, root) && x in s && Walk(s, x, keys).Some?
    ensures Walk(s, x, keys).value in s
    decreases |keys|
  {
    if keys != [] {
      assert LinksAgree(s, fold, x);
      WalkStays(s, fold, root, s[x].children[keys[0]], keys[1..]);
    }
  }

  /** It is a tree: there is only one way from the root to an object. */
  lemma {:induction false} OnlyOneWay(s: Store, fold: Fold, root: Oid, a: seq<string>, b: seq<string>, x: Oid)
    requires IsTree(s, fold, root) && Walk(s, root, a) == Some(x) && Walk(s, root, b) == Some(x)
    ensures a == b
    decreases |a|
  {
    if a == [] {
      if b != [] {
        LastStep(s, fold, root, root, b, x);
      }
    } else {
      LastStep(s, fold, root, root, a, x);
      if b != [] {
        LastStep(s, fold, root, root, b, x);
        OnlyOneWay(s, fold, root, a[..|a| - 1], b[..|b| - 1], s[x].parent.value);
        assert a == a[..|a| - 1] + [a[|a| - 1]] && b == b[..|b| - 1] + [b[|b| - 1]];
      }
    }
  }

  /** A child of an attached folder is not above it. */
  lemma NoWayBack(s: Store, fold: Fold, root: Oid, p: Oid, k: string)
    requires IsTree(s, fold, root) && Below(s, root, p) && p in s && k in s[p].children
    ensures !Below(s, s[p].children[k], p)
  {
    var c := s[p].children[k];
    if Below(s, c, p) {
      var a :| Walk(s, root, a) == Some(p);
      var b :| Walk(s, c, b) == Some(p);
      WalkConcat(s, root, a, [k] + b);
      assert ([k] + b)[1..] == b;
      assert Walk(s, p, [k] + b) == Some(p);
      OnlyOneWay(s, fold, root, a, a + ([k] + b), p);
    }
  }

  // ---------- Unlinking and linking ----------

  /** `_delitemf`: the key goes; the object keeps its name and parent. */
  function Unlink(s: Store, p: Oid, k: string): Store
    requires p in s
  {
    s[p := s[p].(children := s[p].children - {k})]
  }

  /** `_setitemf` */
  function Link(s: Store, p: Oid, k: string, x: Oid): Store
    requires p in s
  {
    s[p := s[p].(children := s[p].children[k := x])]
  }

  /** Gives an object a name and a parent. */
  function Locate(s: Store, x: Oid, p: Oid, name: string): Store
    requires x in s
  {
    s[x := s[x].(name := name, parent := Some(p))]
  }

  /** The two stores have the same links. */
  ghost predicate SameLinks(s: Store, t: Store)
  {
    s.Keys == t.Keys && forall p | p in s :: s[p].children == t[p].children
  }

  lemma {:induction false} SameWalk(s: Store, t: Store, x: Oid, keys: seq<string>)
    requires SameLinks(s, t)
    ensures Walk(s, x, keys) == Walk(t, x, keys)
    decreases |keys|
  {
    if keys != [] && x in s && keys[0] in s[x].children {
      SameWalk(s, t, s[x].children[keys[0]], keys[1..]);
    }
  }

  lemma SameBelow(s: Store, t: Store, x: Oid, y: Oid)
    requires SameLinks(s, t)
    ensures Below(s, x, y) <==> Below(t, x, y)
  {
    if Below(s, x, y) {
      var keys :| Walk(s, x, keys) == Some(y);
      SameWalk(s, t, x, keys);
    }
    if Below(t, x, y) {
      var keys :| Walk(t, x, keys) == Some(y);
      SameWalk(s, t, x, keys);
    }
  }

  /** With a link removed, a walk is either as before or led through the link. */
  lemma {:induction false} WalkAfterUnlink(s: Store, p: Oid, k: string, x: Oid, keys: seq<string>, y: Oid)
    requires p in s && k in s[p].children
    ensures Walk(Unlink(s, p, k), x, keys) == Some(y) ==> Walk(s, x, keys) == Some(y)
    ensures Walk(s, x, keys) == Some(y) && Walk(Unlink(s, p, k), x, keys) != Some(y) ==>
              Below(s, x, p) && Below(s, s[p].children[k], y)
    decreases |keys|
  {
    if keys != [] && x in s && keys[0] in s[x].children {
      var next := s[x].children[keys[0]];
      if x == p && keys[0] == k {
        BelowSelf(s, x);
        if Walk(s, next, keys[1..]) == Some(y) {
          BelowBy(s, next, y, keys[1..]);
        }
      } else {
        WalkAfterUnlink(s, p, k, next, keys[1..], y);
        if Below(s, next, p) {
          assert Walk(s, x, [keys[0]]) == Walk(s, next, []) by {
            assert [keys[0]][1..] == [];
          }
          BelowBy(s, x, next, [keys[0]]);
          BelowTransitive(s, x, next, p);
        }
      }
    }
  }

  /** Unlinking cuts off exactly what is below the link. */
  lemma BelowAfterUnlink(s: Store, fold: Fold, root: Oid, p: Oid, k: string, y: Oid)
    requires IsTree(s, fold, root) && p in s && k in s[p].children && Below(s, root, p)
    ensures Below(Unlink(s, p, k), root, y) <==> Below(s, root, y) && !Below(s, s[p].children[k], y)
  {
    var c := s[p].children[k];
    var t := Unlink(s, p, k);
    if Below(t, root, y) {
      var keys :| Walk(t, root, keys) == Some(y);
      WalkAfterUnlink(s, p, k, root, keys, y);
      if Below(s, c, y) {
        var a :| Walk(s, root, a) == Some(p);
        var b :| Walk(s, c, b) == Some(y);
        WalkConcat(s, root, a, [k] + b);
        assert ([k] + b)[1..] == b;
        OnlyOneWay(s, fold, root, keys, a + ([k] + b), y);
        WalkConcat(t, root, a, [k] + b);
        WalkAfterUnlink(s, p, k, root, a, Walk(t, root, a).value);
      }
    }
    if Below(s, root, y) && !Below(s, c, y) {
      var keys :| Walk(s, root, keys) == Some(y);
      WalkAfterUnlink(s, p, k, root, keys, y);
    }
  }

  /** Below an object that is not above the link nothing changes. */
  lemma BelowUntouched(s: Store, p: Oid, k: string, x: Oid, y: Oid)
    requires p in s && k in s[p].children && !Below(s, x, p)
    ensures Below(Unlink(s, p, k), x, y) <==> Below(s, x, y)
  {
    var t := Unlink(s, p, k);
    if Below(t, x, y) {
      var keys :| Walk(t, x, keys) == Some(y);
      WalkAfterUnlink(s, p, k, x, keys, y);
    }
    if Below(s, x, y) {
      var keys :| Walk(s, x, keys) == Some(y);
      WalkAfterUnlink(s, p, k, x, keys, y);
    }
  }

  /** With a new link, a walk is either as before or ended below the object linked. */
  lemma {:induction false} WalkAfterLink(s: Store, p: Oid, k: string, x: Oid, from: Oid, keys: seq<string>, y: Oid)
    requires p in s && k !in s[p].children
    ensures Walk(s, from, keys) == Some(y) ==> Walk(Link(s, p, k, x), from, keys) == Some(y)
    ensures Walk(Link(s, p, k, x), from, keys) == Some(y) ==> Walk(s, from, keys) == Some(y) || Below(s, x, y)
    decreases |keys|
  {
    var t := Link(s, p, k, x);
    if keys != [] && from in t && keys[0] in t[from].children {
      var next := t[from].children[keys[0]];
      WalkAfterLink(s, p, k, x, next, keys[1..], y);
      if from == p && keys[0] == k {
        if Walk(s, x, keys[1..]) == Some(y) {
          BelowBy(s, x, y, keys[1..]);
        }
      }
    }
  }

  /** Linking attaches exactly what is below the object linked. */
  lemma BelowAfterLink(s: Store, p: Oid, k: string, x: Oid, root: Oid, y: Oid)
    requires p in s && k !in s[p].children
    ensures Below(s, root, p) ==>
              (Below(Link(s, p, k, x), root, y) <==> Below(s, root, y) || Below(s, x, y))
  {
    var t := Link(s, p, k, x);
    if Below(t, root, y) {
      var keys :| Walk(t, root, keys) == Some(y);
      WalkAfterLink(s, p, k, x, root, keys, y);
    }
    if Below(s, root, y) {
      var keys :| Walk(s, root, keys) == Some(y);
      WalkAfterLink(s, p, k, x, root, keys, y);
    }
    if Below(s, root, p) && Below(s, x, y) {
      var a :| Walk(s, root, a) == Some(p);
      var b :| Walk(s, x, b) == Some(y);
      WalkAfterLink(s, p, k, x, root, a, p);
      WalkAfterLink(s, p, k, x, x, b, y);
      assert ([k] + b)[1..] == b;
      WalkConcat(t, root, a, [k] + b);
    }
  }
}
