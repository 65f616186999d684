/** Renaming an entry of a folder or moving it to another one, in either case replacing the entry that is in
    the way: where the keys of the tree lead afterwards, and by what names. */
module FolderTransfer {
  import opened Options
  import opened FolderTree
  import opened ContentFolders
  import opened FolderPaths
  import opened FolderKeys
  import opened FolderRuns

  // ---------- Walks and links ----------

  /** The walk takes link c of p. */
  ghost predicate Takes(s: Store, x: Oid, keys: seq<string>, p: Oid, c: string)
    decreases |keys|
  {
    && keys != [] && x in s && keys[0] in s[x].children
    && ((x == p && keys[0] == c) || Takes(s, s[x].children[keys[0]], keys[1..], p, c))
  }

  lemma {:induction false} TakesBelow(s: Store, x: Oid, keys: seq<string>, p: Oid, c: string)
    ensures Takes(s, x, keys, p, c) ==> Below(s, x, p)
    decreases |keys|
  {
    if Takes(s, x, keys, p, c) {
      BelowSelf(s, x);
      if !(x == p && keys[0] == c) {
        var next := s[x].children[keys[0]];
        TakesBelow(s, next, keys[1..], p, c);
        OneStep(s, x, keys[0]);
        BelowBy(s, x, next, [keys[0]]);
        BelowTransitive(s, x, next, p);
      }
    }
  }

  lemma OneStep(s: Store, x: Oid, k: string)
    requires x in s && k in s[x].children
    ensures Walk(s, x, [k]) == Some(s[x].children[k])
  {
    assert [k][1..] == [];
  }

  /** A walk from the root takes a link only if its keys begin with those of the link. */
  lemma {:induction false} TakesFromRoot(s: Store, fold: Fold, root: Oid, acc: seq<string>, x: Oid,
                                        keys: seq<string>, way: seq<string>, p: Oid, c: string)
    requires IsTree(s, fold, root) && Walk(s, root, acc) == Some(x) && Walk(s, root, way) == Some(p)
    ensures Takes(s, x, keys, p, c) ==> way + [c] <= acc + keys
    decreases |keys|
  {
    if Takes(s, x, keys, p, c) {
      if x == p && keys[0] == c {
        OnlyOneWay(s, fold, root, acc, way, x);
        assert acc + keys == (way + [c]) + keys[1..];
      } else {
        WalkConcat(s, root, acc, [keys[0]]);
        OneStep(s, x, keys[0]);
        assert acc + keys == (acc + [keys[0]]) + keys[1..];
        TakesFromRoot(s, fold, root, acc + [keys[0]], s[x].children[keys[0]], keys[1..], way, p, c);
      }
    }
  }

  // ---------- Transfers ----------

  /** The entry oldName of folder f, at the keys `at`, becomes the entry newName of folder g, at `into`. */
  datatype Transfer = Transfer(s: Store, fold: Fold, root: Oid, f: Oid, at: seq<string>, oldName: string,
                               g: Oid, into: seq<string>, newName: string)
  {
    /** The item is there, and not moved into itself. */
    ghost predicate Ready()
    {
      && IsTree(s, fold, root) && f in s && g in s && LinksAgree(s, fold, f) && s[g].kind != File
      && Walk(s, root, at) == Some(f) && Walk(s, root, into) == Some(g)
      && Has(s, fold, f, oldName) && newName != "" && !(From() <= into)
    }

    function Item(): Oid
      requires f in s && Has(s, fold, f, oldName)
    {
      Child(s, fold, f, oldName)
    }

    ghost function After(): Store
      requires Ready()
    {
      if f == g then RenameIn(s, fold, f, oldName, newName).1
      else MoveTo(s, fold, f, oldName, g, Some(newName)).1
    }

    function From(): seq<string>
    {
      at + [fold(oldName)]
    }

    function To(): seq<string>
    {
      into + [fold(newName)]
    }

    /** The keys lead to what is replaced, and lost. */
    predicate Loses(keys: seq<string>)
    {
      To() <= keys && !(From() <= keys)
    }

    /** The keys that lead, after the transfer, where the given keys led before. */
    function Shifted(keys: seq<string>): seq<string>
    {
      if From() <= keys then To() + keys[|From()|..] else keys
    }
  }

  /** t is s with item x taken from entry k of f and put as entry j of g, under a name. */
  ghost predicate Differs(s: Store, t: Store, f: Oid, k: string, g: Oid, j: string, x: Oid, name: string)
  {
    t.Keys == s.Keys && forall y | y in s ::
      && t[y].kind == s[y].kind && t[y].data == s[y].data
      && t[y].name == (if y == x then name else s[y].name)
      && t[y].children == LinksAfter(s[y].children, y == f, k, y == g, j, x)
  }

  function LinksAfter(links: map<string, Oid>, isFrom: bool, k: string, isTo: bool, j: string, x: Oid): map<string, Oid>
  {
    var rest := if isFrom then links - {k} else links;
    if isTo then rest[j := x] else rest
  }

  /** Neither folder lies in the item. */
  lemma TransferItem(r: Transfer)
    requires r.Ready()
    ensures r.Item() in r.s && r.s[r.Item()].parent == Some(r.f) && r.fold(r.s[r.Item()].name) == r.fold(r.oldName)
    ensures !Below(r.s, r.Item(), r.f) && !Below(r.s, r.Item(), r.g)
    ensures r.Item() != r.f && r.Item() != r.g
  {
    var k := r.fold(r.oldName);
    BelowBy(r.s, r.root, r.f, r.at);
    NoWayBack(r.s, r.fold, r.root, r.f, k);
    if Below(r.s, r.Item(), r.g) {
      var rest :| Walk(r.s, r.Item(), rest) == Some(r.g);
      WalkConcat(r.s, r.root, r.at, [k]);
      OneStep(r.s, r.f, k);
      WalkConcat(r.s, r.root, r.From(), rest);
      OnlyOneWay(r.s, r.fold, r.root, r.From() + rest, r.into, r.g);
    }
    BelowSelf(r.s, r.Item());
  }

  lemma RenameDiffers(s: Store, fold: Fold, f: Oid, oldName: string, newName: string)
    requires f in s && LinksAgree(s, fold, f) && Has(s, fold, f, oldName) && Child(s, fold, f, oldName) != f
    ensures Differs(s, RenameIn(s, fold, f, oldName, newName).1, f, fold(oldName), f, fold(newName),
                    Child(s, fold, f, oldName), newName)
  {
  }

  lemma MoveDiffers(s: Store, fold: Fold, f: Oid, name: string, g: Oid, newName: string)
    requires f in s && g in s && f != g && LinksAgree(s, fold, f) && Has(s, fold, f, name) && newName != ""
    requires Child(s, fold, f, name) != f && Child(s, fold, f, name) != g
    ensures Differs(s, MoveTo(s, fold, f, name, g, Some(newName)).1, f, fold(name), g, fold(newName),
                    Child(s, fold, f, name), newName)
  {
    var j, k, x := fold(newName), fold(name), Child(s, fold, f, name);
    var dropped := Drop(s, fold, g, newName);
    assert dropped[g].children[j := x] == s[g].children[j := x];
    assert MoveTo(s, fold, f, name, g, Some(newName)).1 == Put(Unlink(dropped, f, k), fold, g, newName, x);
    hide MoveTo, Drop;
    PutDiffers(s, dropped, fold, f, k, g, newName, x);
  }

  lemma PutDiffers(s: Store, dropped: Store, fold: Fold, f: Oid, k: string, g: Oid, newName: string, x: Oid)
    requires f in s && g in s && x in s && f != g && x != f && x != g && dropped.Keys == s.Keys
    requires dropped[g].children[fold(newName) := x] == s[g].children[fold(newName) := x]
    requires dropped[g].(children := s[g].children) == s[g]
    requires forall y | y in s && y != g :: dropped[y] == s[y]
    ensures Differs(s, Put(Unlink(dropped, f, k), fold, g, newName, x), f, k, g, fold(newName), x, newName)
  {
    var t := Put(Unlink(dropped, f, k), fold, g, newName, x);
    forall y | y in s
      ensures t[y].children == LinksAfter(s[y].children, y == f, k, y == g, fold(newName), x)
    {
    }
  }

  lemma TransferDiffers(r: Transfer)
    requires r.Ready()
    ensures Differs(r.s, r.After(), r.f, r.fold(r.oldName), r.g, r.fold(r.newName), r.Item(), r.newName)
  {
    TransferItem(r);
    if r.f == r.g {
      RenameDiffers(r.s, r.fold, r.f, r.oldName, r.newName);
    } else {
      MoveDiffers(r.s, r.fold, r.f, r.oldName, r.g, r.newName);
    }
  }

  lemma TransferKeepsTree(r: Transfer)
    requires r.Ready()
    ensures IsTree(r.After(), r.fold, r.root)
  {
    if r.f == r.g {
      RenameKeepsTree(r.s, r.fold, r.root, r.f, r.oldName, r.newName);
    } else {
      MoveKeepsTree(r.s, r.fold, r.root, r.f, r.oldName, r.g, Some(r.newName));
    }
  }

  // ---------- Where the keys lead afterwards ----------

  /** Walks that take neither the item's link nor the one replaced are as before, by the same names. */
  lemma {:induction false} SameAway(r: Transfer, x: Oid, keys: seq<string>)
    requires r.Ready() && x in r.s && Walk(r.s, x, keys).Some?
    requires Differs(r.s, r.After(), r.f, r.fold(r.oldName), r.g, r.fold(r.newName), r.Item(), r.newName)
    requires !Takes(r.s, x, keys, r.f, r.fold(r.oldName)) && !Takes(r.s, x, keys, r.g, r.fold(r.newName))
    ensures Walk(r.After(), x, keys) == Walk(r.s, x, keys)
    ensures Names(r.After(), x, keys) == Names(r.s, x, keys)
    decreases |keys|
  {
    if keys != [] {
      hide RenameIn, MoveTo, IsTree, Below, Differs;
      hide Transfer.Ready;
      var next := r.s[x].children[keys[0]];
      SameLink(r, x, keys[0]);
      SameAway(r, next, keys[1..]);
    }
  }

  lemma SameLink(r: Transfer, x: Oid, k: string)
    requires r.Ready() && x in r.s && k in r.s[x].children
    requires Differs(r.s, r.After(), r.f, r.fold(r.oldName), r.g, r.fold(r.newName), r.Item(), r.newName)
    requires !(x == r.f && k == r.fold(r.oldName)) && !(x == r.g && k == r.fold(r.newName))
    ensures x in r.After() && k in r.After()[x].children
    ensures var next := r.s[x].children[k];
            && r.After()[x].children[k] == next && next in r.s && next in r.After()
            && r.After()[next].name == r.s[next].name
  {
    hide RenameIn, MoveTo, IsTree, Below, LinksAgree;
    hide Transfer.Ready;
    NotTheItem(r, x, k);
  }

  lemma NotTheItem(r: Transfer, x: Oid, k: string)
    requires r.Ready() && x in r.s && k in r.s[x].children && !(x == r.f && k == r.fold(r.oldName))
    ensures r.s[x].children[k] in r.s && r.s[x].children[k] != r.Item()
  {
    TreeLinks(r.s, r.fold, r.root, x);
    TransferItem(r);
    hide IsTree, Below;
  }

  lemma TreeLinks(s: Store, fold: Fold, root: Oid, x: Oid)
    requires IsTree(s, fold, root) && x in s
    ensures LinksAgree(s, fold, x)
  {
  }

  /** Below the item nothing changes. */
  lemma SameBelowItem(r: Transfer, rest: seq<string>)
    requires r.Ready() && Walk(r.s, r.Item(), rest).Some?
    ensures Walk(r.After(), r.Item(), rest) == Walk(r.s, r.Item(), rest)
    ensures Names(r.After(), r.Item(), rest) == Names(r.s, r.Item(), rest)
  {
    hide RenameIn, MoveTo, IsTree, Below, Takes, Differs;
    TransferItem(r);
    TransferDiffers(r);
    TakesBelow(r.s, r.Item(), rest, r.f, r.fold(r.oldName));
    TakesBelow(r.s, r.Item(), rest, r.g, r.fold(r.newName));
    SameAway(r, r.Item(), rest);
  }

  /** So it is for keys from the root that go neither through the item nor through what is replaced. */
  lemma SameElsewhere(r: Transfer, keys: seq<string>)
    requires r.Ready() && Walk(r.s, r.root, keys).Some? && !(r.From() <= keys) && !(r.To() <= keys)
    ensures Walk(r.After(), r.root, keys) == Walk(r.s, r.root, keys)
    ensures Names(r.After(), r.root, keys) == Names(r.s, r.root, keys)
  {
    hide RenameIn, MoveTo, Takes, Differs, Names;
    TransferDiffers(r);
    assert [] + keys == keys;
    TakesFromRoot(r.s, r.fold, r.root, [], r.root, keys, r.at, r.f, r.fold(r.oldName));
    TakesFromRoot(r.s, r.fold, r.root, [], r.root, keys, r.into, r.g, r.fold(r.newName));
    SameAway(r, r.root, keys);
  }

  lemma StoreKeeps(r: Transfer)
    requires r.Ready()
    ensures r.After().Keys == r.s.Keys && r.root in r.s
    ensures forall y | y in r.s :: r.After()[y].kind == r.s[y].kind && r.After()[y].data == r.s[y].data
    ensures r.fold(r.newName) in r.After()[r.g].children
    ensures r.After()[r.g].children[r.fold(r.newName)] == r.Item()
    ensures r.After()[r.Item()].name == r.newName
  {
    TransferItem(r);
    TransferDiffers(r);
    hide RenameIn, MoveTo;
  }

  /** The keys of the item, before and after, and the names on the way. */
  lemma ItemPlaces(r: Transfer)
    requires r.Ready()
    ensures Walk(r.s, r.root, r.From()) == Some(r.Item()) && Walk(r.After(), r.root, r.To()) == Some(r.Item())
    ensures Names(r.s, r.root, r.From()) == Names(r.s, r.root, r.at) + [r.s[r.Item()].name]
    ensures Names(r.After(), r.root, r.To()) == Names(r.s, r.root, r.into) + [r.newName]
  {
    hide RenameIn, MoveTo, IsTree;
    TransferItem(r);
    StoreKeeps(r);
    NotItsOwnPrefix(r.into, r.fold(r.newName));
    SameElsewhere(r, r.into);
    WalkConcat(r.s, r.root, r.at, [r.fold(r.oldName)]);
    OneStep(r.s, r.f, r.fold(r.oldName));
    NamesSnoc(r.s, r.root, r.at, r.fold(r.oldName));
    WalkConcat(r.After(), r.root, r.into, [r.fold(r.newName)]);
    OneStep(r.After(), r.g, r.fold(r.newName));
    NamesSnoc(r.After(), r.root, r.into, r.fold(r.newName));
  }

  lemma NotItsOwnPrefix(a: seq<string>, k: string)
    ensures !(a + [k] <= a)
  {
  }

  /** The names on the way of the item, before and after. */
  ghost function OldNames(r: Transfer): seq<string>
    requires r.Ready()
  {
    ItemPlaces(r);
    Names(r.s, r.root, r.From())
  }

  ghost function NewNames(r: Transfer): seq<string>
    requires r.Ready()
  {
    ItemPlaces(r);
    Names(r.After(), r.root, r.To())
  }

  /** What was under the item is under it afterwards, by the new names of the item and the names below it. */
  lemma ForwardUnder(r: Transfer, rest: seq<string>)
    requires r.Ready() && Walk(r.s, r.root, r.From() + rest).Some?
    ensures Walk(r.After(), r.root, r.To() + rest) == Walk(r.s, r.root, r.From() + rest)
    ensures Walk(r.s, r.Item(), rest) == Walk(r.s, r.root, r.From() + rest)
    ensures Names(r.s, r.root, r.From() + rest) == OldNames(r) + Names(r.s, r.Item(), rest)
    ensures Names(r.After(), r.root, r.To() + rest) == NewNames(r) + Names(r.s, r.Item(), rest)
  {
    hide *;
    hide Transfer.Ready;
    ItemPlaces(r);
    WalkConcat(r.s, r.root, r.From(), rest);
    WalkConcat(r.After(), r.root, r.To(), rest);
    SameBelowItem(r, rest);
    NamesConcat(r.s, r.root, r.From(), rest);
    NamesConcat(r.After(), r.root, r.To(), rest);
    OldAndNew(r);
  }

  lemma OldAndNew(r: Transfer)
    requires r.Ready()
    ensures Walk(r.s, r.root, r.From()).Some? && OldNames(r) == Names(r.s, r.root, r.From())
    ensures Walk(r.After(), r.root, r.To()).Some? && NewNames(r) == Names(r.After(), r.root, r.To())
  {
    hide Names, Walk, RenameIn, MoveTo;
    ItemPlaces(r);
  }

  /** After the transfer the shifted keys lead to the same object, unless it is lost. */
  lemma Forward(r: Transfer, keys: seq<string>)
    requires r.Ready() && Walk(r.s, r.root, keys).Some? && !r.Loses(keys)
    ensures Walk(r.After(), r.root, r.Shifted(keys)) == Walk(r.s, r.root, keys)
    ensures !(r.From() <= keys) ==> Names(r.After(), r.root, keys) == Names(r.s, r.root, keys)
  {
    hide Walk, Names, RenameIn, MoveTo, IsTree;
    if r.From() <= keys {
      var rest := keys[|r.From()|..];
      assert keys == r.From() + rest;
      ForwardUnder(r, rest);
    } else {
      SameElsewhere(r, keys);
    }
  }

  /** Whatever keys lead to after the transfer, other keys led to before; shifted, they are these. */
  lemma Backward(r: Transfer, keys: seq<string>) returns (before: seq<string>)
    requires r.Ready() && Walk(r.After(), r.root, keys).Some?
    ensures Walk(r.s, r.root, before) == Walk(r.After(), r.root, keys)
    ensures r.Shifted(before) == keys && !r.Loses(before)
  {
    var y := Walk(r.After(), r.root, keys).value;
    BelowBy(r.After(), r.root, y, keys);
    before := WasAttached(r, y);
    TransferKeepsTree(r);
    hide Walk, Names, RenameIn, MoveTo, IsTree;
    Forward(r, before);
    OnlyOneWay(r.After(), r.fold, r.root, keys, r.Shifted(before), y);
  }

  /** What is attached afterwards was attached before, and not in the entry replaced. */
  lemma WasAttached(r: Transfer, y: Oid) returns (before: seq<string>)
    requires r.Ready() && Attached(r.After(), r.root, y)
    ensures Walk(r.s, r.root, before) == Some(y) && !r.Loses(before)
  {
    BelowBy(r.s, r.root, r.f, r.at);
    BelowBy(r.s, r.root, r.g, r.into);
    TransferItem(r);
    ItemPlaces(r);
    hide RenameIn, MoveTo, IsTree, Names;
    if r.f == r.g {
      RenameLoses(r.s, r.fold, r.root, r.f, r.oldName, r.newName, y);
    } else {
      MoveLosesReplaced(r.s, r.fold, r.root, r.f, r.oldName, r.g, Some(r.newName), y);
      if InEntry(r.s, r.fold, r.f, r.oldName, y) {
        var rest :| Walk(r.s, r.Item(), rest) == Some(y);
        WalkConcat(r.s, r.root, r.From(), rest);
        return r.From() + rest;
      }
    }
    before :| Walk(r.s, r.root, before) == Some(y);
    if r.Loses(before) {
      LostIsReplaced(r, before, y);
    }
  }

  lemma LostIsReplaced(r: Transfer, keys: seq<string>, y: Oid)
    requires r.Ready() && Walk(r.s, r.root, keys) == Some(y) && r.Loses(keys)
    ensures InEntry(r.s, r.fold, r.g, r.newName, y)
    ensures r.f == r.g ==> r.fold(r.newName) != r.fold(r.oldName)
  {
    var rest := keys[|r.To()|..];
    var j := r.fold(r.newName);
    assert keys == r.into + ([j] + rest);
    WalkConcat(r.s, r.root, r.into, [j] + rest);
    assert ([j] + rest)[0] == j && ([j] + rest)[1..] == rest;
    BelowBy(r.s, r.s[r.g].children[j], y, rest);
    if r.f == r.g {
      OnlyOneWay(r.s, r.fold, r.root, r.at, r.into, r.f);
    }
  }

  // ---------- Renaming back ----------

  /** What RenameIn makes of each object. */
  lemma RenamedParts(s: Store, fold: Fold, f: Oid, oldName: string, newName: string)
    requires f in s && LinksAgree(s, fold, f) && Has(s, fold, f, oldName) && Child(s, fold, f, oldName) != f
    ensures var t, x := RenameIn(s, fold, f, oldName, newName).1, Child(s, fold, f, oldName);
            && t.Keys == s.Keys
            && t[f] == s[f].(children := LinksAfter(s[f].children, true, fold(oldName), true, fold(newName), x))
            && t[x] == s[x].(name := newName)
            && forall y | y in s && y != f && y != x :: t[y] == s[y]
  {
  }

  /** Renaming onto an unused key, and back, restores the store. */
  lemma RenamingBackRestores(s: Store, fold: Fold, root: Oid, f: Oid, oldName: string, newName: string)
    requires IsTree(s, fold, root) && f in s && LinksAgree(s, fold, f) && Attached(s, root, f)
    requires Has(s, fold, f, oldName) && (fold(newName) == fold(oldName) || !Has(s, fold, f, newName))
    ensures var t := RenameIn(s, fold, f, oldName, newName).1;
            && f in t && LinksAgree(t, fold, f)
            && RenameIn(t, fold, f, newName, s[Child(s, fold, f, oldName)].name) == (Done, s)
  {
    var t, x := RenameIn(s, fold, f, oldName, newName).1, Child(s, fold, f, oldName);
    NotInOwnEntry(s, fold, root, f, oldName);
    BelowSelf(s, x);
    RenameKeepsTree(s, fold, root, f, oldName, newName);
    RenamedParts(s, fold, f, oldName, newName);
    TreeLinks(t, fold, root, f);
    TreeLinks(s, fold, root, f);
    hide RenameIn, IsTree, Below, InEntry;
    assert fold(s[x].name) == fold(oldName);
    RenamedParts(t, fold, f, newName, s[x].name);
    RenameIsDone(t, fold, f, newName, s[x].name);
    LinksBack(s[f].children, fold(oldName), fold(newName), x);
    hide LinksAgree, LinksAfter;
    SamePieces(s, t, RenameIn(t, fold, f, newName, s[x].name).1, f, x);
  }

  lemma LinksBack(links: map<string, Oid>, k: string, j: string, x: Oid)
    requires k in links && links[k] == x && (j == k || j !in links)
    ensures LinksAfter(LinksAfter(links, true, k, true, j, x), true, j, true, k, x) == links
  {
  }

  lemma SamePieces(s: Store, t: Store, u: Store, f: Oid, x: Oid)
    requires f in s && x in s && f != x && t.Keys == s.Keys && u.Keys == s.Keys
    requires t[f].(children := s[f].children) == s[f] && u[f] == t[f].(children := s[f].children)
    requires t[x].(name := s[x].name) == s[x] && u[x] == t[x].(name := s[x].name)
    requires forall y | y in s && y != f && y != x :: t[y] == s[y]
    requires forall y | y in s && y != f && y != x :: u[y] == t[y]
    ensures u == s
  {
    assert forall y | y in s :: u[y] == s[y];
  }

  lemma RenameIsDone(s: Store, fold: Fold, f: Oid, oldName: string, newName: string)
    requires f in s && LinksAgree(s, fold, f)
    ensures RenameIn(s, fold, f, oldName, newName).0 == if Has(s, fold, f, oldName) then Done else KeyError
  {
  }
}
