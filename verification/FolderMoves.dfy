/** Moving an entry together with its keys: the keys of what it replaces are removed, then its own renamed. */
module FolderMoves {
  import opened Options
  import opened FolderTree
  import opened ContentFolders
  import opened FolderPaths
  import opened FolderKeys
  import opened FolderRuns
  import opened FolderTransfer
  import opened FolderMirror

  /** `remove_key`: a folder key takes everything under it along. */
  function RemoveKey(b: Bucket, key: string): Bucket
  {
    map k | k in b && !Along(k, key) :: b[k]
  }

  /** The key of one object goes along with that of another exactly if the object lies at or below the other. */
  lemma KeyUnderIff(s: Store, fold: Fold, root: Oid, a: seq<string>, x: Oid, keys: seq<string>, y: Oid)
    requires IsTree(s, fold, root) && ValidNames(s, root) && LeadsTo(s, root, a, x) && LeadsTo(s, root, keys, y)
    ensures Along(KeyOf(s, root, keys), KeyOf(s, root, a)) <==> a <= keys
  {
    var m, n, own, container := Names(s, root, a), Names(s, root, keys), IsContainer(s, x), IsContainer(s, y);
    KeyIsText(s, root, a, x);
    KeyIsText(s, root, keys, y);
    RootIsThere(s, fold, root);
    NamesGiveKeys(s, fold, root, root, a);
    NamesGiveKeys(s, fold, root, root, keys);
    hide IsTree, KeyOf, KeyText, AllValid, Join, ValidNames;
    TellsContainer(m, own);
    if a <= keys {
      var rest := keys[|a|..];
      assert keys == a + rest;
      BelowObject(s, fold, root, a, x, rest);
      hide Walk, Names;
      if rest == [] {
        assert keys == a;
      } else {
        TextUnder(m, Names(s, x, rest), container);
      }
    } else {
      hide Walk, Names;
      SameKeys(fold, m, a, n, keys);
      TextsUnrelated(m, n, own, container);
    }
  }

  lemma TellsContainer(names: seq<string>, container: bool)
    requires names != [] && AllValid(names)
    ensures EndsInSlash(KeyText(names, container)) <==> container
  {
    LastTells(names, container);
  }

  lemma BelowObject(s: Store, fold: Fold, root: Oid, a: seq<string>, x: Oid, rest: seq<string>)
    requires IsTree(s, fold, root) && Walk(s, root, a) == Some(x) && x in s && Walk(s, root, a + rest).Some?
    ensures Walk(s, x, rest) == Walk(s, root, a + rest)
    ensures Names(s, root, a + rest) == Names(s, root, a) + Names(s, x, rest)
    ensures !IsContainer(s, x) ==> rest == []
  {
    WalkConcat(s, root, a, rest);
    NamesConcat(s, root, a, rest);
    TreeLinks(s, fold, root, x);
  }

  // ---------- Dropping an entry and removing its keys ----------

  /** With a link removed, the walks that remain meet the same names. */
  lemma {:induction false} NamesAfterUnlink(s: Store, p: Oid, k: string, x: Oid, keys: seq<string>)
    requires p in s && k in s[p].children && Walk(Unlink(s, p, k), x, keys).Some?
    ensures Walk(s, x, keys) == Walk(Unlink(s, p, k), x, keys)
    ensures Names(s, x, keys) == Names(Unlink(s, p, k), x, keys)
    ensures !Takes(s, x, keys, p, k)
    decreases |keys|
  {
    if keys != [] {
      NamesAfterUnlink(s, p, k, s[x].children[keys[0]], keys[1..]);
    }
  }

  lemma {:induction false} WalkPastUnlink(s: Store, p: Oid, k: string, x: Oid, keys: seq<string>)
    requires p in s && k in s[p].children && Walk(s, x, keys).Some? && !Takes(s, x, keys, p, k)
    ensures Walk(Unlink(s, p, k), x, keys) == Walk(s, x, keys)
    decreases |keys|
  {
    if keys != [] {
      WalkPastUnlink(s, p, k, s[x].children[keys[0]], keys[1..]);
    }
  }

  /** A walk from the root takes a link exactly if its keys begin with those of the link. */
  lemma {:induction false} TakesLink(s: Store, x: Oid, way: seq<string>, p: Oid, k: string, keys: seq<string>)
    requires Walk(s, x, way) == Some(p) && way + [k] <= keys && Walk(s, x, keys).Some?
    ensures Takes(s, x, keys, p, k)
    decreases |way|
  {
    if way == [] {
      assert keys[0] == k;
    } else {
      assert keys[0] == (way + [k])[0] == way[0];
      assert (way + [k])[1..] == way[1..] + [k];
      TakesLink(s, s[x].children[way[0]], way[1..], p, k, keys[1..]);
    }
  }

  /** What the keys lead to once an entry is dropped. */
  lemma LeadsAfterDrop(s: Store, fold: Fold, root: Oid, g: Oid, into: seq<string>, name: string, keys: seq<string>,
                       x: Oid)
    requires IsTree(s, fold, root) && g in s && Walk(s, root, into) == Some(g) && Has(s, fold, g, name)
    ensures var t := Drop(s, fold, g, name);
            && (LeadsTo(t, root, keys, x) <==> LeadsTo(s, root, keys, x) && !(into + [fold(name)] <= keys))
            && (LeadsTo(t, root, keys, x) ==>
                  KeyOf(t, root, keys) == KeyOf(s, root, keys) && Names(t, root, keys) == Names(s, root, keys))
  {
    var t, k := Drop(s, fold, g, name), fold(name);
    assert t == Unlink(s, g, k);
    assert forall y | y in s :: t[y].kind == s[y].kind;
    assert [] + keys == keys;
    TakesFromRoot(s, fold, root, [], root, keys, into, g, k);
    if Walk(t, root, keys).Some? {
      NamesAfterUnlink(s, g, k, root, keys);
      if into + [k] <= keys {
        TakesLink(s, root, into, g, k, keys);
      }
    }
    if Walk(s, root, keys).Some? && !(into + [k] <= keys) {
      WalkPastUnlink(s, g, k, root, keys);
    }
    hide Takes, IsTree, Join;
  }

  /** Dropping an entry and removing its key: the bucket mirrors the tree as before. */
  lemma DropKeepsMirror(s: Store, fold: Fold, root: Oid, g: Oid, into: seq<string>, name: string, b: Bucket)
    requires IsTree(s, fold, root) && ValidNames(s, root) && Mirrors(s, root, b)
    requires g in s && Walk(s, root, into) == Some(g) && Has(s, fold, g, name)
    ensures LeadsTo(s, root, into + [fold(name)], Child(s, fold, g, name))
    ensures var t := Drop(s, fold, g, name);
            && IsTree(t, fold, root) && ValidNames(t, root)
            && Mirrors(t, root, RemoveKey(b, KeyOf(s, root, into + [fold(name)])))
  {
    var t, way, lost := Drop(s, fold, g, name), into + [fold(name)], Child(s, fold, g, name);
    DropKeepsTree(s, fold, root, g, name);
    WalkConcat(s, root, into, [fold(name)]);
    OneStep(s, g, fold(name));
    TreeLinks(s, fold, root, g);
    var key := KeyOf(s, root, way);
    assert forall y | y in s :: t[y].data == s[y].data;
    hide Walk, Names, Drop, IsTree, KeyOf, Along;
    forall keys, x | LeadsTo(t, root, keys, x)
      ensures KeyOf(t, root, keys) in RemoveKey(b, key) && RemoveKey(b, key)[KeyOf(t, root, keys)] == t[x].data
      ensures AllValid(Names(t, root, keys))
    {
      LeadsAfterDrop(s, fold, root, g, into, name, keys, x);
      KeyUnderIff(s, fold, root, way, lost, keys, x);
    }
    forall n | n in RemoveKey(b, key)
      ensures exists keys, x :: LeadsTo(t, root, keys, x) && KeyOf(t, root, keys) == n
    {
      var keys, x :| LeadsTo(s, root, keys, x) && KeyOf(s, root, keys) == n;
      LeadsAfterDrop(s, fold, root, g, into, name, keys, x);
      KeyUnderIff(s, fold, root, way, lost, keys, x);
    }
  }

  // ---------- Moving with keys ----------

  /** A move to another folder, in which the name is used. */
  ghost predicate MovesOnto(r: Transfer)
  {
    ToMirror(r) && r.f != r.g && Has(r.s, r.fold, r.g, r.newName)
  }

  /** What is left of the bucket once the key of what is replaced has been removed. */
  ghost function WithoutReplaced(r: Transfer, b: Bucket): Bucket
    requires MovesOnto(r)
  {
    ReplacedPlace(r);
    RemoveKey(b, KeyOf(r.s, r.root, r.To()))
  }

  lemma ReplacedPlace(r: Transfer)
    requires r.Ready() && Has(r.s, r.fold, r.g, r.newName)
    ensures LeadsTo(r.s, r.root, r.To(), Child(r.s, r.fold, r.g, r.newName))
  {
    WalkConcat(r.s, r.root, r.into, [r.fold(r.newName)]);
    OneStep(r.s, r.g, r.fold(r.newName));
    TreeLinks(r.s, r.fold, r.root, r.g);
  }

  /** The move, after the entry in its way has been dropped. */
  ghost function AfterDrop(r: Transfer): Transfer
    requires r.g in r.s
  {
    r.(s := Drop(r.s, r.fold, r.g, r.newName))
  }

  lemma DroppedIsReady(r: Transfer)
    requires MovesOnto(r) && !(r.To() <= r.at)
    ensures var q := AfterDrop(r);
            && q.Ready() && q.Item() == r.Item() && q.After() == r.After() && !Has(q.s, q.fold, q.g, q.newName)
            && OldNames(q) == OldNames(r) && OldKey(q) == OldKey(r) && NewKey(q) == NewKey(r)
  {
    var q := AfterDrop(r);
    DropKeepsTree(r.s, r.fold, r.root, r.g, r.newName);
    StillLeads(r, r.at, r.f);
    NotItsOwnPrefix(r.into, r.fold(r.newName));
    StillLeads(r, r.into, r.g);
    assert q.s[r.g].kind == r.s[r.g].kind && Has(q.s, q.fold, q.f, q.oldName) && q.Item() == r.Item();
    TreeLinks(q.s, q.fold, q.root, q.f);
    assert q.Ready();
    assert q.After() == r.After() by {
      assert Drop(q.s, q.fold, q.g, q.newName) == q.s;
    }
    KeysOfItem(r);
    ItemPlaces(r);
    FromNotUnderTo(r);
    LeadsAfterDrop(r.s, r.fold, r.root, r.g, r.into, r.newName, r.From(), r.Item());
  }

  /** The item does not take the place of what it replaces before the move. */
  lemma FromNotUnderTo(r: Transfer)
    requires r.Ready() && r.f != r.g && !(r.To() <= r.at)
    ensures !(r.To() <= r.From())
  {
    SnocPrefix(r.into, r.fold(r.newName), r.at, r.fold(r.oldName));
  }

  lemma SnocPrefix(a: seq<string>, k: string, b: seq<string>, j: string)
    ensures a + [k] <= b + [j] ==> a + [k] <= b || a == b
  {
    if a + [k] <= b + [j] {
      assert a + [k] == (b + [j])[..|a| + 1];
      if |a| < |b| {
        assert (b + [j])[..|a| + 1] == b[..|a| + 1];
      } else {
        assert a == (a + [k])[..|a|] == (b + [j])[..|b|] == b;
      }
    }
  }

  lemma StillLeads(r: Transfer, keys: seq<string>, x: Oid)
    requires r.Ready() && Has(r.s, r.fold, r.g, r.newName) && Walk(r.s, r.root, keys) == Some(x)
    requires !(r.To() <= keys)
    ensures Walk(Drop(r.s, r.fold, r.g, r.newName), r.root, keys) == Some(x)
  {
    assert [] + keys == keys;
    TakesFromRoot(r.s, r.fold, r.root, [], r.root, keys, r.into, r.g, r.fold(r.newName));
    WalkPastUnlink(r.s, r.g, r.fold(r.newName), r.root, keys);
  }

  /** If the folder moved out of lies in what is replaced, the item's own keys are removed before they can be
      renamed, and no key of the bucket is the item's afterwards. */
  lemma KeysAreGone(r: Transfer, b: Bucket)
    requires MovesOnto(r) && Mirrors(r.s, r.root, b) && r.To() <= r.at
    ensures OldKey(r) !in WithoutReplaced(r, b) && NewKey(r) !in WithoutReplaced(r, b)
  {
    var lost := Child(r.s, r.fold, r.g, r.newName);
    ReplacedPlace(r);
    KeysOfItem(r);
    hide Walk, RenameIn, MoveTo, KeyText, Join, AllValid, Along;
    KeyUnderIff(r.s, r.fold, r.root, r.To(), lost, r.From(), r.Item());
    assert r.To() <= r.From();
    var key := NewKey(r);
    if key in WithoutReplaced(r, b) {
      var keys, x :| LeadsTo(r.s, r.root, keys, x) && KeyOf(r.s, r.root, keys) == key;
      KeyUnderIff(r.s, r.fold, r.root, r.To(), lost, keys, x);
      ItemNames(r);
      KeyIsText(r.s, r.root, keys, x);
      KeysDiffer(NewNames(r), Names(r.s, r.root, keys), IsContainer(r.s, r.Item()), IsContainer(r.s, x));
      NamesUnder(r, keys, x);
    }
  }

  /** Dropping what is in the way changes neither of the passed keys. */
  lemma SamePassed(r: Transfer)
    requires MovesOnto(r) && !(r.To() <= r.at)
    ensures var q := AfterDrop(r);
            && q.Ready() && q.Item() == r.Item() && r.Item() in r.s && r.Item() in q.s
            && (SpelledAlike(q) <==> SpelledAlike(r))
            && SourceKey(q) == SourceKey(r) && TargetKey(q) == TargetKey(r)
  {
    hide *;
    hide Transfer.Ready;
    MoveParts(r);
    DroppedIsReady(r);
    DropFields(r);
    ItemAfterDrop(r);
    PassedTexts(r);
    PassedTexts(AfterDrop(r));
    SameNamesAbove(r);
  }

  lemma DropFields(r: Transfer)
    requires r.g in r.s
    ensures var q := AfterDrop(r);
            && q.s == Drop(r.s, r.fold, r.g, r.newName) && q.fold == r.fold && q.root == r.root
            && q.f == r.f && q.at == r.at && q.oldName == r.oldName
            && q.g == r.g && q.into == r.into && q.newName == r.newName
            && q.From() == r.From() && q.To() == r.To()
  {
  }

  lemma ItemAfterDrop(r: Transfer)
    requires MovesOnto(r) && AfterDrop(r).Ready() && AfterDrop(r).Item() == r.Item()
    ensures var q := AfterDrop(r);
            && r.Item() in r.s && r.Item() in q.s && IsContainer(q.s, r.Item()) == IsContainer(r.s, r.Item())
            && (SpelledAlike(q) <==> SpelledAlike(r))
  {
    hide RenameIn, MoveTo, IsTree, Walk;
    TransferItem(r);
    TransferItem(AfterDrop(r));
  }

  lemma SameNamesAbove(r: Transfer)
    requires MovesOnto(r) && !(r.To() <= r.at) && AfterDrop(r).Ready()
    ensures Walk(AfterDrop(r).s, r.root, r.at) == Walk(r.s, r.root, r.at) == Some(r.f)
    ensures Names(AfterDrop(r).s, r.root, r.at) == Names(r.s, r.root, r.at)
  {
    hide RenameIn, MoveTo, IsTree, KeyOf;
    if r.at == [] {
    } else {
      LeadsAfterDrop(r.s, r.fold, r.root, r.g, r.into, r.newName, r.at, r.f);
    }
  }

  /** Moving an entry onto a used name, removing the key of what is there, and renaming the item's key: the
      bucket mirrors the tree afterwards if and only if the item was not moved out of what it replaces, and the
      caller spelled its name as the item's. */
  lemma MoveMirrorsIff(r: Transfer, b: Bucket, after: Bucket)
    requires MovesOnto(r) && Mirrors(r.s, r.root, b) && ValidId(r.oldName)
    requires Rekeyed(WithoutReplaced(r, b), after, SourceKey(r), TargetKey(r))
    ensures r.Item() in r.s && IsTree(r.After(), r.fold, r.root)
    ensures Mirrors(r.After(), r.root, after)
            <==> !InEntry(r.s, r.fold, r.g, r.newName, r.f) && SpelledAlike(r)
  {
    hide *;
    hide Transfer.Ready;
    MoveParts(r);
    TransferKeepsTree(r);
    InReplaced(r);
    if r.To() <= r.at {
      AllGone(r, b, after);
    } else {
      DroppedMirror(r, b);
      DropFields(r);
      SamePassed(r);
      DroppedIsReady(r);
      TransferKeepsMirror(AfterDrop(r), WithoutReplaced(r, b), after);
    }
  }

  lemma MoveParts(r: Transfer)
    requires MovesOnto(r)
    ensures ToMirror(r) && r.f != r.g && Has(r.s, r.fold, r.g, r.newName) && r.Ready() && r.Item() in r.s
    ensures r.g in r.s && Walk(r.s, r.root, r.into) == Some(r.g)
    ensures ValidNames(r.s, r.root) && IsTree(r.s, r.fold, r.root)
  {
    hide RenameIn, MoveTo, IsTree, Walk;
    TransferItem(r);
  }

  /** The dropped entry's keys removed, the bucket mirrors the tree without it. */
  lemma DroppedMirror(r: Transfer, b: Bucket)
    requires MovesOnto(r) && Mirrors(r.s, r.root, b) && !(r.To() <= r.at)
    ensures ToMirror(AfterDrop(r)) && Mirrors(AfterDrop(r).s, r.root, WithoutReplaced(r, b))
    ensures AfterDrop(r).Ready() && !Has(AfterDrop(r).s, r.fold, r.g, r.newName)
  {
    DropKeepsMirror(r.s, r.fold, r.root, r.g, r.into, r.newName, b);
    DroppedIsReady(r);
    hide Walk, Names, RenameIn, MoveTo, IsTree, KeyOf, Mirrors, ValidNames;
  }

  /** Moved out of what it replaces, the item has no key any more. */
  lemma AllGone(r: Transfer, b: Bucket, after: Bucket)
    requires MovesOnto(r) && Mirrors(r.s, r.root, b) && ValidId(r.oldName) && r.To() <= r.at
    requires Rekeyed(WithoutReplaced(r, b), after, SourceKey(r), TargetKey(r))
    ensures !Mirrors(r.After(), r.root, after)
  {
    hide RenameIn, MoveTo, Walk, Names, KeyOf, IsTree, Join, ValidNames, OldKey, SourceKey, TargetKey, Along,
         KeyRenamed;
    KeysAreGone(r, b);
    SourceFound(r, b);
    KeysOfItem(r);
    assert LeadsTo(r.After(), r.root, r.To(), r.Item());
  }

  lemma InReplaced(r: Transfer)
    requires r.Ready() && Has(r.s, r.fold, r.g, r.newName)
    ensures InEntry(r.s, r.fold, r.g, r.newName, r.f) <==> r.To() <= r.at
  {
    var lost := Child(r.s, r.fold, r.g, r.newName);
    ReplacedPlace(r);
    if InEntry(r.s, r.fold, r.g, r.newName, r.f) {
      var rest :| Walk(r.s, lost, rest) == Some(r.f);
      WalkConcat(r.s, r.root, r.To(), rest);
      OnlyOneWay(r.s, r.fold, r.root, r.To() + rest, r.at, r.f);
    }
    if r.To() <= r.at {
      var rest := r.at[|r.To()|..];
      assert r.at == r.To() + rest;
      WalkConcat(r.s, r.root, r.To(), rest);
      BelowBy(r.s, lost, r.f, rest);
    }
  }
}
