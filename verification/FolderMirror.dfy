/** Renaming or moving in the folders and renaming in the bucket that mirrors them agree. */
module FolderMirror {
  import opened Options
  import opened FolderTree
  import opened ContentFolders
  import opened FolderPaths
  import opened FolderKeys
  import opened FolderTransfer

  /** Keys that lead from the root to an object other than the root. */
  ghost predicate LeadsTo(s: Store, root: Oid, keys: seq<string>, x: Oid)
  {
    keys != [] && Walk(s, root, keys) == Some(x) && x in s
  }

  ghost predicate ValidNames(s: Store, root: Oid)
  {
    forall keys, x | LeadsTo(s, root, keys, x) :: AllValid(Names(s, root, keys))
  }

  /** The bucket has exactly the keys of the attached objects, with their data. */
  ghost predicate Mirrors(s: Store, root: Oid, b: Bucket)
  {
    && (forall keys, x | LeadsTo(s, root, keys, x) ::
          KeyOf(s, root, keys) in b && b[KeyOf(s, root, keys)] == s[x].data)
    && (forall k | k in b :: exists keys, x :: LeadsTo(s, root, keys, x) && KeyOf(s, root, keys) == k)
  }

  /** No two attached objects share a key. */
  lemma KeysAreUnique(s: Store, fold: Fold, root: Oid, a: seq<string>, x: Oid, b: seq<string>, y: Oid)
    requires IsTree(s, fold, root) && ValidNames(s, root)
    requires LeadsTo(s, root, a, x) && LeadsTo(s, root, b, y) && KeyOf(s, root, a) == KeyOf(s, root, b)
    ensures a == b && x == y
  {
    KeysDiffer(Names(s, root, a), Names(s, root, b), IsContainer(s, x), IsContainer(s, y));
    NamesGiveKeys(s, fold, root, root, a);
    NamesGiveKeys(s, fold, root, root, b);
    assert a == b;
  }

  // ---------- Texts of keys ----------

  function KeyText(names: seq<string>, container: bool): string
  {
    Join(names) + Closing(container)
  }

  /** The key of something in a folder is the folder's key and a rest that only depends on the names below
      the folder. */
  lemma TextUnder(a: seq<string>, b: seq<string>, container: bool)
    requires a != []
    ensures b != [] ==> KeyText(a + b, container) == KeyText(a, true) + KeyText(b, container)
  {
    if b != [] {
      JoinConcat(a, b);
    }
  }

  lemma TextPrefix(a: seq<string>, b: seq<string>, container: bool)
    requires a != [] && b != [] && AllValid(a) && AllValid(b)
    ensures KeyText(a, true) <= KeyText(b, container) ==> a <= b
  {
    if KeyText(a, true) <= KeyText(b, container) {
      var tail := KeyText(b, container)[|KeyText(a, true)|..];
      assert Join(a) + ("/" + tail) == KeyText(a, true) + tail;
      KeyPrefix(a, b, container, tail);
    }
  }

  // ---------- Names and keys of the item ----------

  /** A transfer to a valid name, that changes where the item is or its name, in a tree of valid names. */
  ghost predicate ToMirror(r: Transfer)
  {
    && r.Ready() && ValidNames(r.s, r.root) && ValidId(r.newName)
    && !(r.f == r.g && r.s[r.Item()].name == r.newName)
  }

  ghost function OldKey(r: Transfer): string
    requires r.Ready()
  {
    KeysOfItem(r);
    KeyOf(r.s, r.root, r.From())
  }

  ghost function NewKey(r: Transfer): string
    requires r.Ready()
  {
    KeysOfItem(r);
    KeyOf(r.After(), r.root, r.To())
  }

  lemma KeysOfItem(r: Transfer)
    requires r.Ready()
    ensures LeadsTo(r.s, r.root, r.From(), r.Item()) && LeadsTo(r.After(), r.root, r.To(), r.Item())
    ensures IsContainer(r.After(), r.Item()) == IsContainer(r.s, r.Item())
  {
    hide RenameIn, MoveTo, IsTree, Names, Walk;
    ItemPlaces(r);
    TransferItem(r);
    StoreKeeps(r);
  }

  lemma FolderNamesValid(s: Store, fold: Fold, root: Oid, keys: seq<string>, x: Oid)
    requires ValidNames(s, root) && Walk(s, root, keys) == Some(x) && x in s
    ensures AllValid(Names(s, root, keys))
  {
    if keys != [] {
      assert LeadsTo(s, root, keys, x);
    }
  }

  /** The names and keys of the item before and after the transfer. */
  lemma ItemNames(r: Transfer)
    requires ToMirror(r)
    ensures |OldNames(r)| == |r.From()| && |NewNames(r)| == |r.To()| && OldNames(r) != NewNames(r)
    ensures AllValid(OldNames(r)) && AllValid(NewNames(r))
    ensures OldKey(r) == KeyText(OldNames(r), IsContainer(r.s, r.Item()))
    ensures NewKey(r) == KeyText(NewNames(r), IsContainer(r.s, r.Item()))
  {
    hide RenameIn, MoveTo, Walk, Join;
    KeysOfItem(r);
    ItemPlaces(r);
    FolderNamesValid(r.s, r.fold, r.root, r.at, r.f);
    FolderNamesValid(r.s, r.fold, r.root, r.into, r.g);
    FolderNamesValid(r.s, r.fold, r.root, r.From(), r.Item());
    if Names(r.s, r.root, r.at) == Names(r.s, r.root, r.into) {
      SamePlace(r.s, r.fold, r.root, r.at, r.into);
    }
    SameSnoc(Names(r.s, r.root, r.at), r.s[r.Item()].name, Names(r.s, r.root, r.into), r.newName);
  }

  lemma SameSnoc(a: seq<string>, m: string, b: seq<string>, n: string)
    ensures a + [m] == b + [n] ==> a == b && m == n
  {
    assert (a + [m])[..|a + [m]| - 1] == a && (b + [n])[..|b + [n]| - 1] == b;
    assert (a + [m])[|a + [m]| - 1] == m && (b + [n])[|b + [n]| - 1] == n;
  }

  lemma SamePlace(s: Store, fold: Fold, root: Oid, a: seq<string>, b: seq<string>)
    requires IsTree(s, fold, root) && Walk(s, root, a).Some? && Walk(s, root, b).Some?
    requires Names(s, root, a) == Names(s, root, b)
    ensures a == b
  {
    NamesGiveKeys(s, fold, root, root, a);
    NamesGiveKeys(s, fold, root, root, b);
  }

  /** Names that begin with those of the item come from keys that begin with those of the item. */
  lemma NamesUnder(r: Transfer, keys: seq<string>, x: Oid)
    requires ToMirror(r) && LeadsTo(r.s, r.root, keys, x)
    ensures OldNames(r) <= Names(r.s, r.root, keys) ==> r.From() <= keys
    ensures NewNames(r) <= Names(r.s, r.root, keys) ==> r.To() <= keys
  {
    hide Walk, RenameIn, MoveTo, ValidNames;
    OldAndNew(r);
    TransferKeepsTree(r);
    RootIsThere(r.s, r.fold, r.root);
    RootIsThere(r.After(), r.fold, r.root);
    NamesGiveKeys(r.s, r.fold, r.root, r.root, keys);
    NamesGiveKeys(r.s, r.fold, r.root, r.root, r.From());
    NamesGiveKeys(r.After(), r.fold, r.root, r.root, r.To());
    hide IsTree, OldNames, NewNames, Names;
    SameKeys(r.fold, OldNames(r), r.From(), Names(r.s, r.root, keys), keys);
    SameKeys(r.fold, NewNames(r), r.To(), Names(r.s, r.root, keys), keys);
  }

  lemma SameKeys(fold: Fold, a: seq<string>, from: seq<string>, b: seq<string>, keys: seq<string>)
    requires |a| == |from| && forall i | 0 <= i < |a| :: from[i] == fold(a[i])
    requires |b| == |keys| && forall i | 0 <= i < |b| :: keys[i] == fold(b[i])
    ensures a <= b ==> from <= keys
  {
    if a <= b {
      forall i | 0 <= i < |from|
        ensures from[i] == keys[i]
      {
        assert a[i] == b[i];
      }
    }
  }

  // ---------- Keys before and after ----------

  /** The key of an attached object other than the root. */
  lemma KeyIsText(s: Store, root: Oid, keys: seq<string>, x: Oid)
    requires LeadsTo(s, root, keys, x)
    ensures KeyOf(s, root, keys) == KeyText(Names(s, root, keys), IsContainer(s, x))
    ensures Names(s, root, keys) != [] && (ValidNames(s, root) ==> AllValid(Names(s, root, keys)))
  {
  }

  lemma TextsUnrelated(a: seq<string>, c: seq<string>, ca: bool, cc: bool)
    requires a != [] && c != [] && AllValid(a) && AllValid(c) && !(a <= c)
    ensures if ca then !(KeyText(a, ca) <= KeyText(c, cc)) else KeyText(c, cc) != KeyText(a, ca)
  {
    TextPrefix(a, c, cc);
    if !ca && KeyText(c, cc) == KeyText(a, ca) {
      KeysDiffer(a, c, ca, cc);
    }
  }

  /** A key has nothing to do with a renaming of keys. */
  predicate Apart(key: string, oldKey: string, newKey: string)
  {
    if EndsInSlash(oldKey) then !(oldKey <= key) && !(newKey <= key) else key != oldKey && key != newKey
  }

  /** A key goes along with a renaming. */
  predicate Along(key: string, oldKey: string)
  {
    oldKey <= key && (EndsInSlash(oldKey) || key == oldKey)
  }

  lemma RenamedBucket(b: Bucket, after: Bucket, oldKey: string, newKey: string, key: string)
    requires oldKey in b && KeyRenamed(b, after, oldKey, newKey) && CanRename(oldKey, newKey) && key in b
    ensures Along(key, oldKey) ==> newKey + key[|oldKey|..] in after && after[newKey + key[|oldKey|..]] == b[key]
    ensures !Along(key, oldKey) ==> key in after && (after[key] == b[key] || ComesThere(b, oldKey, newKey, key))
    ensures Apart(key, oldKey, newKey) ==> key in after && after[key] == b[key]
  {
    if key == oldKey {
      assert newKey + key[|oldKey|..] == newKey;
    }
    if EndsInSlash(oldKey) && !(oldKey <= key) && newKey <= key && oldKey + key[|newKey|..] in b {
      var q := oldKey + key[|newKey|..];
      assert newKey + q[|oldKey|..] == key;
    }
  }

  /** Some key of the bucket is moved onto this one. */
  ghost predicate ComesThere(b: Bucket, oldKey: string, newKey: string, key: string)
  {
    exists q | q in b && Along(q, oldKey) :: newKey + q[|oldKey|..] == key
  }

  /** Where a key of the renamed bucket comes from. */
  lemma RenamedOrigin(b: Bucket, after: Bucket, oldKey: string, newKey: string, n: string) returns (key: string)
    requires oldKey in b && KeyRenamed(b, after, oldKey, newKey) && n in after
    ensures key in b
    ensures if Along(key, oldKey) then n == newKey + key[|oldKey|..] else n == key
  {
    if EndsInSlash(oldKey) {
      if newKey <= n && oldKey + n[|newKey|..] in b {
        key := oldKey + n[|newKey|..];
        assert key[|oldKey|..] == n[|newKey|..];
      } else {
        key := n;
      }
    } else {
      key := if n == newKey then oldKey else n;
      assert oldKey[|oldKey|..] == [];
    }
  }

  /** What is neither in the item nor replaced keeps its key, and that key has nothing to do with the item's;
      what is replaced has a key that does not go along. */
  lemma KeyStays(r: Transfer, keys: seq<string>, x: Oid)
    requires ToMirror(r) && LeadsTo(r.s, r.root, keys, x) && !(r.From() <= keys)
    ensures var key := KeyOf(r.s, r.root, keys);
            && !Along(key, OldKey(r))
            && (!(r.To() <= keys) ==>
                  && Apart(key, OldKey(r), NewKey(r)) && LeadsTo(r.After(), r.root, keys, x)
                  && KeyOf(r.After(), r.root, keys) == key)
  {
    hide Walk, Names, RenameIn, MoveTo, IsTree, OldNames, NewNames, OldKey, NewKey, KeyOf, KeyText, AllValid, Join,
         ValidNames, Along, Apart, EndsInSlash;
    ItemNames(r);
    NamesUnder(r, keys, x);
    KeyIsText(r.s, r.root, keys, x);
    MirrorParts(r);
    var c, container, own := Names(r.s, r.root, keys), IsContainer(r.s, x), IsContainer(r.s, r.Item());
    LastOfItem(r);
    TextsUnrelated(OldNames(r), c, own, container);
    NotAlong(KeyOf(r.s, r.root, keys), OldKey(r), own);
    if !(r.To() <= keys) {
      TextsUnrelated(NewNames(r), c, own, container);
      IsApart(KeyOf(r.s, r.root, keys), OldKey(r), NewKey(r), own);
      KeyElsewhere(r, keys, x);
    }
  }

  lemma MirrorParts(r: Transfer)
    requires ToMirror(r)
    ensures r.Ready() && ValidNames(r.s, r.root) && r.f in r.s && Has(r.s, r.fold, r.f, r.oldName)
    ensures r.Item() in r.s
    ensures OldNames(r) != [] && NewNames(r) != []
  {
    hide RenameIn, MoveTo, Walk, IsTree, OldNames, NewNames;
    ItemNames(r);
    TransferItem(r);
  }

  lemma NotAlong(key: string, oldKey: string, container: bool)
    requires EndsInSlash(oldKey) <==> container
    requires if container then !(oldKey <= key) else key != oldKey
    ensures !Along(key, oldKey)
  {
  }

  lemma IsApart(key: string, oldKey: string, newKey: string, container: bool)
    requires EndsInSlash(oldKey) <==> container
    requires if container then !(oldKey <= key) && !(newKey <= key) else key != oldKey && key != newKey
    ensures Apart(key, oldKey, newKey)
  {
  }

  lemma KeyElsewhere(r: Transfer, keys: seq<string>, x: Oid)
    requires r.Ready() && LeadsTo(r.s, r.root, keys, x) && !(r.From() <= keys) && !(r.To() <= keys)
    ensures LeadsTo(r.After(), r.root, keys, x)
    ensures KeyOf(r.After(), r.root, keys) == KeyOf(r.s, r.root, keys)
  {
    hide Walk, Names, RenameIn, MoveTo, IsTree, Join;
    SameElsewhere(r, keys);
    StoreKeeps(r);
  }

  /** What is in the item has a key that goes along, and keeps the rest of it. */
  lemma KeyMoves(r: Transfer, keys: seq<string>, x: Oid)
    requires ToMirror(r) && LeadsTo(r.s, r.root, keys, x) && r.From() <= keys
    ensures LeadsTo(r.After(), r.root, r.Shifted(keys), x)
    ensures Along(KeyOf(r.s, r.root, keys), OldKey(r))
    ensures KeyOf(r.After(), r.root, r.Shifted(keys)) == NewKey(r) + KeyOf(r.s, r.root, keys)[|OldKey(r)|..]
  {
    var rest := keys[|r.From()|..];
    assert keys == r.From() + rest;
    hide *;
    MirrorParts(r);
    KeysUnder(r, keys, rest, x);
    ItemNames(r);
    LastOfItem(r);
    if rest == [] {
      TextAlone(OldNames(r), NewNames(r), IsContainer(r.s, r.Item()));
    } else {
      var below, container := Names(r.s, r.Item(), rest), IsContainer(r.s, x);
      TextUnder(OldNames(r), below, container);
      TextUnder(NewNames(r), below, container);
    }
    GoesAlong(OldKey(r), KeyOf(r.s, r.root, keys), IsContainer(r.s, r.Item()), rest == []);
  }

  lemma GoesAlong(oldKey: string, key: string, container: bool, alone: bool)
    requires (EndsInSlash(oldKey) <==> container) && oldKey <= key && (container || key == oldKey)
    ensures Along(key, oldKey)
  {
  }

  lemma KeysUnder(r: Transfer, keys: seq<string>, rest: seq<string>, x: Oid)
    requires r.Ready() && LeadsTo(r.s, r.root, keys, x) && keys == r.From() + rest && r.Item() in r.s
    ensures Walk(r.s, r.Item(), rest) == Some(x) && LeadsTo(r.After(), r.root, r.Shifted(keys), x)
    ensures rest == [] ==> x == r.Item() && Names(r.s, r.Item(), rest) == []
    ensures !IsContainer(r.s, r.Item()) ==> rest == []
    ensures KeyOf(r.s, r.root, keys) == KeyText(OldNames(r) + Names(r.s, r.Item(), rest), IsContainer(r.s, x))
    ensures KeyOf(r.After(), r.root, r.Shifted(keys))
         == KeyText(NewNames(r) + Names(r.s, r.Item(), rest), IsContainer(r.s, x))
  {
    hide RenameIn, MoveTo, OldNames, NewNames, Join;
    ForwardUnder(r, rest);
    StoreKeeps(r);
    TreeLinks(r.s, r.fold, r.root, r.Item());
    assert r.Shifted(keys) == r.To() + rest;
    hide IsTree, Names;
    KeyIsText(r.s, r.root, keys, x);
    KeyIsText(r.After(), r.root, r.To() + rest, x);
  }

  lemma TextAlone(a: seq<string>, b: seq<string>, container: bool)
    ensures KeyText(a + [], container) == KeyText(a, container)
    ensures KeyText(b + [], container) == KeyText(b, container) + KeyText(a, container)[|KeyText(a, container)|..]
  {
    assert a + [] == a && b + [] == b;
  }

  /** The last character of the item's keys, and when renaming them moves nothing onto or from under another:
      unless a folder is moved out of the entry that it replaces. */
  lemma LastOfItem(r: Transfer)
    requires ToMirror(r)
    ensures EndsInSlash(OldKey(r)) <==> IsContainer(r.s, r.Item())
    ensures CanRename(OldKey(r), NewKey(r)) <==> !(IsContainer(r.s, r.Item()) && NewNames(r) <= OldNames(r))
  {
    hide *;
    MirrorParts(r);
    ItemNames(r);
    OldNotPrefix(r);
    RenamableTexts(OldNames(r), NewNames(r), IsContainer(r.s, r.Item()));
  }

  lemma OldNotPrefix(r: Transfer)
    requires ToMirror(r)
    ensures !(OldNames(r) <= NewNames(r))
  {
    if OldNames(r) <= NewNames(r) {
      hide RenameIn, MoveTo, Walk, ValidNames;
      ItemNames(r);
      OldAndNew(r);
      TransferKeepsTree(r);
      RootIsThere(r.s, r.fold, r.root);
      RootIsThere(r.After(), r.fold, r.root);
      NamesGiveKeys(r.s, r.fold, r.root, r.root, r.From());
      NamesGiveKeys(r.After(), r.fold, r.root, r.root, r.To());
      hide IsTree, OldNames, NewNames, Names;
      SameKeys(r.fold, OldNames(r), r.From(), NewNames(r), r.To());
      ShorterPrefix(r.From(), r.into, r.fold(r.newName), OldNames(r), NewNames(r));
    }
  }

  lemma ShorterPrefix(from: seq<string>, into: seq<string>, j: string, a: seq<string>, b: seq<string>)
    requires from <= into + [j] && |a| == |from| && |b| == |into| + 1 && a <= b && a != b
    ensures from <= into
  {
  }

  lemma RenamableTexts(a: seq<string>, b: seq<string>, container: bool)
    requires a != [] && b != [] && AllValid(a) && AllValid(b) && !(a <= b) && a != b
    ensures EndsInSlash(KeyText(a, container)) <==> container
    ensures CanRename(KeyText(a, container), KeyText(b, container)) <==> !(container && b <= a)
  {
    LastTells(a, container);
    TextsUnrelated(a, b, container, container);
    if !(b <= a) {
      TextsUnrelated(b, a, container, container);
    } else if container {
      PrefixText(b, a);
    }
    hide Join;
  }

  lemma PrefixText(b: seq<string>, a: seq<string>)
    requires b <= a && b != [] && b != a
    ensures KeyText(b, true) <= KeyText(a, true)
  {
    assert a == b + a[|b|..];
    TextUnder(b, a[|b|..], true);
  }

  lemma WhatComes(b: Bucket, oldKey: string, newKey: string, key: string) returns (q: string)
    requires ComesThere(b, oldKey, newKey, key)
    ensures q in b && oldKey <= q && Along(q, oldKey) && newKey + q[|oldKey|..] == key
  {
    q :| q in b && Along(q, oldKey) && newKey + q[|oldKey|..] == key;
  }

  /** An object's key goes along exactly if the object is in the item. */
  lemma KeyFollows(r: Transfer, keys: seq<string>, x: Oid)
    requires ToMirror(r) && LeadsTo(r.s, r.root, keys, x) && !r.Loses(keys)
    ensures LeadsTo(r.After(), r.root, r.Shifted(keys), x)
    ensures var key := KeyOf(r.s, r.root, keys);
            && (Along(key, OldKey(r)) || Apart(key, OldKey(r), NewKey(r)))
            && KeyOf(r.After(), r.root, r.Shifted(keys))
               == if Along(key, OldKey(r)) then NewKey(r) + key[|OldKey(r)|..] else key
  {
    hide Walk, Names, RenameIn, MoveTo, IsTree, OldNames, NewNames, OldKey, NewKey, ToMirror, KeyOf, Along, Apart;
    if r.From() <= keys {
      KeyMoves(r, keys, x);
    } else {
      KeyStays(r, keys, x);
    }
  }

  // ---------- The bucket afterwards ----------

  /** The key of an object attached after the transfer. */
  ghost predicate IsLive(r: Transfer, n: string)
    requires r.Ready()
  {
    exists keys, x :: LeadsTo(r.After(), r.root, keys, x) && KeyOf(r.After(), r.root, keys) == n
  }

  /** The key of an object that the transfer replaced. */
  ghost predicate WasLost(r: Transfer, n: string)
    requires r.Ready()
  {
    exists keys, x :: LeadsTo(r.s, r.root, keys, x) && r.Loses(keys) && KeyOf(r.s, r.root, keys) == n
  }

  ghost predicate Kept(r: Transfer, b: Bucket, after: Bucket)
  {
    && ToMirror(r) && Mirrors(r.s, r.root, b) && OldKey(r) in b && CanRename(OldKey(r), NewKey(r))
    && KeyRenamed(b, after, OldKey(r), NewKey(r))
  }

  lemma NamesStayValid(r: Transfer, keys: seq<string>, x: Oid)
    requires ToMirror(r) && LeadsTo(r.s, r.root, keys, x) && !r.Loses(keys)
    ensures Walk(r.After(), r.root, r.Shifted(keys)).Some? && AllValid(Names(r.After(), r.root, r.Shifted(keys)))
  {
    hide *;
    MirrorParts(r);
    NamesElsewhere(r, keys, x);
    ItemNames(r);
    if r.From() <= keys {
      var rest := keys[|r.From()|..];
      assert keys == r.From() + rest;
      ForwardUnder(r, rest);
      ShiftedIs(r, rest);
      ValidParts(OldNames(r), Names(r.s, r.Item(), rest), NewNames(r));
    }
  }

  lemma ShiftedIs(r: Transfer, rest: seq<string>)
    ensures r.Shifted(r.From() + rest) == r.To() + rest
  {
  }

  lemma ValidParts(a: seq<string>, below: seq<string>, b: seq<string>)
    requires AllValid(a + below) && AllValid(b)
    ensures AllValid(b + below)
  {
    forall i | 0 <= i < |below|
      ensures ValidId(below[i])
    {
      assert (a + below)[|a| + i] == below[i];
    }
  }

  lemma NamesElsewhere(r: Transfer, keys: seq<string>, x: Oid)
    requires ToMirror(r) && LeadsTo(r.s, r.root, keys, x) && !r.Loses(keys)
    ensures Walk(r.s, r.root, keys) == Walk(r.After(), r.root, r.Shifted(keys)) == Some(x)
    ensures AllValid(Names(r.s, r.root, keys))
    ensures !(r.From() <= keys) ==>
              r.Shifted(keys) == keys && Names(r.After(), r.root, keys) == Names(r.s, r.root, keys)
  {
    hide RenameIn, MoveTo, IsTree, Names;
    Forward(r, keys);
  }

  /** After the transfer each object's key is in the renamed bucket, with the object's data. */
  lemma KeyIsThere(r: Transfer, b: Bucket, after: Bucket, keys: seq<string>, x: Oid)
    requires Kept(r, b, after) && LeadsTo(r.After(), r.root, keys, x)
    ensures KeyOf(r.After(), r.root, keys) in after && after[KeyOf(r.After(), r.root, keys)] == r.After()[x].data
    ensures AllValid(Names(r.After(), r.root, keys))
  {
    hide Names, RenameIn, MoveTo, IsTree, OldNames, NewNames, OldKey, NewKey, KeyRenamed, Along, Apart, CanRename;
    var before := Backward(r, keys);
    StoreKeeps(r);
    NotTheRoot(r, keys, before, x);
    hide Walk, KeyOf;
    KeyFollows(r, before, x);
    RenamedBucket(b, after, OldKey(r), NewKey(r), KeyOf(r.s, r.root, before));
    NamesStayValid(r, before, x);
  }

  lemma NotTheRoot(r: Transfer, keys: seq<string>, before: seq<string>, x: Oid)
    requires r.Ready() && LeadsTo(r.After(), r.root, keys, x)
    requires Walk(r.s, r.root, before) == Some(x) && r.Shifted(before) == keys
    ensures LeadsTo(r.s, r.root, before, x)
  {
    hide RenameIn, MoveTo, IsTree;
    StoreKeeps(r);
  }

  /** What is in the renamed bucket: the keys of the objects, and those of objects replaced. */
  lemma KeyHasReason(r: Transfer, b: Bucket, after: Bucket, n: string)
    requires Kept(r, b, after) && n in after
    ensures IsLive(r, n) || WasLost(r, n)
  {
    hide Walk, Names, RenameIn, MoveTo, IsTree, OldNames, NewNames, OldKey, NewKey, KeyRenamed, Along, Apart,
         CanRename, KeyOf;
    var key := RenamedOrigin(b, after, OldKey(r), NewKey(r), n);
    var before, y :| LeadsTo(r.s, r.root, before, y) && KeyOf(r.s, r.root, before) == key;
    if r.Loses(before) {
      KeyStays(r, before, y);
    } else {
      KeyFollows(r, before, y);
      assert LeadsTo(r.After(), r.root, r.Shifted(before), y);
    }
  }

  /** The key of an object replaced stays in the bucket, with the old data unless it is now another's. */
  lemma LostKeyStays(r: Transfer, b: Bucket, after: Bucket, n: string)
    requires Kept(r, b, after) && WasLost(r, n)
    ensures n in b && n in after && (IsLive(r, n) || after[n] == b[n])
  {
    hide Walk, Names, RenameIn, MoveTo, IsTree, OldNames, NewNames, OldKey, NewKey, KeyRenamed, Along, Apart,
         CanRename, KeyOf;
    var keys, x :| LeadsTo(r.s, r.root, keys, x) && r.Loses(keys) && KeyOf(r.s, r.root, keys) == n;
    KeyStays(r, keys, x);
    assert n in b;
    RenamedBucket(b, after, OldKey(r), NewKey(r), n);
    if after[n] != b[n] {
      var q := WhatComes(b, OldKey(r), NewKey(r), n);
      var before, y :| LeadsTo(r.s, r.root, before, y) && KeyOf(r.s, r.root, before) == q;
      if r.Loses(before) {
        KeyStays(r, before, y);
      } else {
        KeyFollows(r, before, y);
        assert LeadsTo(r.After(), r.root, r.Shifted(before), y);
      }
    }
  }

  lemma ItemHasKey(r: Transfer, b: Bucket)
    requires ToMirror(r) && Mirrors(r.s, r.root, b)
    ensures OldKey(r) in b
  {
    KeysOfItem(r);
    assert LeadsTo(r.s, r.root, r.From(), r.Item());
  }

  // ---------- The keys as they are passed ----------

  /** The key to be renamed: the folder's key and the old name as the caller spelled it. */
  ghost function SourceKey(r: Transfer): string
    requires r.Ready()
  {
    TransferItem(r);
    KeyOf(r.s, r.root, r.at) + r.oldName + Closing(IsContainer(r.s, r.Item()))
  }

  /** What it is renamed to: the target folder's key and the new name. */
  ghost function TargetKey(r: Transfer): string
    requires r.Ready()
  {
    TransferItem(r);
    KeyOf(r.s, r.root, r.into) + r.newName + Closing(IsContainer(r.s, r.Item()))
  }

  /** The old name is spelled as the item's. */
  predicate SpelledAlike(r: Transfer)
    requires r.f in r.s && Has(r.s, r.fold, r.f, r.oldName) && r.Item() in r.s
  {
    r.oldName == r.s[r.Item()].name
  }

  lemma NamedIn(s: Store, root: Oid, keys: seq<string>, x: Oid, name: string, container: bool)
    requires Walk(s, root, keys) == Some(x) && x in s && IsContainer(s, x)
    ensures KeyOf(s, root, keys) + name + Closing(container) == KeyText(Names(s, root, keys) + [name], container)
  {
    if keys == [] {
      assert Names(s, root, keys) + [name] == [name];
    } else {
      KeyIsText(s, root, keys, x);
      TextUnder(Names(s, root, keys), [name], container);
      assert KeyText([name], container) == name + Closing(container);
      Regroup(KeyOf(s, root, keys), name, Closing(container));
    }
  }

  lemma Regroup(a: string, b: string, c: string)
    ensures a + b + c == a + (b + c)
  {
  }

  /** The passed keys as texts. */
  lemma PassedTexts(r: Transfer)
    requires r.Ready()
    ensures r.Item() in r.s
    ensures SourceKey(r) == KeyText(Names(r.s, r.root, r.at) + [r.oldName], IsContainer(r.s, r.Item()))
    ensures TargetKey(r) == NewKey(r)
  {
    hide Names, Walk, RenameIn, MoveTo, KeyText, KeyOf, Closing;
    TransferItem(r);
    TreeLinks(r.s, r.fold, r.root, r.f);
    NamedIn(r.s, r.root, r.at, r.f, r.oldName, IsContainer(r.s, r.Item()));
    NamedIn(r.s, r.root, r.into, r.g, r.newName, IsContainer(r.s, r.Item()));
    KeysOfItem(r);
    KeyIsText(r.After(), r.root, r.To(), r.Item());
    ItemPlaces(r);
  }

  /** The bucket has the passed key exactly if the name is spelled as the item's, and then it is the item's. */
  lemma SourceFound(r: Transfer, b: Bucket)
    requires ToMirror(r) && Mirrors(r.s, r.root, b) && ValidId(r.oldName)
    ensures r.Item() in r.s && TargetKey(r) == NewKey(r)
    ensures SourceKey(r) in b <==> SpelledAlike(r)
    ensures SpelledAlike(r) ==> SourceKey(r) == OldKey(r)
  {
    hide Walk, Names, RenameIn, MoveTo, KeyText, KeyOf, IsTree, SourceKey, TargetKey, OldKey, NewKey, AllValid;
    PassedTexts(r);
    KeysOfItem(r);
    ItemPlaces(r);
    ItemNames(r);
    OldAndNew(r);
    if SpelledAlike(r) {
      ItemHasKey(r, b);
    } else if SourceKey(r) in b {
      var keys, x :| LeadsTo(r.s, r.root, keys, x) && KeyOf(r.s, r.root, keys) == SourceKey(r);
      NamesOfSource(r, keys, x);
    }
  }

  /** An object with the passed key is the item, by the passed name. */
  lemma NamesOfSource(r: Transfer, keys: seq<string>, x: Oid)
    requires ToMirror(r) && ValidId(r.oldName) && LeadsTo(r.s, r.root, keys, x)
    requires KeyOf(r.s, r.root, keys) == SourceKey(r)
    ensures r.Item() in r.s && SpelledAlike(r)
  {
    hide Walk, RenameIn, MoveTo, KeyText, Join, KeyOf, SourceKey, TargetKey, NewKey;
    PassedTexts(r);
    ItemPlaces(r);
    KeyIsText(r.s, r.root, keys, x);
    FolderNamesValid(r.s, r.fold, r.root, r.at, r.f);
    RootIsThere(r.s, r.fold, r.root);
    NamesGiveKeys(r.s, r.fold, r.root, r.root, keys);
    NamesGiveKeys(r.s, r.fold, r.root, r.root, r.at);
    hide Names, IsTree, ValidNames;
    var above, names := Names(r.s, r.root, r.at), Names(r.s, r.root, keys);
    SnocValid(above, r.oldName);
    SameTexts(names, IsContainer(r.s, x), above + [r.oldName], IsContainer(r.s, r.Item()));
    assert keys == r.From();
    SameSnoc(above, r.oldName, above, r.s[r.Item()].name);
  }

  lemma SnocValid(names: seq<string>, name: string)
    requires AllValid(names) && ValidId(name)
    ensures AllValid(names + [name])
  {
  }

  lemma SameTexts(a: seq<string>, ca: bool, b: seq<string>, cb: bool)
    requires a != [] && b != [] && AllValid(a) && AllValid(b) && KeyText(a, ca) == KeyText(b, cb)
    ensures a == b
  {
    KeysDiffer(a, b, ca, cb);
  }

  // ---------- The mirror afterwards ----------

  /** Renaming or moving an entry, and its key with `rename_key`, when the old name is spelled as the item's.
      If the bucket had exactly the keys of the tree's objects, with their data, then afterwards it has exactly
      the keys of the objects, with their data, and of the objects replaced, with theirs; a key of both is the
      former's.  When it is spelled otherwise, the bucket does not change. */
  lemma TransferMirrors(r: Transfer, b: Bucket, after: Bucket)
    requires ToMirror(r) && Mirrors(r.s, r.root, b) && ValidId(r.oldName) && CanRename(OldKey(r), TargetKey(r))
    requires Rekeyed(b, after, SourceKey(r), TargetKey(r))
    ensures IsTree(r.After(), r.fold, r.root) && r.Item() in r.s
    ensures SpelledAlike(r) ==>
              && ValidNames(r.After(), r.root)
              && (forall keys, x | LeadsTo(r.After(), r.root, keys, x) ::
                    KeyOf(r.After(), r.root, keys) in after
                    && after[KeyOf(r.After(), r.root, keys)] == r.After()[x].data)
              && (forall n :: n in after <==> IsLive(r, n) || WasLost(r, n))
              && (forall n | WasLost(r, n) :: n in b && (IsLive(r, n) || after[n] == b[n]))
    ensures !SpelledAlike(r) ==> after == b && OldKey(r) in after && !IsLive(r, OldKey(r))
  {
    hide *;
    hide Transfer.Ready;
    MirrorParts(r);
    SourceFound(r, b);
    ItemHasKey(r, b);
    TransferKeepsTree(r);
    if SpelledAlike(r) {
      RenamedIf(b, after, SourceKey(r), TargetKey(r));
      KeysMirror(r, b, after);
    } else {
      NotRenamedIf(b, after, SourceKey(r), TargetKey(r));
      OldKeyIsStale(r);
    }
  }

  lemma RenamedIf(b: Bucket, after: Bucket, oldKey: string, newKey: string)
    requires Rekeyed(b, after, oldKey, newKey) && oldKey in b
    ensures KeyRenamed(b, after, oldKey, newKey)
  {
  }

  lemma NotRenamedIf(b: Bucket, after: Bucket, oldKey: string, newKey: string)
    requires Rekeyed(b, after, oldKey, newKey) && oldKey !in b
    ensures after == b
  {
  }

  lemma KeysMirror(r: Transfer, b: Bucket, after: Bucket)
    requires ToMirror(r) && Mirrors(r.s, r.root, b) && CanRename(OldKey(r), NewKey(r)) && OldKey(r) in b
    requires KeyRenamed(b, after, OldKey(r), NewKey(r))
    ensures && ValidNames(r.After(), r.root)
            && (forall keys, x | LeadsTo(r.After(), r.root, keys, x) ::
                  KeyOf(r.After(), r.root, keys) in after
                  && after[KeyOf(r.After(), r.root, keys)] == r.After()[x].data)
            && (forall n :: n in after <==> IsLive(r, n) || WasLost(r, n))
            && (forall n | WasLost(r, n) :: n in b && (IsLive(r, n) || after[n] == b[n]))
  {
    hide Walk, Names, RenameIn, MoveTo, IsTree, OldNames, NewNames, OldKey, NewKey, KeyRenamed, CanRename, KeyOf;
    TransferKeepsTree(r);
    forall keys, x | LeadsTo(r.After(), r.root, keys, x)
      ensures KeyOf(r.After(), r.root, keys) in after
      ensures after[KeyOf(r.After(), r.root, keys)] == r.After()[x].data
      ensures AllValid(Names(r.After(), r.root, keys))
    {
      KeyIsThere(r, b, after, keys, x);
    }
    forall n
      ensures n in after <==> IsLive(r, n) || WasLost(r, n)
      ensures WasLost(r, n) ==> n in b && (IsLive(r, n) || after[n] == b[n])
    {
      if n in after {
        KeyHasReason(r, b, after, n);
      }
      if WasLost(r, n) {
        LostKeyStays(r, b, after, n);
      }
    }
  }

  /** Where the key of an object attached afterwards comes from. */
  lemma LiveOrigin(r: Transfer, n: string) returns (before: seq<string>, x: Oid)
    requires ToMirror(r) && IsLive(r, n)
    ensures LeadsTo(r.s, r.root, before, x) && !r.Loses(before)
    ensures var key := KeyOf(r.s, r.root, before);
            n == if Along(key, OldKey(r)) then NewKey(r) + key[|OldKey(r)|..] else key
  {
    hide Names, RenameIn, MoveTo, IsTree, OldNames, NewNames, OldKey, NewKey, Along, Apart;
    var keys, y :| LeadsTo(r.After(), r.root, keys, y) && KeyOf(r.After(), r.root, keys) == n;
    before := Backward(r, keys);
    x := y;
    NotTheRoot(r, keys, before, x);
    hide Walk, KeyOf;
    KeyFollows(r, before, x);
  }

  /** The item's old key is no object's afterwards. */
  lemma OldKeyIsStale(r: Transfer)
    requires ToMirror(r) && CanRename(OldKey(r), NewKey(r))
    ensures !IsLive(r, OldKey(r))
  {
    hide *;
    hide Transfer.Ready;
    MirrorParts(r);
    if IsLive(r, OldKey(r)) {
      var before, x := LiveOrigin(r, OldKey(r));
      Leads(r.s, r.root, before, x);
      NotFromItself(OldKey(r), NewKey(r), KeyOf(r.s, r.root, before));
    }
  }

  lemma Leads(s: Store, root: Oid, keys: seq<string>, x: Oid)
    requires LeadsTo(s, root, keys, x)
    ensures Walk(s, root, keys) == Some(x) && x in s
  {
  }

  lemma NotFromItself(oldKey: string, newKey: string, key: string)
    requires CanRename(oldKey, newKey)
    ensures oldKey != if Along(key, oldKey) then newKey + key[|oldKey|..] else key
  {
    if Along(key, oldKey) {
      assert newKey <= newKey + key[|oldKey|..];
    }
  }

  /** The key of an object replaced is another's afterwards exactly if a key is renamed onto it. */
  lemma LiveIffOneComes(r: Transfer, b: Bucket, n: string)
    requires ToMirror(r) && Mirrors(r.s, r.root, b) && WasLost(r, n)
    ensures IsLive(r, n) <==> ComesThere(b, OldKey(r), NewKey(r), n)
  {
    hide Walk, Names, RenameIn, MoveTo, IsTree, OldNames, NewNames, OldKey, NewKey, Along, Apart, KeyOf, ToMirror,
         ValidNames;
    MirrorParts(r);
    if IsLive(r, n) {
      var before, x := LiveOrigin(r, n);
      if !Along(KeyOf(r.s, r.root, before), OldKey(r)) {
        var keys, y :| LeadsTo(r.s, r.root, keys, y) && r.Loses(keys) && KeyOf(r.s, r.root, keys) == n;
        KeysAreUnique(r.s, r.fold, r.root, keys, y, before, x);
      }
    }
    if ComesThere(b, OldKey(r), NewKey(r), n) {
      var q := WhatComes(b, OldKey(r), NewKey(r), n);
      var before, y :| LeadsTo(r.s, r.root, before, y) && KeyOf(r.s, r.root, before) == q;
      if r.Loses(before) {
        KeyStays(r, before, y);
      } else {
        KeyFollows(r, before, y);
        assert LeadsTo(r.After(), r.root, r.Shifted(before), y);
      }
    }
  }

  /** So the bucket still mirrors the tree if and only if the caller spelled the old name as the item's, and a
      key is renamed onto each key of an object replaced. */
  lemma MirrorsIffNothingStale(r: Transfer, b: Bucket, after: Bucket)
    requires ToMirror(r) && Mirrors(r.s, r.root, b) && ValidId(r.oldName) && CanRename(OldKey(r), TargetKey(r))
    requires Rekeyed(b, after, SourceKey(r), TargetKey(r))
    ensures r.Item() in r.s
    ensures Mirrors(r.After(), r.root, after)
            <==> SpelledAlike(r) && forall n | WasLost(r, n) :: ComesThere(b, SourceKey(r), TargetKey(r), n)
  {
    TransferMirrors(r, b, after);
    SourceFound(r, b);
    forall n | WasLost(r, n)
      ensures IsLive(r, n) <==> ComesThere(b, OldKey(r), TargetKey(r), n)
    {
      LiveIffOneComes(r, b, n);
    }
    hide RenameIn, MoveTo, IsTree, OldNames, NewNames, OldKey, NewKey, SourceKey, TargetKey, Rekeyed, CanRename, KeyOf,
         ToMirror, WasLost, LeadsTo, ValidNames, IsLive, Mirrors, ComesThere;
    if SpelledAlike(r) {
      MirrorsIfAllLive(r, after);
    } else {
      StaleBreaks(r, after, OldKey(r));
    }
  }

  /** Within one folder the two keys can always be renamed without mixing them. */
  lemma RenamingKeepsApart(r: Transfer)
    requires ToMirror(r) && r.f == r.g
    ensures CanRename(OldKey(r), TargetKey(r))
  {
    hide RenameIn, MoveTo, Walk, ValidNames, CanRename, OldKey, NewKey, TargetKey, OldNames, NewNames;
    LastOfItem(r);
    ItemNames(r);
    PassedTexts(r);
    OnlyOneWay(r.s, r.fold, r.root, r.at, r.into, r.f);
    hide IsTree;
    if NewNames(r) <= OldNames(r) {
      assert |NewNames(r)| == |OldNames(r)|;
    }
  }

  lemma StaleBreaks(r: Transfer, after: Bucket, n: string)
    requires r.Ready() && n in after && !IsLive(r, n)
    ensures !Mirrors(r.After(), r.root, after)
  {
  }

  lemma MirrorsIfAllLive(r: Transfer, after: Bucket)
    requires r.Ready()
    requires forall keys, x | LeadsTo(r.After(), r.root, keys, x) ::
               KeyOf(r.After(), r.root, keys) in after
               && after[KeyOf(r.After(), r.root, keys)] == r.After()[x].data
    ensures Mirrors(r.After(), r.root, after) <==> forall n | n in after :: IsLive(r, n)
  {
    hide RenameIn, MoveTo, IsTree, KeyOf, Walk;
    if forall n | n in after :: IsLive(r, n) {
      forall k | k in after
        ensures exists keys, x :: LeadsTo(r.After(), r.root, keys, x) && KeyOf(r.After(), r.root, keys) == k
      {
        assert IsLive(r, k);
      }
    }
  }

  /** In particular, if nothing is replaced, because the name is not used or a renaming only changes its case:
      the bucket mirrors the tree if and only if the old name is spelled as the item's. */
  lemma TransferKeepsMirror(r: Transfer, b: Bucket, after: Bucket)
    requires ToMirror(r) && Mirrors(r.s, r.root, b) && ValidId(r.oldName)
    requires !Has(r.s, r.fold, r.g, r.newName) || r.From() == r.To()
    requires Rekeyed(b, after, SourceKey(r), TargetKey(r))
    ensures IsTree(r.After(), r.fold, r.root) && r.Item() in r.s && CanRename(OldKey(r), TargetKey(r))
    ensures Mirrors(r.After(), r.root, after) <==> SpelledAlike(r)
    ensures SpelledAlike(r) ==> ValidNames(r.After(), r.root)
  {
    hide *;
    hide Transfer.Ready;
    MirrorParts(r);
    PassedTexts(r);
    NothingReplaced(r);
    LastOfItem(r);
    TransferMirrors(r, b, after);
    MirrorsIffNothingStale(r, b, after);
  }

  lemma NothingReplaced(r: Transfer)
    requires ToMirror(r)
    requires !Has(r.s, r.fold, r.g, r.newName) || r.From() == r.To()
    ensures forall n :: !WasLost(r, n)
    ensures !(NewNames(r) <= OldNames(r))
  {
    forall n
      ensures !WasLost(r, n)
    {
      if WasLost(r, n) {
        var keys, x :| LeadsTo(r.s, r.root, keys, x) && r.Loses(keys) && KeyOf(r.s, r.root, keys) == n;
        LostIsReplaced(r, keys, x);
      }
    }
    if NewNames(r) <= OldNames(r) {
      hide RenameIn, MoveTo, Walk, ValidNames, WasLost;
      ItemNames(r);
      OldAndNew(r);
      TransferKeepsTree(r);
      RootIsThere(r.s, r.fold, r.root);
      RootIsThere(r.After(), r.fold, r.root);
      NamesGiveKeys(r.s, r.fold, r.root, r.root, r.From());
      NamesGiveKeys(r.After(), r.fold, r.root, r.root, r.To());
      hide IsTree, OldNames, NewNames, Names;
      SameKeys(r.fold, NewNames(r), r.To(), OldNames(r), r.From());
      ShorterPrefix(r.To(), r.at, r.fold(r.oldName), NewNames(r), OldNames(r));
      PrefixIsUsed(r, r.at);
    }
  }

  lemma PrefixIsUsed(r: Transfer, keys: seq<string>)
    requires r.Ready() && Walk(r.s, r.root, keys).Some? && r.To() <= keys
    ensures Has(r.s, r.fold, r.g, r.newName)
  {
    var rest := keys[|r.To()|..];
    var j := r.fold(r.newName);
    assert keys == r.into + ([j] + rest);
    WalkConcat(r.s, r.root, r.into, [j] + rest);
    assert ([j] + rest)[0] == j;
  }

  // ---------- A name spelled otherwise ----------

  /** A root folder with one file, "Notes". */
  function OneFile(fold: Fold, data: Data): Store
  {
    map[0 := Item(RootFolder, "root", None, map[fold("Notes") := 1], ""),
        1 := Item(File, "Notes", Some(0), map[], data)]
  }

  lemma OneFileTree(fold: Fold, data: Data)
    ensures IsTree(OneFile(fold, data), fold, 0)
    ensures forall keys, x :: LeadsTo(OneFile(fold, data), 0, keys, x) <==> keys == [fold("Notes")] && x == 1
    ensures Walk(OneFile(fold, data), 0, [fold("Notes")]) == Some(1)
    ensures Names(OneFile(fold, data), 0, [fold("Notes")]) == ["Notes"]
    ensures KeyOf(OneFile(fold, data), 0, [fold("Notes")]) == "Notes"
  {
    var s := OneFile(fold, data);
    OneStep(s, 0, fold("Notes"));
    assert [fold("Notes")][1..] == [];
    forall keys, x | LeadsTo(s, 0, keys, x)
      ensures keys == [fold("Notes")] && x == 1
    {
      assert keys[0] == fold("Notes");
      FileIsLast(s, 1, keys[1..]);
      assert keys == [keys[0]] + keys[1..];
    }
  }

  lemma FileIsLast(s: Store, x: Oid, keys: seq<string>)
    requires x in s && s[x].children == map[] && Walk(s, x, keys).Some?
    ensures keys == [] && Walk(s, x, keys) == Some(x)
  {
  }

  lemma OneFileMirrored(fold: Fold, data: Data)
    ensures var s := OneFile(fold, data);
            IsTree(s, fold, 0) && ValidNames(s, 0) && Mirrors(s, 0, map["Notes" := data]) && KeyOf(s, 0, []) == ""
    ensures Walk(OneFile(fold, data), 0, []) == Some(0) && LinksAgree(OneFile(fold, data), fold, 0)
  {
    var s := OneFile(fold, data);
    OneFileTree(fold, data);
    assert KeyOf(s, 0, []) == "";
    TreeLinks(s, fold, 0, 0);
    hide IsTree, KeyOf;
    assert LeadsTo(s, 0, [fold("Notes")], 1);
  }

  /** Renaming "Notes" to "Plan" by the name "notes", which a container that folds case takes for the same: the
      file is renamed, its key is not, and the bucket no longer mirrors the tree. */
  lemma OtherSpellingBreaksMirror(fold: Fold, data: Data)
    requires fold("notes") == fold("Notes")
    ensures var r := Transfer(OneFile(fold, data), fold, 0, 0, [], "notes", 0, [], "Plan");
            var b: Bucket := map["Notes" := data];
            && ToMirror(r) && Mirrors(r.s, 0, b) && SourceKey(r) == "notes" && SourceKey(r) !in b
            && r.After()[1].name == "Plan" && !Mirrors(r.After(), 0, b)
  {
    var s := OneFile(fold, data);
    var r := Transfer(s, fold, 0, 0, [], "notes", 0, [], "Plan");
    var b: Bucket := map["Notes" := data];
    OneFileMirrored(fold, data);
    hide IsTree, LeadsTo, Mirrors, ValidNames, KeyOf, Walk;
    assert r.From() == [fold("Notes")] && !(r.From() <= []);
    assert ToMirror(r);
    assert SourceKey(r) == "notes";
    TransferKeepsMirror(r, b, b);
  }
}
