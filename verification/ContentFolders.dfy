/** The operations of a content folder, on a store of folders and files. */
module ContentFolders {
  import opened Options
  import opened FolderTree

  /** `checkValidId` */
  predicate ValidId(uid: string)
  {
    uid != "" && uid != "." && uid != ".." && '/' !in uid
  }

  datatype Outcome = Done | Declined | KeyError | ValueError | AttributeError

  // ---------- The operations as functions of the store ----------

  predicate Has(s: Store, fold: Fold, f: Oid, name: string)
    requires f in s
  {
    fold(name) in s[f].children
  }

  function Child(s: Store, fold: Fold, f: Oid, name: string): Oid
    requires f in s && Has(s, fold, f, name)
  {
    s[f].children[fold(name)]
  }

  /** `_delitemf`, if the name is there. */
  function Drop(s: Store, fold: Fold, f: Oid, name: string): (t: Store)
    requires f in s
    ensures t.Keys == s.Keys
  {
    if Has(s, fold, f, name) then Unlink(s, f, fold(name)) else s
  }

  function Put(s: Store, fold: Fold, f: Oid, name: string, x: Oid): (t: Store)
    requires f in s && x in s
    ensures t.Keys == s.Keys
  {
    Locate(Link(s, f, fold(name), x), x, f, name)
  }

  function SaveIn(s: Store, fold: Fold, f: Oid, key: string, x: Oid): (Outcome, Store)
    requires f in s && x in s
  {
    if !ValidId(key) then (ValueError, s) else (Done, Put(s, fold, f, key, x))
  }

  /** Whatever has the name is deleted first, even if the name then turns out to be invalid. */
  function AddTo(s: Store, fold: Fold, f: Oid, x: Oid): (Outcome, Store)
    requires f in s && x in s
  {
    if s[x].name == "" then (ValueError, s) else SaveIn(Drop(s, fold, f, s[x].name), fold, f, s[x].name, x)
  }

  function RemoveFrom(s: Store, fold: Fold, f: Oid, name: string): (Outcome, Store)
    requires f in s
  {
    if name != "" && Has(s, fold, f, name) then (Done, Drop(s, fold, f, name)) else (Declined, s)
  }

  /** The new name is not checked. */
  function RenameIn(s: Store, fold: Fold, f: Oid, oldName: string, newName: string): (Outcome, Store)
    requires f in s && LinksAgree(s, fold, f)
  {
    if !Has(s, fold, f, oldName) then (KeyError, s)
    else
      var x := Child(s, fold, f, oldName);
      var t := Unlink(s, f, fold(oldName));
      (Done, Link(t[x := t[x].(name := newName)], f, fold(newName), x))
  }

  function GivenName(newName: Option<string>, name: string): string
  {
    if newName.None? || newName.value == "" then name else newName.value
  }

  function MoveTo(s: Store, fold: Fold, f: Oid, name: string, target: Oid, newName: Option<string>)
    : (Outcome, Store)
    requires f in s && target in s && LinksAgree(s, fold, f)
  {
    if f == target || !Has(s, fold, f, name) then (Declined, s)
    else
      var x := Child(s, fold, f, name);
      var given := GivenName(newName, name);
      (Done, Put(Unlink(Drop(s, fold, target, given), f, fold(name)), fold, target, given, x))
  }

  /** A file is copied under a new identity; copying it onto itself does nothing, and a folder has no
      data to copy. */
  function CopyTo(s: Store, fold: Fold, f: Oid, name: string, target: Oid, newName: Option<string>, copy: Oid)
    : (Outcome, Store)
    requires f in s && target in s && copy !in s && LinksAgree(s, fold, f)
  {
    var given := GivenName(newName, name);
    if !Has(s, fold, f, name) then (KeyError, s)
    else if f == target && given == name then (Declined, s)
    else
      var x := s[Child(s, fold, f, name)];
      if x.kind != File then (AttributeError, s)
      else AddTo(s[copy := Item(x.kind, given, None, map[], x.data)], fold, target, copy)
  }

  /** Naming before linking and locating afterwards comes to the same. */
  lemma NamedBeforeLinked(s: Store, fold: Fold, f: Oid, name: string, x: Oid)
    requires f in s && x in s
    ensures var named := s[x := s[x].(name := name)];
            var linked := named[f := named[f].(children := named[f].children[fold(name) := x])];
            linked[x := linked[x].(parent := Some(f))] == Put(s, fold, f, name, x)
  {
  }

  // ---------- The object ----------

  class FolderStore {
    const fold: Fold
    const root: Oid
    var items: Store

    constructor (fold: Fold, root: Oid)
      ensures this.fold == fold && this.root == root && IsTree(items, fold, root)
      ensures items == map[root := Item(RootFolder, "root", None, map[], "")]
    {
      this.fold, this.root := fold, root;
      items := map[root := Item(RootFolder, "root", None, map[], "")];
    }

    method Save(f: Oid, key: string, x: Oid) returns (r: Outcome)
      requires f in items && x in items
      modifies this`items
      ensures (r, items) == SaveIn(old(items), fold, f, key, x)
      ensures r == if key == "" || key == "." || key == ".." || '/' in key then ValueError else Done
      ensures r == Done && x != f ==>
                && items[f].children == old(items[f].children)[fold(key) := x]
                && items[x] == old(items[x]).(name := key, parent := Some(f))
    {
      if key == "" || key == "." || key == ".." || '/' in key {
        return ValueError;
      }
      items := items[f := items[f].(children := items[f].children[fold(key) := x])];
      items := items[x := items[x].(parent := Some(f), name := key)];
      return Done;
    }

    method Add(f: Oid, x: Oid) returns (r: Outcome)
      requires f in items && x in items
      modifies this`items
      ensures (r, items) == AddTo(old(items), fold, f, x)
    {
      var name := items[x].name;
      if name == "" {
        return ValueError;
      }
      if fold(name) in items[f].children {
        items := items[f := items[f].(children := items[f].children - {fold(name)})];
      }
      r := Save(f, name, x);
    }

    method Remove(f: Oid, name: string) returns (r: Outcome)
      requires f in items
      modifies this`items
      ensures (r, items) == RemoveFrom(old(items), fold, f, name)
      ensures r == if name != "" && fold(name) in old(items[f].children) then Done else Declined
      ensures r == Done ==> items[f] == old(items[f]).(children := old(items[f].children) - {fold(name)})
      ensures forall y | y in items && (y != f || r != Done) :: y in old(items) && items[y] == old(items[y])
    {
      if name == "" || fold(name) !in items[f].children {
        return Declined;
      }
      items := items[f := items[f].(children := items[f].children - {fold(name)})];
      return Done;
    }

    method Rename(f: Oid, oldName: string, newName: string) returns (r: Outcome)
      requires f in items && LinksAgree(items, fold, f)
      modifies this`items
      ensures (r, items) == RenameIn(old(items), fold, f, oldName, newName)
      ensures r == if fold(oldName) in old(items[f].children) then Done else KeyError
    {
      if fold(oldName) !in items[f].children {
        return KeyError;
      }
      var x := items[f].children[fold(oldName)];
      items := items[f := items[f].(children := items[f].children - {fold(oldName)})];
      items := items[x := items[x].(name := newName)];
      items := items[f := items[f].(children := items[f].children[fold(newName) := x])];
      return Done;
    }

    method Move(f: Oid, name: string, target: Oid, newName: Option<string>) returns (r: Outcome)
      requires f in items && target in items && LinksAgree(items, fold, f)
      modifies this`items
      ensures (r, items) == MoveTo(old(items), fold, f, name, target, newName)
      ensures r == if f != target && fold(name) in old(items[f].children) then Done else Declined
    {
      if f == target || fold(name) !in items[f].children {
        return Declined;
      }
      var given := if newName.None? || newName.value == "" then name else newName.value;
      if fold(given) in items[target].children {
        items := items[target := items[target].(children := items[target].children - {fold(given)})];
      }
      assert items == Drop(old(items), fold, target, given);
      var x := items[f].children[fold(name)];
      items := items[f := items[f].(children := items[f].children - {fold(name)})];
      ghost var unlinked := items;
      items := items[x := items[x].(name := given)];
      items := items[target := items[target].(children := items[target].children[fold(given) := x])];
      items := items[x := items[x].(parent := Some(target))];
      NamedBeforeLinked(unlinked, fold, target, given, x);
      return Done;
    }

    /** `copy` is the identity of the new object. */
    method Copy(f: Oid, name: string, target: Oid, newName: Option<string>, copy: Oid) returns (r: Outcome)
      requires f in items && target in items && copy !in items && LinksAgree(items, fold, f)
      modifies this`items
      ensures (r, items) == CopyTo(old(items), fold, f, name, target, newName, copy)
    {
      if fold(name) !in items[f].children {
        return KeyError;
      }
      var given := if newName.None? || newName.value == "" then name else newName.value;
      if f == target && given == name {
        return Declined;
      }
      var x := items[items[f].children[fold(name)]];
      if x.kind != File {
        return AttributeError;
      }
      items := items[copy := Item(x.kind, given, None, map[], x.data)];
      r := Add(target, copy);
    }
  }

  // ---------- Every operation keeps the tree ----------

  /** Nothing links to x. */
  ghost predicate Loose(s: Store, x: Oid)
  {
    forall p, k | p in s && k in s[p].children :: s[p].children[k] != x
  }

  lemma DropKeepsTree(s: Store, fold: Fold, root: Oid, f: Oid, name: string)
    requires IsTree(s, fold, root) && f in s
    ensures IsTree(Drop(s, fold, f, name), fold, root)
  {
    var t := Drop(s, fold, f, name);
    forall p | p in t
      ensures LinksAgree(t, fold, p)
    {
      assert LinksAgree(s, fold, p);
    }
  }

  lemma PutKeepsTree(s: Store, fold: Fold, root: Oid, f: Oid, name: string, x: Oid)
    requires IsTree(s, fold, root) && f in s && x in s && s[x].kind != RootFolder && s[f].kind != File
    requires Loose(s, x)
    ensures IsTree(Put(s, fold, f, name, x), fold, root)
  {
    var t := Put(s, fold, f, name, x);
    forall p | p in t
      ensures LinksAgree(t, fold, p)
    {
      assert LinksAgree(s, fold, p);
    }
  }

  /** A child is linked only where its parent and name say. */
  lemma OneLink(s: Store, fold: Fold, root: Oid, f: Oid, k: string)
    requires IsTree(s, fold, root) && f in s && k in s[f].children
    ensures var x := s[f].children[k]; x in s && s[x].kind != RootFolder && Loose(Unlink(s, f, k), x)
  {
    var x := s[f].children[k];
    assert LinksAgree(s, fold, f);
    forall p, j | p in s && j in s[p].children && s[p].children[j] == x
      ensures p == f && j == k
    {
      assert LinksAgree(s, fold, p);
    }
  }

  /** x is linked nowhere, or just where it would be added again. */
  ghost predicate Addable(s: Store, fold: Fold, f: Oid, x: Oid)
    requires f in s && x in s
  {
    s[x].kind != RootFolder && s[f].kind != File && Loose(Drop(s, fold, f, s[x].name), x)
  }

  lemma AddKeepsTree(s: Store, fold: Fold, root: Oid, f: Oid, x: Oid)
    requires IsTree(s, fold, root) && f in s && x in s && Addable(s, fold, f, x)
    ensures IsTree(AddTo(s, fold, f, x).1, fold, root)
  {
    DropKeepsTree(s, fold, root, f, s[x].name);
    if ValidId(s[x].name) {
      PutKeepsTree(Drop(s, fold, f, s[x].name), fold, root, f, s[x].name, x);
    }
  }

  /** Also onto a key that is used. */
  lemma RenameKeepsTree(s: Store, fold: Fold, root: Oid, f: Oid, oldName: string, newName: string)
    requires IsTree(s, fold, root) && f in s && LinksAgree(s, fold, f)
    ensures IsTree(RenameIn(s, fold, f, oldName, newName).1, fold, root)
  {
    if Has(s, fold, f, oldName) {
      RenameIsPut(s, fold, root, f, oldName, newName);
      DropKeepsTree(s, fold, root, f, oldName);
      OneLink(s, fold, root, f, fold(oldName));
      PutKeepsTree(Unlink(s, f, fold(oldName)), fold, root, f, newName, Child(s, fold, f, oldName));
    }
  }

  /** Renaming comes to taking the item out and putting it back under the new name. */
  lemma RenameIsPut(s: Store, fold: Fold, root: Oid, f: Oid, oldName: string, newName: string)
    requires IsTree(s, fold, root) && f in s && LinksAgree(s, fold, f) && Has(s, fold, f, oldName)
    ensures RenameIn(s, fold, f, oldName, newName)
         == (Done, Put(Unlink(s, f, fold(oldName)), fold, f, newName, Child(s, fold, f, oldName)))
  {
    var x := Child(s, fold, f, oldName);
    var t := Unlink(s, f, fold(oldName));
    NamedBeforeLinked(t, fold, f, newName, x);
    var linked := RenameIn(s, fold, f, oldName, newName).1;
    assert linked[x].parent == Some(f);
    assert linked[x := linked[x].(parent := Some(f))] == linked;
  }

  lemma MoveKeepsTree(s: Store, fold: Fold, root: Oid, f: Oid, name: string, target: Oid, newName: Option<string>)
    requires IsTree(s, fold, root) && f in s && target in s && s[target].kind != File && LinksAgree(s, fold, f)
    ensures IsTree(MoveTo(s, fold, f, name, target, newName).1, fold, root)
  {
    if f != target && Has(s, fold, f, name) {
      var given := GivenName(newName, name);
      var dropped := Drop(s, fold, target, given);
      DropKeepsTree(s, fold, root, target, given);
      DropKeepsTree(dropped, fold, root, f, name);
      OneLink(dropped, fold, root, f, fold(name));
      PutKeepsTree(Unlink(dropped, f, fold(name)), fold, root, target, given, Child(s, fold, f, name));
    }
  }

  /** A copy of a file is a new file of the given name in the target, with the data, in place of what had the name
      there; nothing else changes.  Without the entry, of a folder, or onto itself nothing is copied; under a name that
      is no valid id the copy is linked nowhere. */
  lemma CopyPlaces(s: Store, fold: Fold, f: Oid, name: string, target: Oid, newName: Option<string>, copy: Oid)
    requires f in s && target in s && copy !in s && LinksAgree(s, fold, f)
    ensures var (outcome, t) := CopyTo(s, fold, f, name, target, newName, copy);
            var given := if newName == None || newName == Some("") then name else newName.value;
            if fold(name) !in s[f].children then outcome == KeyError && t == s
            else if f == target && given == name then outcome == Declined && t == s
            else
              var original := s[s[f].children[fold(name)]];
              if original.kind != File then outcome == AttributeError && t == s
              else if given == "" || given == "." || given == ".." || '/' in given then
                outcome == ValueError && copy in t && t[copy].parent == None && target in t
                && (copy in t[target].children.Values ==> copy in s[target].children.Values)
              else
                && outcome == Done && t.Keys == s.Keys + {copy}
                && t[copy] == Item(File, given, Some(target), map[], original.data)
                && t[target] == s[target].(children := s[target].children[fold(given) := copy])
                && forall y | y in s && y != target :: t[y] == s[y]
  {
    if fold(name) in s[f].children {
      var given := GivenName(newName, name);
      var original := s[s[f].children[fold(name)]];
      if original.kind == File && !(f == target && given == name) && ValidId(given) {
        var u := s[copy := Item(File, given, None, map[], original.data)];
        var dropped := Drop(u, fold, target, given);
        var t := CopyTo(s, fold, f, name, target, newName, copy).1;
        assert t == Put(dropped, fold, target, given, copy);
        assert dropped[target].children[fold(given) := copy] == s[target].children[fold(given) := copy];
      }
    }
  }

  lemma CopyKeepsTree(s: Store, fold: Fold, root: Oid, f: Oid, name: string, target: Oid,
                      newName: Option<string>, copy: Oid)
    requires IsTree(s, fold, root) && f in s && target in s && s[target].kind != File && copy !in s
    requires LinksAgree(s, fold, f)
    ensures IsTree(CopyTo(s, fold, f, name, target, newName, copy).1, fold, root)
  {
    if Has(s, fold, f, name) {
      assert LinksAgree(s, fold, f);
      var x := s[Child(s, fold, f, name)];
      var t := s[copy := Item(x.kind, GivenName(newName, name), None, map[], x.data)];
      forall p | p in t
        ensures LinksAgree(t, fold, p)
      {
        assert p in s ==> LinksAgree(s, fold, p);
      }
      forall p, k | p in s && k in s[p].children
        ensures s[p].children[k] != copy
      {
        assert LinksAgree(s, fold, p);
      }
      AddKeepsTree(t, fold, root, target, copy);
    }
  }
}
