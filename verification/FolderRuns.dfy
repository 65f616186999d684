/** What the folder operations attach and lose, and what every run of them keeps. */
module FolderRuns {
  import opened Options
  import opened FolderTree
  import opened ContentFolders

  /** Attached to the root. */
  ghost predicate Attached(s: Store, root: Oid, x: Oid)
  {
    Below(s, root, x)
  }

  /** x is the object under a name of folder f, or below it. */
  ghost predicate InEntry(s: Store, fold: Fold, f: Oid, name: string, x: Oid)
    requires f in s
  {
    Has(s, fold, f, name) && Below(s, Child(s, fold, f, name), x)
  }

  // ---------- Removing ----------

  /** Dropping an entry loses exactly what is in it. */
  lemma DropLoses(s: Store, fold: Fold, root: Oid, f: Oid, name: string, y: Oid)
    requires IsTree(s, fold, root) && f in s && Attached(s, root, f)
    ensures Attached(Drop(s, fold, f, name), root, y) <==> Attached(s, root, y) && !InEntry(s, fold, f, name, y)
  {
    if Has(s, fold, f, name) {
      BelowAfterUnlink(s, fold, root, f, fold(name), y);
    }
  }

  lemma RemoveLoses(s: Store, fold: Fold, root: Oid, f: Oid, name: string, y: Oid)
    requires IsTree(s, fold, root) && f in s && Attached(s, root, f) && name != ""
    ensures Attached(RemoveFrom(s, fold, f, name).1, root, y)
       <==> Attached(s, root, y) && !InEntry(s, fold, f, name, y)
  {
    DropLoses(s, fold, root, f, name, y);
  }

  /** A folder is not in one of its own entries. */
  lemma NotInOwnEntry(s: Store, fold: Fold, root: Oid, f: Oid, name: string)
    requires IsTree(s, fold, root) && f in s && Attached(s, root, f)
    ensures !InEntry(s, fold, f, name, f)
  {
    if Has(s, fold, f, name) {
      NoWayBack(s, fold, root, f, fold(name));
    }
  }

  // ---------- Putting ----------

  lemma PutHasLinks(s: Store, fold: Fold, f: Oid, name: string, x: Oid)
    requires f in s && x in s
    ensures SameLinks(Put(s, fold, f, name, x), Link(s, f, fold(name), x))
  {
  }

  /** Putting an object under an unused key attaches exactly what is below it. */
  lemma PutAttaches(s: Store, fold: Fold, root: Oid, f: Oid, name: string, x: Oid, y: Oid)
    requires f in s && x in s && !Has(s, fold, f, name) && Attached(s, root, f)
    ensures Attached(Put(s, fold, f, name, x), root, y) <==> Attached(s, root, y) || Below(s, x, y)
  {
    PutHasLinks(s, fold, f, name, x);
    SameBelow(Put(s, fold, f, name, x), Link(s, f, fold(name), x), root, y);
    BelowAfterLink(s, f, fold(name), x, root, y);
  }

  /** Putting an object into a folder that is not attached attaches nothing. */
  lemma PutElsewhere(s: Store, fold: Fold, root: Oid, f: Oid, name: string, x: Oid, y: Oid)
    requires f in s && x in s && !Has(s, fold, f, name) && !Attached(s, root, f)
    ensures Attached(Put(s, fold, f, name, x), root, y) <==> Attached(s, root, y)
  {
    var t := Link(s, f, fold(name), x);
    PutHasLinks(s, fold, f, name, x);
    SameBelow(Put(s, fold, f, name, x), t, root, y);
    if Below(t, root, y) {
      var keys :| Walk(t, root, keys) == Some(y);
      NotThrough(s, f, fold(name), x, root, keys, y);
    }
    if Below(s, root, y) {
      var keys :| Walk(s, root, keys) == Some(y);
      WalkAfterLink(s, f, fold(name), x, root, keys, y);
    }
  }

  /** A walk that never meets f does not notice a new link of f. */
  lemma {:induction false} NotThrough(s: Store, f: Oid, k: string, x: Oid, from: Oid, keys: seq<string>, y: Oid)
    requires f in s && k !in s[f].children && !Below(s, from, f) && Walk(Link(s, f, k, x), from, keys) == Some(y)
    ensures Below(s, from, y)
    decreases |keys|
  {
    BelowSelf(s, from);
    if keys != [] {
      var next := s[from].children[keys[0]];
      assert Walk(s, from, [keys[0]]) == Walk(s, next, []) by {
        assert [keys[0]][1..] == [];
      }
      BelowBy(s, from, next, [keys[0]]);
      if Below(s, next, f) {
        BelowTransitive(s, from, next, f);
      }
      NotThrough(s, f, k, x, next, keys[1..], y);
      BelowTransitive(s, from, next, y);
    }
  }

  /** Adding an object replaces what had its name, and attaches what is below the object.  With a name that is
      no valid id the object is refused, but what had the name is lost all the same. */
  lemma AddReplaces(s: Store, fold: Fold, root: Oid, f: Oid, x: Oid, y: Oid)
    requires IsTree(s, fold, root) && f in s && x in s && Addable(s, fold, f, x) && Attached(s, root, f)
    ensures var (outcome, after) := AddTo(s, fold, f, x);
            var name := s[x].name;
            && (outcome == Done <==> ValidId(name))
            && (Attached(after, root, y) <==>
                  || (Attached(s, root, y) && (name == "" || !InEntry(s, fold, f, name, y)))
                  || (outcome == Done && Below(Drop(s, fold, f, name), x, y)))
            && (outcome != Done ==> (after == s <==> name == "" || !Has(s, fold, f, name)))
  {
    var name := s[x].name;
    var dropped := Drop(s, fold, f, name);
    DropLoses(s, fold, root, f, name, y);
    if ValidId(name) {
      NotInOwnEntry(s, fold, root, f, name);
      DropLoses(s, fold, root, f, name, f);
      PutAttaches(dropped, fold, root, f, name, x, y);
    } else {
      DropChanges(s, fold, f, name);
    }
  }

  lemma DropChanges(s: Store, fold: Fold, f: Oid, name: string)
    requires f in s
    ensures Drop(s, fold, f, name) == s <==> !Has(s, fold, f, name)
  {
    if Has(s, fold, f, name) {
      assert fold(name) !in Drop(s, fold, f, name)[f].children;
    }
  }

  /** For example, once a file has been renamed to "a/b", adding another file of that name is refused, and the
      first one is gone. */
  lemma RefusedAdditionLoses(fold: Fold, first: Data, second: Data)
    ensures var s: Store := map[0 := Item(RootFolder, "root", None, map[fold("a/b") := 1], ""),
                                1 := Item(File, "a/b", Some(0), map[], first),
                                2 := Item(File, "a/b", None, map[], second)];
            && IsTree(s, fold, 0) && Attached(s, 0, 1)
            && AddTo(s, fold, 0, 2).0 == ValueError && AddTo(s, fold, 0, 2).1[0].children == map[]
            && !Attached(AddTo(s, fold, 0, 2).1, 0, 1)
  {
    var s: Store := map[0 := Item(RootFolder, "root", None, map[fold("a/b") := 1], ""),
                        1 := Item(File, "a/b", Some(0), map[], first),
                        2 := Item(File, "a/b", None, map[], second)];
    assert Walk(s, 0, [fold("a/b")]) == Some(1) by {
      assert [fold("a/b")][1..] == [];
    }
    BelowSelf(s, 0);
    BelowSelf(s, 1);
    assert '/' in "a/b" by {
      assert "a/b"[1] == '/';
    }
    DropLoses(s, fold, 0, 0, "a/b", 1);
  }

  // ---------- Moving ----------

  /** Below x, dropping an entry of a folder not below x changes nothing. */
  lemma DropElsewhere(s: Store, fold: Fold, f: Oid, name: string, x: Oid, y: Oid)
    requires f in s && !Below(s, x, f)
    ensures Below(Drop(s, fold, f, name), x, y) <==> Below(s, x, y)
  {
    if Has(s, fold, f, name) {
      BelowUntouched(s, f, fold(name), x, y);
    }
  }

  /** Moving into a folder that does not lie in the moved item loses exactly what was under the new name
      in the target, and never the moved item. */
  lemma MoveLosesReplaced(s: Store, fold: Fold, root: Oid, f: Oid, name: string, target: Oid,
                          newName: Option<string>, y: Oid)
    requires IsTree(s, fold, root) && f in s && target in s && LinksAgree(s, fold, f)
    requires Attached(s, root, f) && Attached(s, root, target) && f != target && Has(s, fold, f, name)
    requires !InEntry(s, fold, f, name, target)
    ensures var after := MoveTo(s, fold, f, name, target, newName).1;
            var given := GivenName(newName, name);
            Attached(after, root, y) <==>
              InEntry(s, fold, f, name, y) || (Attached(s, root, y) && !InEntry(s, fold, target, given, y))
  {
    var x := Child(s, fold, f, name);
    var given := GivenName(newName, name);
    var dropped := Drop(s, fold, target, given);
    var unlinked := Unlink(dropped, f, fold(name));
    DropKeepsTree(s, fold, root, target, given);
    NotInOwnEntry(s, fold, root, target, given);
    DropLoses(s, fold, root, target, given, target);
    DropElsewhere(s, fold, target, given, x, y);
    DropElsewhere(s, fold, target, given, x, f);
    DropElsewhere(s, fold, target, given, x, target);
    NotInOwnEntry(s, fold, root, f, name);
    BelowUntouched(dropped, f, fold(name), x, y);
    AttachedAfterBoth(s, fold, root, f, name, target, given, y);
    AttachedAfterBoth(s, fold, root, f, name, target, given, target);
    PutAttaches(unlinked, fold, root, target, given, x, y);
  }

  /** After both entries are gone, what is attached is what was and lay in neither. */
  lemma AttachedAfterBoth(s: Store, fold: Fold, root: Oid, f: Oid, name: string, target: Oid, given: string, y: Oid)
    requires IsTree(s, fold, root) && f in s && target in s && LinksAgree(s, fold, f)
    requires Attached(s, root, f) && Attached(s, root, target) && f != target && Has(s, fold, f, name)
    requires !InEntry(s, fold, f, name, target)
    ensures Attached(Unlink(Drop(s, fold, target, given), f, fold(name)), root, y)
       <==> Attached(s, root, y) && !InEntry(s, fold, target, given, y) && !InEntry(s, fold, f, name, y)
  {
    var x := Child(s, fold, f, name);
    var dropped := Drop(s, fold, target, given);
    DropKeepsTree(s, fold, root, target, given);
    DropLoses(s, fold, root, target, given, y);
    DropLoses(s, fold, root, target, given, f);
    DropElsewhere(s, fold, target, given, x, y);
    if Attached(dropped, root, f) {
      DropLoses(dropped, fold, root, f, name, y);
    } else {
      UnlinkDetached(dropped, f, fold(name), root, y);
      if InEntry(s, fold, f, name, y) {
        assert InEntry(s, fold, target, given, f);
        assert Walk(s, f, [fold(name)]) == Some(x) by {
          assert [fold(name)][1..] == [];
        }
        BelowBy(s, f, x, [fold(name)]);
        BelowTransitive(s, f, x, y);
        BelowTransitive(s, Child(s, fold, target, given), f, y);
      }
    }
  }

  lemma UnlinkDetached(s: Store, f: Oid, k: string, root: Oid, y: Oid)
    requires f in s && k in s[f].children && !Below(s, root, f)
    ensures Below(Unlink(s, f, k), root, y) <==> Below(s, root, y)
  {
    BelowUntouched(s, f, k, root, y);
  }

  /** Moving an item into a folder that lies in it loses the item and all it contains. */
  lemma MoveIntoItselfLoses(s: Store, fold: Fold, root: Oid, f: Oid, name: string, target: Oid,
                            newName: Option<string>, y: Oid)
    requires IsTree(s, fold, root) && f in s && target in s && LinksAgree(s, fold, f)
    requires Attached(s, root, f) && Attached(s, root, target) && f != target && Has(s, fold, f, name)
    requires InEntry(s, fold, f, name, target)
    ensures Attached(MoveTo(s, fold, f, name, target, newName).1, root, y)
       <==> Attached(s, root, y) && !InEntry(s, fold, f, name, y)
  {
    var x := Child(s, fold, f, name);
    var given := GivenName(newName, name);
    var dropped := Drop(s, fold, target, given);
    var unlinked := Unlink(dropped, f, fold(name));
    DropKeepsTree(s, fold, root, target, given);
    AttachedAfterInner(s, fold, root, f, name, target, given, y);
    AttachedAfterInner(s, fold, root, f, name, target, given, target);
    PutElsewhere(unlinked, fold, root, target, given, x, y);
  }

  lemma AttachedAfterInner(s: Store, fold: Fold, root: Oid, f: Oid, name: string, target: Oid, given: string, y: Oid)
    requires IsTree(s, fold, root) && f in s && target in s && LinksAgree(s, fold, f)
    requires Attached(s, root, f) && Attached(s, root, target) && f != target && Has(s, fold, f, name)
    requires InEntry(s, fold, f, name, target)
    ensures Attached(Unlink(Drop(s, fold, target, given), f, fold(name)), root, y)
       <==> Attached(s, root, y) && !InEntry(s, fold, f, name, y)
  {
    var x := Child(s, fold, f, name);
    var dropped := Drop(s, fold, target, given);
    DropKeepsTree(s, fold, root, target, given);
    DropLoses(s, fold, root, target, given, y);
    DropLoses(s, fold, root, target, given, f);
    NotInOwnEntry(s, fold, root, f, name);
    // The entry dropped lies in x, and f does not.
    if InEntry(s, fold, target, given, f) {
      EntryBelow(s, fold, target, given);
      BelowTransitive(s, x, target, Child(s, fold, target, given));
      BelowTransitive(s, x, Child(s, fold, target, given), f);
    }
    DropLoses(dropped, fold, root, f, name, y);
    if Below(s, x, y) && Attached(s, root, y) && !InEntry(s, fold, target, given, y) {
      var keys :| Walk(s, x, keys) == Some(y);
      if Has(s, fold, target, given) {
        WalkAfterUnlink(s, target, fold(given), x, keys, y);
      }
      assert Below(dropped, x, y);
    }
    if InEntry(s, fold, target, given, y) {
      EntryBelow(s, fold, target, given);
      BelowTransitive(s, x, target, Child(s, fold, target, given));
      BelowTransitive(s, x, Child(s, fold, target, given), y);
    }
    if Below(dropped, x, y) && Has(s, fold, target, given) {
      var keys :| Walk(dropped, x, keys) == Some(y);
      WalkAfterUnlink(s, target, fold(given), x, keys, y);
      BelowBy(s, x, y, keys);
    }
  }

  lemma EntryBelow(s: Store, fold: Fold, f: Oid, name: string)
    requires f in s && Has(s, fold, f, name)
    ensures Below(s, f, Child(s, fold, f, name))
  {
    assert [fold(name)][1..] == [];
    assert Walk(s, f, [fold(name)]) == Some(Child(s, fold, f, name));
  }

  /** The moved item stays attached exactly when it is not moved into itself. */
  lemma MovedItemSurvives(s: Store, fold: Fold, root: Oid, f: Oid, name: string, target: Oid, newName: Option<string>)
    requires IsTree(s, fold, root) && f in s && target in s && LinksAgree(s, fold, f)
    requires Attached(s, root, f) && Attached(s, root, target) && f != target && Has(s, fold, f, name)
    ensures Attached(MoveTo(s, fold, f, name, target, newName).1, root, Child(s, fold, f, name))
       <==> !InEntry(s, fold, f, name, target)
  {
    var x := Child(s, fold, f, name);
    BelowSelf(s, x);
    if InEntry(s, fold, f, name, target) {
      MoveIntoItselfLoses(s, fold, root, f, name, target, newName, x);
    } else {
      MoveLosesReplaced(s, fold, root, f, name, target, newName, x);
    }
  }

  // ---------- Renaming ----------

  /** Renaming onto an unused key loses and attaches nothing. */
  lemma RenameOntoUnused(s: Store, fold: Fold, root: Oid, f: Oid, oldName: string, newName: string, y: Oid)
    requires IsTree(s, fold, root) && f in s && LinksAgree(s, fold, f) && Attached(s, root, f)
    requires fold(newName) == fold(oldName) || !Has(s, fold, f, newName)
    ensures Attached(RenameIn(s, fold, f, oldName, newName).1, root, y) <==> Attached(s, root, y)
  {
    if Has(s, fold, f, oldName) {
      var x := Child(s, fold, f, oldName);
      var t := Unlink(s, f, fold(oldName));
      var after := RenameIn(s, fold, f, oldName, newName).1;
      NotInOwnEntry(s, fold, root, f, oldName);
      DropLoses(s, fold, root, f, oldName, y);
      DropLoses(s, fold, root, f, oldName, f);
      BelowUntouched(s, f, fold(oldName), x, y);
      assert SameLinks(after, Link(t, f, fold(newName), x));
      SameBelow(after, Link(t, f, fold(newName), x), root, y);
      BelowAfterLink(t, f, fold(newName), x, root, y);
      if Below(s, x, y) {
        EntryBelow(s, fold, f, oldName);
        BelowTransitive(s, root, f, x);
        BelowTransitive(s, root, x, y);
      }
    }
  }

  /** Renaming onto a used key is renaming after the entry there is dropped. */
  lemma RenameReplaces(s: Store, fold: Fold, f: Oid, oldName: string, newName: string)
    requires f in s && LinksAgree(s, fold, f) && Has(s, fold, f, oldName) && fold(newName) != fold(oldName)
    ensures var t := Drop(s, fold, f, newName);
            && LinksAgree(t, fold, f) && Has(t, fold, f, oldName) && !Has(t, fold, f, newName)
            && RenameIn(s, fold, f, oldName, newName).1 == RenameIn(t, fold, f, oldName, newName).1
  {
    var t := Drop(s, fold, f, newName);
    if Has(s, fold, f, newName) {
      var k, j, x := fold(oldName), fold(newName), Child(s, fold, f, oldName);
      assert ((s[f].children - {j}) - {k})[j := x] == (s[f].children - {k})[j := x];
      assert RenameIn(s, fold, f, oldName, newName).1 == RenameIn(t, fold, f, oldName, newName).1;
    }
  }

  /** Renaming loses exactly what was under the new name, if that is another entry, and attaches nothing. */
  lemma RenameLoses(s: Store, fold: Fold, root: Oid, f: Oid, oldName: string, newName: string, y: Oid)
    requires IsTree(s, fold, root) && f in s && LinksAgree(s, fold, f) && Attached(s, root, f)
    ensures Attached(RenameIn(s, fold, f, oldName, newName).1, root, y)
       <==> Attached(s, root, y) && !(&& Has(s, fold, f, oldName) && fold(newName) != fold(oldName)
                                      && InEntry(s, fold, f, newName, y))
  {
    if Has(s, fold, f, oldName) && fold(newName) != fold(oldName) {
      var t := Drop(s, fold, f, newName);
      DropKeepsTree(s, fold, root, f, newName);
      NotInOwnEntry(s, fold, root, f, newName);
      DropLoses(s, fold, root, f, newName, f);
      DropLoses(s, fold, root, f, newName, y);
      RenameReplaces(s, fold, f, oldName, newName);
      RenameOntoUnused(t, fold, root, f, oldName, newName, y);
    } else if Has(s, fold, f, oldName) {
      RenameOntoUnused(s, fold, root, f, oldName, newName, y);
    }
  }

  // ---------- Runs ----------

  datatype Action =
    | CreateItem(x: Oid, kind: Kind, name: string, data: Data)
    | AddItem(f: Oid, x: Oid)
    | RemoveItem(f: Oid, name: string)
    | RenameItem(f: Oid, name: string, newName: string)
    | MoveItem(f: Oid, name: string, target: Oid, given: Option<string>)
    | CopyItem(f: Oid, name: string, target: Oid, given: Option<string>, copy: Oid)

  /** New objects have new identities, and what is added is not already elsewhere. */
  ghost predicate Enabled(s: Store, fold: Fold, a: Action)
  {
    match a
    case CreateItem(x, kind, _, _) => x !in s && kind != RootFolder
    case AddItem(f, x) => f in s && x in s && Addable(s, fold, f, x)
    case RemoveItem(f, _) => f in s
    case RenameItem(f, _, _) => f in s && LinksAgree(s, fold, f)
    case MoveItem(f, _, target, _) => f in s && target in s && s[target].kind != File && LinksAgree(s, fold, f)
    case CopyItem(f, _, target, _, copy) =>
      f in s && target in s && s[target].kind != File && copy !in s && LinksAgree(s, fold, f)
  }

  ghost function Step(s: Store, fold: Fold, a: Action): Store
    requires Enabled(s, fold, a)
  {
    match a
    case CreateItem(x, kind, name, data) => s[x := Item(kind, name, None, map[], data)]
    case AddItem(f, x) => AddTo(s, fold, f, x).1
    case RemoveItem(f, name) => RemoveFrom(s, fold, f, name).1
    case RenameItem(f, name, newName) => RenameIn(s, fold, f, name, newName).1
    case MoveItem(f, name, target, given) => MoveTo(s, fold, f, name, target, given).1
    case CopyItem(f, name, target, given, copy) => CopyTo(s, fold, f, name, target, given, copy).1
  }

  ghost function Run(s: Store, fold: Fold, actions: seq<Action>): Store
    decreases |actions|
  {
    if actions == [] then s
    else
      Run(if Enabled(s, fold, actions[0]) then Step(s, fold, actions[0]) else s, fold, actions[1..])
  }

  lemma StepKeepsTree(s: Store, fold: Fold, root: Oid, a: Action)
    requires IsTree(s, fold, root) && Enabled(s, fold, a)
    ensures IsTree(Step(s, fold, a), fold, root)
  {
    match a {
      case CreateItem(x, kind, name, data) =>
        var t := Step(s, fold, a);
        forall p | p in t
          ensures LinksAgree(t, fold, p)
        {
          assert p in s ==> LinksAgree(s, fold, p);
        }
      case AddItem(f, x) => AddKeepsTree(s, fold, root, f, x);
      case RemoveItem(f, name) => DropKeepsTree(s, fold, root, f, name);
      case RenameItem(f, name, newName) => RenameKeepsTree(s, fold, root, f, name, newName);
      case MoveItem(f, name, target, given) => MoveKeepsTree(s, fold, root, f, name, target, given);
      case CopyItem(f, name, target, given, copy) => CopyKeepsTree(s, fold, root, f, name, target, given, copy);
    }
  }

  /** Every run keeps a tree in which each child's parent and name match the folder and key that hold it. */
  lemma {:induction false} RunKeepsTree(s: Store, fold: Fold, root: Oid, actions: seq<Action>)
    requires IsTree(s, fold, root)
    ensures IsTree(Run(s, fold, actions), fold, root)
    decreases |actions|
  {
    if actions != [] {
      if Enabled(s, fold, actions[0]) {
        StepKeepsTree(s, fold, root, actions[0]);
        RunKeepsTree(Step(s, fold, actions[0]), fold, root, actions[1..]);
      } else {
        RunKeepsTree(s, fold, root, actions[1..]);
      }
    }
  }
}
