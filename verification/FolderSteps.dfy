/** Where paths lead, in terms of the keys from the root: '..' takes the last key off, names put one on. */
module FolderSteps {
  import opened Options
  import opened FolderTree
  import opened ContentFolders
  import opened FolderPaths
  import opened FilePaths

  /** The keys after one segment. */
  function KeyStep(fold: Fold, keys: seq<string>, segment: string): seq<string>
  {
    if segment == "." then keys
    else if segment == ".." then (if keys == [] then [] else keys[..|keys| - 1])
    else keys + [fold(segment)]
  }

  function KeysAfter(fold: Fold, keys: seq<string>, segments: seq<string>): seq<string>
    decreases |segments|
  {
    if segments == [] then keys else KeysAfter(fold, KeyStep(fold, keys, segments[0]), segments[1..])
  }

  /** Something is there after the first i segments. */
  ghost predicate IsThere(s: Store, fold: Fold, root: Oid, keys: seq<string>, segments: seq<string>, i: nat)
    requires i <= |segments|
  {
    Walk(s, root, KeysAfter(fold, keys, segments[..i])).Some?
  }

  lemma ThereLater(s: Store, fold: Fold, root: Oid, keys: seq<string>, segments: seq<string>, i: nat)
    requires segments != [] && i < |segments|
    ensures IsThere(s, fold, root, keys, segments, i + 1)
       <==> IsThere(s, fold, root, KeyStep(fold, keys, segments[0]), segments[1..], i)
    ensures IsThere(s, fold, root, keys, segments, 0) <==> Walk(s, root, keys).Some?
  {
    assert segments[..i + 1][1..] == segments[1..][..i] && segments[..i + 1][0] == segments[0];
    assert segments[..0] == [];
  }

  // ---------- Following ----------

  lemma UpTakesKeyOff(s: Store, fold: Fold, root: Oid, keys: seq<string>, x: Oid)
    requires IsTree(s, fold, root) && Walk(s, root, keys) == Some(x)
    ensures Walk(s, root, KeyStep(fold, keys, "..")) == Some(Up(s, root, x))
  {
    if keys == [] {
      assert x == root;
    } else {
      LastStep(s, fold, root, root, keys, x);
      assert s[root].parent == None && s[x].parent.Some?;
    }
  }

  lemma OneSegment(s: Store, fold: Fold, root: Oid, keys: seq<string>, x: Oid, segment: string)
    requires IsTree(s, fold, root) && Walk(s, root, keys) == Some(x)
    ensures x in s
    ensures var r, y := ResolveOne(s, fold, root, x, segment), Walk(s, root, KeyStep(fold, keys, segment));
            if y.Some? then r == Found(y.value)
            else r == if s[x].kind == File then NotDirectory else NoSuchFile
  {
    WalkStays(s, fold, root, root, keys);
    UpTakesKeyOff(s, fold, root, keys, x);
    WalkConcat(s, root, keys, [fold(segment)]);
    assert [fold(segment)][1..] == [];
    assert LinksAgree(s, fold, x);
  }

  /** A path leads from an object to where the keys after it lead from the root, if something is there after each of
      its segments; otherwise following it fails at the first segment after which nothing is: at a file as no
      directory. */
  lemma {:induction false} ResolveByKeys(s: Store, fold: Fold, root: Oid, keys: seq<string>, x: Oid,
                                        segments: seq<string>)
    requires IsTree(s, fold, root) && Walk(s, root, keys) == Some(x)
    ensures var r := Resolve(s, fold, root, x, segments);
            && (r.Found? <==> forall i | 0 <= i <= |segments| :: IsThere(s, fold, root, keys, segments, i))
            && (r.Found? ==> Walk(s, root, KeysAfter(fold, keys, segments)) == Some(r.x))
            && (!r.Found? ==> exists i | 0 <= i < |segments| :: FailsAt(s, fold, root, keys, segments, i, r))
    decreases |segments|
  {
    hide Walk, IsTree, ResolveOne;
    if segments == [] {
      NothingLeft(s, fold, root, keys, segments);
    } else {
      var next := KeyStep(fold, keys, segments[0]);
      var r := Resolve(s, fold, root, x, segments);
      OneSegment(s, fold, root, keys, x, segments[0]);
      forall i | 0 <= i < |segments|
        ensures IsThere(s, fold, root, keys, segments, i + 1) <==> IsThere(s, fold, root, next, segments[1..], i)
      {
        ThereLater(s, fold, root, keys, segments, i);
      }
      ThereLater(s, fold, root, keys, segments, 0);
      if Walk(s, root, next).Some? {
        ResolveByKeys(s, fold, root, next, Walk(s, root, next).value, segments[1..]);
        LaterOnes(s, fold, root, keys, next, segments);
        if !r.Found? {
          var i :| 0 <= i < |segments[1..]| && FailsAt(s, fold, root, next, segments[1..], i, r);
          FailsLater(s, fold, root, keys, segments, i, r);
        }
      } else {
        FailsFirst(s, fold, root, keys, x, segments, r);
      }
    }
  }

  /** There is something after i segments, and nothing after one more. */
  ghost predicate FailsAt(s: Store, fold: Fold, root: Oid, keys: seq<string>, segments: seq<string>, i: nat, r: Result)
    requires i < |segments|
  {
    && (forall j | 0 <= j < i :: IsThere(s, fold, root, keys, segments, j))
    && IsThere(s, fold, root, keys, segments, i) && !IsThere(s, fold, root, keys, segments, i + 1)
    && var y := Walk(s, root, KeysAfter(fold, keys, segments[..i])).value;
       y in s && r == if s[y].kind == File then NotDirectory else NoSuchFile
  }

  lemma NothingLeft(s: Store, fold: Fold, root: Oid, keys: seq<string>, segments: seq<string>)
    requires segments == []
    ensures KeysAfter(fold, keys, segments) == keys
    ensures forall i | 0 <= i <= |segments| :: IsThere(s, fold, root, keys, segments, i) <==> Walk(s, root, keys).Some?
  {
    assert segments[..0] == [];
  }

  lemma LaterOnes(s: Store, fold: Fold, root: Oid, keys: seq<string>, next: seq<string>, segments: seq<string>)
    requires segments != [] && next == KeyStep(fold, keys, segments[0]) && Walk(s, root, keys).Some?
    requires forall i | 0 <= i < |segments| ::
               IsThere(s, fold, root, keys, segments, i + 1) <==> IsThere(s, fold, root, next, segments[1..], i)
    ensures (forall i | 0 <= i <= |segments| :: IsThere(s, fold, root, keys, segments, i))
       <==> (forall i | 0 <= i <= |segments[1..]| :: IsThere(s, fold, root, next, segments[1..], i))
    ensures KeysAfter(fold, keys, segments) == KeysAfter(fold, next, segments[1..])
  {
    ThereLater(s, fold, root, keys, segments, 0);
    if forall i | 0 <= i <= |segments| :: IsThere(s, fold, root, keys, segments, i) {
      forall i | 0 <= i <= |segments[1..]|
        ensures IsThere(s, fold, root, next, segments[1..], i)
      {
        assert IsThere(s, fold, root, keys, segments, i + 1);
      }
    }
    if forall i | 0 <= i <= |segments[1..]| :: IsThere(s, fold, root, next, segments[1..], i) {
      forall i | 0 < i <= |segments|
        ensures IsThere(s, fold, root, keys, segments, i)
      {
        assert IsThere(s, fold, root, next, segments[1..], i - 1);
        assert IsThere(s, fold, root, keys, segments, (i - 1) + 1);
      }
    }
  }

  lemma FailsLater(s: Store, fold: Fold, root: Oid, keys: seq<string>, segments: seq<string>, i: nat, r: Result)
    requires segments != [] && i < |segments[1..]| && Walk(s, root, keys).Some?
    requires FailsAt(s, fold, root, KeyStep(fold, keys, segments[0]), segments[1..], i, r)
    ensures FailsAt(s, fold, root, keys, segments, i + 1, r)
  {
    hide IsThere, Walk, KeyStep;
    SameFront(fold, keys, segments, i);
    ThereLater(s, fold, root, keys, segments, i + 1);
    ThereLater(s, fold, root, keys, segments, i);
    forall j | 0 <= j < i + 1
      ensures IsThere(s, fold, root, keys, segments, j)
    {
      ThereLater(s, fold, root, keys, segments, if j == 0 then 0 else j - 1);
    }
    Something(s, fold, root, keys, segments, i + 1);
  }

  lemma SameFront(fold: Fold, keys: seq<string>, segments: seq<string>, i: nat)
    requires segments != [] && i < |segments|
    ensures KeysAfter(fold, keys, segments[..i + 1])
         == KeysAfter(fold, KeyStep(fold, keys, segments[0]), segments[1..][..i])
  {
    assert segments[..i + 1][1..] == segments[1..][..i] && segments[..i + 1][0] == segments[0];
  }

  lemma Something(s: Store, fold: Fold, root: Oid, keys: seq<string>, segments: seq<string>, i: nat)
    requires i <= |segments|
    ensures IsThere(s, fold, root, keys, segments, i) <==> Walk(s, root, KeysAfter(fold, keys, segments[..i])).Some?
  {
  }

  lemma FailsFirst(s: Store, fold: Fold, root: Oid, keys: seq<string>, x: Oid, segments: seq<string>, r: Result)
    requires segments != [] && Walk(s, root, keys) == Some(x) && x in s
    requires Walk(s, root, KeyStep(fold, keys, segments[0])).None?
    requires r == if s[x].kind == File then NotDirectory else NoSuchFile
    ensures FailsAt(s, fold, root, keys, segments, 0, r) && !IsThere(s, fold, root, keys, segments, 1)
  {
    ThereLater(s, fold, root, keys, segments, 0);
    assert segments[..0] == [];
    NothingLeft(s, fold, root, KeyStep(fold, keys, segments[0]), []);
    assert segments[1..][..0] == [];
  }

  // ---------- Up and down ----------

  function Folded(fold: Fold, names: seq<string>): (r: seq<string>)
    ensures |r| == |names| && forall i | 0 <= i < |names| :: r[i] == fold(names[i])
  {
    if names == [] then [] else [fold(names[0])] + Folded(fold, names[1..])
  }

  lemma {:induction false} KeysConcat(fold: Fold, keys: seq<string>, a: seq<string>, b: seq<string>)
    ensures KeysAfter(fold, keys, a + b) == KeysAfter(fold, KeysAfter(fold, keys, a), b)
    decreases |a|
  {
    if a == [] {
      assert a + b == b;
    } else {
      assert (a + b)[1..] == a[1..] + b && (a + b)[0] == a[0];
      KeysConcat(fold, KeyStep(fold, keys, a[0]), a[1..], b);
    }
  }

  lemma {:induction false} KeysUp(fold: Fold, keys: seq<string>, u: nat)
    ensures KeysAfter(fold, keys, Ups(u)) == if u <= |keys| then keys[..|keys| - u] else []
    decreases u
  {
    if u > 0 {
      assert Ups(u)[1..] == Ups(u - 1);
      KeysUp(fold, KeyStep(fold, keys, ".."), u - 1);
    }
  }

  lemma {:induction false} KeysDown(fold: Fold, keys: seq<string>, names: seq<string>)
    requires AllValid(names)
    ensures KeysAfter(fold, keys, names) == keys + Folded(fold, names)
    decreases |names|
  {
    hide *;
    if names == [] {
      NothingDown(fold, keys, names);
    } else {
      OneDown(fold, keys, names);
      KeysDown(fold, keys + [fold(names[0])], names[1..]);
    }
  }

  lemma NothingDown(fold: Fold, keys: seq<string>, names: seq<string>)
    requires names == []
    ensures KeysAfter(fold, keys, names) == keys + Folded(fold, names)
  {
  }

  lemma OneDown(fold: Fold, keys: seq<string>, names: seq<string>)
    requires names != [] && AllValid(names)
    ensures AllValid(names[1..])
    ensures KeysAfter(fold, keys, names) == KeysAfter(fold, keys + [fold(names[0])], names[1..])
    ensures (keys + [fold(names[0])]) + Folded(fold, names[1..]) == keys + Folded(fold, names)
  {
    assert ValidId(names[0]);
    assert forall i | 0 <= i < |names[1..]| :: names[1..][i] == names[i + 1];
  }

  /** The keys, some taken off and the names put on. */
  function KeysTo(fold: Fold, keys: seq<string>, u: nat, names: seq<string>): seq<string>
  {
    (if u <= |keys| then keys[..|keys| - u] else []) + Folded(fold, names)
  }

  lemma JoinStartsWith(segments: seq<string>)
    requires segments != [] && segments[0] != "" && '/' !in segments[0]
    ensures Join(segments) != "" && !("/" <= Join(segments))
  {
    assert Join(segments)[0] == segments[0][0];
    assert segments[0][0] in segments[0];
  }

  lemma GoodSegments(u: nat, names: seq<string>)
    requires AllValid(names)
    ensures |Ups(u) + names| == u + |names|
    ensures forall i | 0 <= i < |Ups(u) + names| :: (Ups(u) + names)[i] != "" && '/' !in (Ups(u) + names)[i]
  {
    forall i | 0 <= i < |Ups(u) + names|
      ensures (Ups(u) + names)[i] != "" && '/' !in (Ups(u) + names)[i]
    {
      if i < u {
        assert (Ups(u) + names)[i] == "..";
      } else {
        assert ValidId(names[i - u]) && (Ups(u) + names)[i] == names[i - u];
      }
    }
  }

  /** The path written out cuts back into its segments. */
  lemma PathSegments(u: nat, names: seq<string>)
    requires AllValid(names) && u + |names| > 0
    ensures var path := Join(Ups(u) + names);
            path != "" && !("/" <= path) && Segments(path) == Ups(u) + names
  {
    hide Split, Join, Ups, AllValid;
    var segments := Ups(u) + names;
    GoodSegments(u, names);
    SplitUndoesJoin(segments);
    JoinStartsWith(segments);
  }

  /** Every prefix of keys that lead somewhere does. */
  lemma WalkPrefix(s: Store, root: Oid, keys: seq<string>, i: nat)
    requires Walk(s, root, keys).Some? && i <= |keys|
    ensures Walk(s, root, keys[..i]).Some?
  {
    assert keys == keys[..i] + keys[i..];
    WalkConcat(s, root, keys[..i], keys[i..]);
  }

  lemma KeysOfFront(fold: Fold, keys: seq<string>, u: nat, names: seq<string>, i: nat)
    requires AllValid(names) && i <= u + |names|
    ensures KeysAfter(fold, keys, (Ups(u) + names)[..i])
         == if i <= u then KeysTo(fold, keys, i, []) else KeysTo(fold, keys, u, names[..i - u])
  {
    if i <= u {
      assert (Ups(u) + names)[..i] == Ups(i);
      KeysUp(fold, keys, i);
      assert KeysTo(fold, keys, i, []) == KeysAfter(fold, keys, Ups(i));
    } else {
      assert (Ups(u) + names)[..i] == Ups(u) + names[..i - u];
      KeysConcat(fold, keys, Ups(u), names[..i - u]);
      KeysUp(fold, keys, u);
      assert forall j | 0 <= j < i - u :: ValidId(names[j]);
      KeysDown(fold, KeysAfter(fold, keys, Ups(u)), names[..i - u]);
    }
  }

  /** `traverse(n, "../../a/b")`: from n, so many folders up, but not above the root, and down by the names; it finds
      what is there, and something exactly if something is. */
  lemma UpAndDown(s: Store, fold: Fold, root: Oid, keys: seq<string>, n: Oid, u: nat, names: seq<string>)
    requires IsTree(s, fold, root) && Walk(s, root, keys) == Some(n) && AllValid(names) && u + |names| > 0
    ensures var r := Traversed(s, fold, root, n, Join(Ups(u) + names));
            var there := Walk(s, root, KeysTo(fold, keys, u, names));
            && (r.Found? <==> there.Some?) && (r.Found? ==> there == Some(r.x))
  {
    hide Walk, IsTree, Segments, Join, Resolve, KeysAfter, Folded;
    var segments := Ups(u) + names;
    PathSegments(u, names);
    ResolveByKeys(s, fold, root, keys, n, segments);
    KeysOfFront(fold, keys, u, names, |segments|);
    assert segments[..|segments|] == segments && names[..|names|] == names;
    NoNames(fold, keys, u);
    if Walk(s, root, KeysTo(fold, keys, u, names)).Some? {
      forall i | 0 <= i <= |segments|
        ensures IsThere(s, fold, root, keys, segments, i)
      {
        KeysOfFront(fold, keys, u, names, i);
        FrontIsThere(s, fold, root, keys, u, names, i);
      }
    } else {
      assert !IsThere(s, fold, root, keys, segments, |segments|);
    }
  }

  lemma NoNames(fold: Fold, keys: seq<string>, u: nat)
    ensures Folded(fold, []) == []
    ensures KeysTo(fold, keys, u, []) == if u <= |keys| then keys[..|keys| - u] else []
  {
  }

  lemma FrontIsThere(s: Store, fold: Fold, root: Oid, keys: seq<string>, u: nat, names: seq<string>, i: nat)
    requires Walk(s, root, keys).Some? && Walk(s, root, KeysTo(fold, keys, u, names)).Some? && i <= u + |names|
    ensures Walk(s, root, if i <= u then KeysTo(fold, keys, i, []) else KeysTo(fold, keys, u, names[..i - u])).Some?
  {
    hide *;
    if i <= u {
      NoNames(fold, keys, i);
      WalkPrefix(s, root, keys, if i <= |keys| then |keys| - i else 0);
      assert keys[..0] == [];
    } else {
      var j := FrontOfKeys(fold, keys, u, names, i - u);
      WalkPrefix(s, root, KeysTo(fold, keys, u, names), j);
    }
  }

  lemma FrontOfKeys(fold: Fold, keys: seq<string>, u: nat, names: seq<string>, k: nat) returns (j: nat)
    requires k <= |names|
    ensures j <= |KeysTo(fold, keys, u, names)|
    ensures KeysTo(fold, keys, u, names)[..j] == KeysTo(fold, keys, u, names[..k])
  {
    var above := if u <= |keys| then keys[..|keys| - u] else [];
    j := |above| + k;
    FoldedFront(fold, names, k);
    hide Folded;
    PrefixOfSum(above, Folded(fold, names), k);
  }

  lemma FoldedFront(fold: Fold, names: seq<string>, k: nat)
    requires k <= |names|
    ensures Folded(fold, names[..k]) == Folded(fold, names)[..k]
  {
  }

  lemma PrefixOfSum(a: seq<string>, b: seq<string>, k: nat)
    requires k <= |b|
    ensures (a + b)[..|a| + k] == a + b[..k]
  {
  }

  // ---------- Making folders ----------

  /** The key of a folder made for a segment. */
  function SafeFold(fold: Fold, safe: Safe): Fold
  {
    segment => fold(safe(segment))
  }

  lemma {:induction false} WalkExtends(s: Store, t: Store, x: Oid, keys: seq<string>)
    requires Extends(s, t) && Walk(s, x, keys).Some?
    ensures Walk(t, x, keys) == Walk(s, x, keys)
    decreases |keys|
  {
    if keys != [] {
      WalkExtends(s, t, s[x].children[keys[0]], keys[1..]);
    }
  }

  lemma OneMade(s: Store, fold: Fold, safe: Safe, root: Oid, keys: seq<string>, x: Oid, segment: string, next: Oid)
    requires IsTree(s, fold, root) && Unused(s, next) && Walk(s, root, keys) == Some(x)
    ensures x in s
    ensures var p := MakeOne(s, fold, safe, root, x, segment, next);
            && IsTree(p.store, fold, root) && Unused(p.store, p.next) && Extends(s, p.store)
            && (p.result.Found? ==>
                  Walk(p.store, root, KeyStep(SafeFold(fold, safe), keys, segment)) == Some(p.result.x))
            && (segment in {".", ".."} ==> p.result.Found? && p.store == s)
            && (segment !in {".", ".."} ==>
                  if s[x].kind == File then p.result == NotDirectory && p.store == s
                  else if fold(safe(segment)) in s[x].children then p.result.Found? && p.store == s
                  else if ValidId(safe(segment)) then
                    p.result == Found(next) && IsNewFolder(p.store, safe(segment), x, next)
                  else p.result == BadName && p.store == s)
  {
    WalkStays(s, fold, root, root, keys);
    TreeIsClosed(s, fold, root, next);
    MakeOneExtends(s, fold, safe, root, x, segment, next);
    MakeOneKeepsTree(s, fold, safe, root, x, segment, next);
    UpTakesKeyOff(s, fold, root, keys, x);
    var p := MakeOne(s, fold, safe, root, x, segment, next);
    WalkExtends(s, p.store, root, keys);
    var k := fold(safe(segment));
    WalkConcat(p.store, root, keys, [k]);
    assert [k][1..] == [];
    hide Walk, IsTree;
    if segment !in {".", ".."} && s[x].kind != File && k !in s[x].children && ValidId(safe(segment)) {
      NewFolderExtends(s, fold, x, safe(segment), next);
    }
  }

  /** An empty folder of this name in that folder. */
  predicate IsNewFolder(t: Store, name: string, parent: Oid, x: Oid)
  {
    x in t && t[x] == Item(Folder, name, Some(parent), map[], "")
  }

  /** Making the folders of a path ends, if it does not fail, where the keys after it lead from the root in the new
      store, in which everything there was is still there; it fails only at a file or a name that is no valid id. */
  lemma {:induction false} MakeByKeys(s: Store, fold: Fold, safe: Safe, root: Oid, keys: seq<string>, x: Oid,
                                     segments: seq<string>, next: Oid)
    requires IsTree(s, fold, root) && Unused(s, next) && Walk(s, root, keys) == Some(x)
    ensures var p := Make(s, fold, safe, root, x, segments, next);
            && (p.result.Found? ==>
                  Walk(p.store, root, KeysAfter(SafeFold(fold, safe), keys, segments)) == Some(p.result.x))
            && Extends(s, p.store)
            && (p.result == BadName ==> exists i | 0 <= i < |segments| :: !ValidId(safe(segments[i])))
            && p.result != NoSuchFile
    decreases |segments|
  {
    if segments == [] {
    } else {
      hide Walk, IsTree, MakeOne, Extends, Unused, KeyStep, SafeFold, IsNewFolder, ValidId;
      OneMade(s, fold, safe, root, keys, x, segments[0], next);
      var p := MakeOne(s, fold, safe, root, x, segments[0], next);
      if p.result.Found? {
        var after := KeyStep(SafeFold(fold, safe), keys, segments[0]);
        MakeByKeys(p.store, fold, safe, root, after, p.result.x, segments[1..], p.next);
        var q := Make(p.store, fold, safe, root, p.result.x, segments[1..], p.next);
        ExtendsTransitive(s, p.store, q.store);
        if q.result == BadName {
          var i :| 0 <= i < |segments[1..]| && !ValidId(safe(segments[1..][i]));
          assert !ValidId(safe(segments[i + 1]));
        }
      }
    }
  }

  /** `mkdirs(n, "../../a/b")`: from n, so many folders up, but not above the root, and down by the names, which are
      there afterwards. */
  lemma MadeUpAndDown(s: Store, fold: Fold, safe: Safe, root: Oid, keys: seq<string>, n: Oid, u: nat,
                      names: seq<string>, next: Oid)
    requires IsTree(s, fold, root) && Unused(s, next) && Walk(s, root, keys) == Some(n)
    requires AllValid(names) && u + |names| > 0
    ensures var p := Made(s, fold, safe, root, n, Join(Ups(u) + names), next);
            && (p.result.Found? ==>
                  Walk(p.store, root, KeysTo(SafeFold(fold, safe), keys, u, names)) == Some(p.result.x))
            && Extends(s, p.store)
            && (p.result == BadName ==> exists i | 0 <= i < u + |names| :: !ValidId(safe((Ups(u) + names)[i])))
            && p.result != NoSuchFile
  {
    hide Walk, IsTree, Segments, Join, Make, Extends, SafeFold, ValidId, KeysAfter;
    var segments := Ups(u) + names;
    PathSegments(u, names);
    MakeByKeys(s, fold, safe, root, keys, n, segments, next);
    KeysOfFront(SafeFold(fold, safe), keys, u, names, |segments|);
    assert segments[..|segments|] == segments && names[..|names|] == names;
    NoNames(SafeFold(fold, safe), keys, u);
  }

  // ---------- Forms of paths ----------

  /** A path that begins with '/' is followed from the root, and a '/' at its end is ignored; no path at all is the
      root. */
  lemma PathForms(s: Store, fold: Fold, safe: Safe, root: Oid, n: Oid, path: string, next: Oid)
    requires path != "" && path[0] != '/' && path[|path| - 1] != '/'
    ensures Traversed(s, fold, root, n, "") == Traversed(s, fold, root, n, "/") == Found(root)
    ensures Made(s, fold, safe, root, n, "", next) == Made(s, fold, safe, root, n, "/", next)
         == Progress(s, next, Found(root))
    ensures Traversed(s, fold, root, n, path + "/") == Traversed(s, fold, root, n, path)
    ensures Made(s, fold, safe, root, n, path + "/", next) == Made(s, fold, safe, root, n, path, next)
    ensures Traversed(s, fold, root, n, "/" + path) == Traversed(s, fold, root, root, path)
    ensures Made(s, fold, safe, root, n, "/" + path, next) == Made(s, fold, safe, root, root, path, next)
  {
    TrailingSlash(path);
    hide Resolve, Make, Segments;
    assert ("/" + path)[1..] == path && (path + "/")[0] == path[0];
  }

  lemma TrailingSlash(path: string)
    requires path != "" && path[|path| - 1] != '/'
    ensures Segments(path + "/") == Segments(path) == Split(path)
  {
    SplitConcat(path, "");
    assert path + "/" + "" == path + "/" && Split("") == [""];
    LastSegment(path);
    assert (Split(path) + [""])[..|Split(path)|] == Split(path);
  }

  lemma {:induction false} LastSegment(path: string)
    requires path != "" && path[|path| - 1] != '/'
    ensures Split(path)[|Split(path)| - 1] != ""
    decreases |path|
  {
    var head := Head(path);
    if |head| < |path| {
      LastSegment(path[|head| + 1..]);
    }
  }
}
