/** The flat keys of a bucket that mirrors the folders, and their renaming. */
module FolderKeys {
  import opened Options
  import opened FolderTree
  import opened ContentFolders
  import opened FolderPaths

  type Bucket = map<string, Data>

  // ---------- The key of an object ----------

  predicate IsContainer(s: Store, x: Oid)
    requires x in s
  {
    s[x].kind != File
  }

  /** The names from the root, joined; containers end in '/', and the root has the empty key. */
  ghost function KeyOf(s: Store, root: Oid, keys: seq<string>): string
    requires Walk(s, root, keys).Some? && Walk(s, root, keys).value in s
  {
    if keys == [] then ""
    else Join(Names(s, root, keys)) + if IsContainer(s, Walk(s, root, keys).value) then "/" else ""
  }

  /** `get_key` */
  method GetKey(s: Store, fold: Fold, root: Oid, x: Oid, ghost keys: seq<string>) returns (key: string)
    requires IsTree(s, fold, root) && Walk(s, root, keys) == Some(x) && x in s
    ensures key == KeyOf(s, root, keys)
    ensures key == if keys == [] then "" else Join(Names(s, root, keys)) + if s[x].kind == File then "" else "/"
  {
    hide Names, Reversed, Walk, Join;
    var path: seq<string> := [];
    var current := x;
    ghost var above := keys;
    OnlyTheTopIsRoot(s, fold, root, above, current);
    NothingCollected(s, root, keys);
    while s[current].kind != RootFolder
      invariant Walk(s, root, above) == Some(current)
      invariant current in s && (s[current].kind == RootFolder <==> above == [])
      invariant |path| == |keys| - |above|
      invariant Names(s, root, keys) == Names(s, root, above) + Reversed(path)
      decreases |above|
    {
      ClimbOne(s, fold, root, above, current, path);
      path := path + [s[current].name];
      current := s[current].parent.value;
      above := above[..|above| - 1];
      OnlyTheTopIsRoot(s, fold, root, above, current);
    }
    NothingAbove(s, root, path);
    key := "";
    if path != [] {
      key := Join(Reversed(path));
      if IsContainer(s, x) {
        key := key + "/";
      }
    }
  }

  // ---------- Renaming keys ----------

  /** Copies key k to its place under the new prefix and deletes it. */
  function RenameOne(b: Bucket, k: string, oldKey: string, newKey: string): Bucket
    requires k in b && oldKey <= k
  {
    b[newKey + k[|oldKey|..] := b[k]] - {k}
  }

  /** Different keys of the bucket, all with a prefix, in any order. */
  ghost predicate Snapshot(b: Bucket, prefix: string, ks: seq<string>)
  {
    && (forall i | 0 <= i < |ks| :: ks[i] in b && prefix <= ks[i])
    && (forall i, j | 0 <= i < j < |ks| :: ks[i] != ks[j])
  }

  lemma SnapshotFront(b: Bucket, prefix: string, ks: seq<string>, i: nat)
    requires Snapshot(b, prefix, ks) && i <= |ks|
    ensures Snapshot(b, prefix, ks[..i])
    ensures i < |ks| ==> ks[i] !in ks[..i] && ks[i] in b && prefix <= ks[i]
  {
  }

  /** What the bucket lists for a prefix: all the keys that have it. */
  ghost predicate Listing(b: Bucket, prefix: string, ks: seq<string>)
  {
    Snapshot(b, prefix, ks) && forall k | k in b && prefix <= k :: k in ks
  }

  /** Neither key is a prefix of the other. */
  predicate Unrelated(oldKey: string, newKey: string)
  {
    !(oldKey <= newKey) && !(newKey <= oldKey)
  }

  /** Moving the one key away moves nothing onto it or from under it. */
  predicate CanRename(oldKey: string, newKey: string)
  {
    if EndsInSlash(oldKey) then Unrelated(oldKey, newKey) else oldKey != newKey
  }

  /** b with every key under the old prefix moved under the new one, over what is there; all other keys
      stay. */
  ghost predicate IsRenamed(b: Bucket, after: Bucket, oldKey: string, newKey: string)
  {
    && (forall k | k in b && oldKey <= k ::
          newKey + k[|oldKey|..] in after && after[newKey + k[|oldKey|..]] == b[k])
    && (forall k | k in b && !(oldKey <= k) && !(newKey <= k) :: k in after && after[k] == b[k])
    && (forall k | k in b && newKey <= k && oldKey + k[|newKey|..] !in b :: k in after && after[k] == b[k])
    && (forall n | n in after ::
          || (newKey <= n && oldKey + n[|newKey|..] in b)
          || (!(oldKey <= n) && n in b))
  }

  /** What `rename_key` makes of a bucket with the old key. */
  ghost predicate KeyRenamed(b: Bucket, after: Bucket, oldKey: string, newKey: string)
    requires oldKey in b
  {
    if EndsInSlash(oldKey) then IsRenamed(b, after, oldKey, newKey)
    else after == b[newKey := b[oldKey]] - {oldKey}
  }

  /** What `rename_key` makes of any bucket: without the old key, nothing is renamed. */
  ghost predicate Rekeyed(b: Bucket, after: Bucket, oldKey: string, newKey: string)
  {
    if oldKey in b then KeyRenamed(b, after, oldKey, newKey) else after == b
  }

  lemma PrefixesCompare(a: string, b: string, s: string)
    ensures a <= s && b <= s ==> a <= b || b <= a
  {
    if a <= s && b <= s {
      if |a| <= |b| {
        assert a == s[..|a|] == b[..|a|];
      } else {
        assert b == s[..|b|] == a[..|b|];
      }
    }
  }

  lemma UnrelatedStays(oldKey: string, newKey: string, rest: string)
    requires Unrelated(oldKey, newKey)
    ensures !(oldKey <= newKey + rest)
  {
    PrefixesCompare(oldKey, newKey, newKey + rest);
  }

  /** The keys of a snapshot renamed one after the other. */
  ghost function RenameAll(b: Bucket, ks: seq<string>, oldKey: string, newKey: string): (r: Bucket)
    requires Snapshot(b, oldKey, ks)
    ensures forall k | k in b && k !in ks :: k in r
  {
    if ks == [] then b
    else
      SnapshotFront(b, oldKey, ks, |ks| - 1);
      RenameOne(RenameAll(b, ks[..|ks| - 1], oldKey, newKey), ks[|ks| - 1], oldKey, newKey)
  }

  /** `rename_key`: a folder key takes everything under it along, one key at a time from a snapshot; any
      other key moves alone.  All data under a folder key arrive exactly if no key is renamed onto itself or
      onto one listed later; unless one of the keys is a prefix of the other, they do, and nothing else is
      moved. */
  method RenameKey(b: Bucket, oldKey: string, newKey: string, listing: seq<string>) returns (after: Bucket)
    requires Listing(b, oldKey, listing)
    ensures oldKey !in b ==> after == b
    ensures oldKey in b && EndsInSlash(oldKey) ==> after == RenameAll(b, listing, oldKey, newKey)
    ensures oldKey in b && EndsInSlash(oldKey) ==>
              (AllArrive(b, after, listing, oldKey, newKey)
               <==> forall i, j | 0 <= i <= j < |listing| :: newKey + listing[i][|oldKey|..] != listing[j])
    ensures oldKey in b && EndsInSlash(oldKey) ==> OthersKept(b, after, listing, oldKey, newKey)
    ensures oldKey in b && !EndsInSlash(oldKey) ==> after == b[newKey := b[oldKey]] - {oldKey}
    ensures CanRename(oldKey, newKey) ==> Rekeyed(b, after, oldKey, newKey)
  {
    hide IsRenamed, RenameOne, Unrelated, OthersKept, AllArrive, RenameAll;
    after := b;
    if oldKey in b {
      if EndsInSlash(oldKey) {
        NothingRenamed(b, oldKey, newKey, listing);
        for i := 0 to |listing|
          invariant Snapshot(b, oldKey, listing[..i]) && after == RenameAll(b, listing[..i], oldKey, newKey)
        {
          RenamingStep(b, oldKey, newKey, listing, i);
          after := RenameOne(after, listing[i], oldKey, newKey);
        }
        assert listing[..|listing|] == listing;
        RenamingDone(b, oldKey, newKey, listing);
      } else {
        after := b[newKey := b[oldKey]] - {oldKey};
      }
    }
  }

  lemma NothingRenamed(b: Bucket, oldKey: string, newKey: string, listing: seq<string>)
    requires Snapshot(b, oldKey, listing)
    ensures Snapshot(b, oldKey, listing[..0]) && RenameAll(b, listing[..0], oldKey, newKey) == b
  {
  }

  lemma RenamingStep(b: Bucket, oldKey: string, newKey: string, listing: seq<string>, i: nat)
    requires Snapshot(b, oldKey, listing) && i < |listing|
    ensures Snapshot(b, oldKey, listing[..i]) && Snapshot(b, oldKey, listing[..i + 1])
    ensures oldKey <= listing[i] && listing[i] in RenameAll(b, listing[..i], oldKey, newKey)
    ensures RenameAll(b, listing[..i + 1], oldKey, newKey)
         == RenameOne(RenameAll(b, listing[..i], oldKey, newKey), listing[i], oldKey, newKey)
  {
    hide RenameOne;
    SnapshotFront(b, oldKey, listing, i);
    SnapshotFront(b, oldKey, listing, i + 1);
    assert listing[..i + 1][..i] == listing[..i];
  }

  lemma RenamingDone(b: Bucket, oldKey: string, newKey: string, listing: seq<string>)
    requires Listing(b, oldKey, listing)
    ensures var after := RenameAll(b, listing, oldKey, newKey);
            && (AllArrive(b, after, listing, oldKey, newKey)
                <==> forall i, j | 0 <= i <= j < |listing| :: newKey + listing[i][|oldKey|..] != listing[j])
            && OthersKept(b, after, listing, oldKey, newKey)
            && (Unrelated(oldKey, newKey) ==> IsRenamed(b, after, oldKey, newKey))
  {
    hide IsRenamed, Unrelated, OthersKept, AllArrive, RenameAll;
    AllArriveIff(b, listing, oldKey, newKey);
    OthersStay(b, listing, oldKey, newKey);
    if Unrelated(oldKey, newKey) {
      RenameAllMoves(b, oldKey, newKey, listing);
    }
  }

  lemma RenameAllMoves(b: Bucket, oldKey: string, newKey: string, listing: seq<string>)
    requires Listing(b, oldKey, listing) && Unrelated(oldKey, newKey)
    ensures IsRenamed(b, RenameAll(b, listing, oldKey, newKey), oldKey, newKey)
  {
    hide RenameAll, Unrelated, Snapshot;
    var after := RenameAll(b, listing, oldKey, newKey);
    RenameAllPartly(b, oldKey, newKey, listing);
    assert forall k | k in b && oldKey <= k :: Moved(b, after, oldKey, newKey, k);
  }

  lemma {:induction false} RenameAllPartly(b: Bucket, oldKey: string, newKey: string, ks: seq<string>)
    requires Snapshot(b, oldKey, ks) && Unrelated(oldKey, newKey)
    ensures var after := RenameAll(b, ks, oldKey, newKey);
            PartlyRenamed(b, after, oldKey, newKey, ks) && Untouched(b, after, oldKey, ks)
    decreases |ks|
  {
    if ks != [] {
      var front, last := ks[..|ks| - 1], ks[|ks| - 1];
      SnapshotFront(b, oldKey, ks, |ks| - 1);
      hide Snapshot, Unrelated, PartlyRenamed, RenameOne, Untouched;
      RenameAllPartly(b, oldKey, newKey, front);
      OneMoreRenamed(b, RenameAll(b, front, oldKey, newKey), oldKey, newKey, front, last);
      assert ks == front + [last];
    }
  }

  predicate EndsInSlash(key: string)
  {
    key != "" && key[|key| - 1] == '/'
  }

  /** Key q has been moved. */
  ghost predicate Moved(b: Bucket, after: Bucket, oldKey: string, newKey: string, q: string)
  {
    && q in b && oldKey <= q && q !in after
    && newKey + q[|oldKey|..] in after && after[newKey + q[|oldKey|..]] == b[q]
  }

  /** The keys in `done` have been moved, and no others. */
  ghost predicate PartlyRenamed(b: Bucket, after: Bucket, oldKey: string, newKey: string, done: seq<string>)
  {
    && (forall q | q in done :: Moved(b, after, oldKey, newKey, q))
    && (forall k | k in b && !(oldKey <= k) && !(newKey <= k) :: k in after && after[k] == b[k])
    && (forall k | k in b && newKey <= k && oldKey + k[|newKey|..] !in done :: k in after && after[k] == b[k])
    && (forall n | n in after ::
          || (newKey <= n && oldKey + n[|newKey|..] in done)
          || (n in b && n !in done))
  }

  lemma StaysMoved(b: Bucket, after: Bucket, oldKey: string, newKey: string, q: string, k: string)
    requires Moved(b, after, oldKey, newKey, q) && k in after && oldKey <= k && q != k && k in b && after[k] == b[k]
    requires Unrelated(oldKey, newKey)
    ensures Moved(b, RenameOne(after, k, oldKey, newKey), oldKey, newKey, q)
  {
    UnrelatedStays(oldKey, newKey, q[|oldKey|..]);
    var m, n := newKey + q[|oldKey|..], newKey + k[|oldKey|..];
    assert q == oldKey + q[|oldKey|..] && k == oldKey + k[|oldKey|..];
    assert m[|newKey|..] == q[|oldKey|..] && n[|newKey|..] == k[|oldKey|..];
    assert m != n;
  }

  lemma IsMoved(b: Bucket, after: Bucket, oldKey: string, newKey: string, k: string)
    requires k in after && oldKey <= k && k in b && after[k] == b[k] && Unrelated(oldKey, newKey)
    ensures Moved(b, RenameOne(after, k, oldKey, newKey), oldKey, newKey, k)
  {
    UnrelatedStays(oldKey, newKey, k[|oldKey|..]);
  }

  /** The keys still to be moved are as they were. */
  ghost predicate Untouched(b: Bucket, after: Bucket, oldKey: string, done: seq<string>)
  {
    forall k | k in b && oldKey <= k && k !in done :: k in after && after[k] == b[k]
  }

  lemma OneMoreRenamed(b: Bucket, after: Bucket, oldKey: string, newKey: string, done: seq<string>, k: string)
    requires Unrelated(oldKey, newKey) && k in b && oldKey <= k && k !in done
    requires PartlyRenamed(b, after, oldKey, newKey, done) && Untouched(b, after, oldKey, done)
    ensures k in after
    ensures var next := RenameOne(after, k, oldKey, newKey);
            PartlyRenamed(b, next, oldKey, newKey, done + [k]) && Untouched(b, next, oldKey, done + [k])
  {
    assert k in after && after[k] == b[k];
    var next := RenameOne(after, k, oldKey, newKey);
    OthersUntouched(after, k, oldKey, newKey);
    hide Moved, Unrelated, RenameOne;
    forall q | q in done + [k]
      ensures Moved(b, next, oldKey, newKey, q)
    {
      if q == k {
        IsMoved(b, after, oldKey, newKey, k);
      } else {
        assert q in done;
        StaysMoved(b, after, oldKey, newKey, q, k);
      }
    }
    NothingElseMoved(b, after, oldKey, newKey, done, k);
    NothingMovedOnto(b, after, oldKey, newKey, done, k);
  }

  /** Keys under the new one stay until something is moved onto them. */
  lemma NothingMovedOnto(b: Bucket, after: Bucket, oldKey: string, newKey: string, done: seq<string>, k: string)
    requires k in after && oldKey <= k && Unrelated(oldKey, newKey)
    requires PartlyRenamed(b, after, oldKey, newKey, done)
    ensures var next := RenameOne(after, k, oldKey, newKey);
            forall q | q in b && newKey <= q && oldKey + q[|newKey|..] !in done + [k] :: q in next && next[q] == b[q]
  {
    hide Moved;
    PrefixesCompare(oldKey, newKey, k);
    forall q | q in b && newKey <= q && oldKey + q[|newKey|..] !in done + [k]
      ensures q in RenameOne(after, k, oldKey, newKey) && RenameOne(after, k, oldKey, newKey)[q] == b[q]
    {
      assert oldKey + q[|newKey|..] !in done && oldKey + q[|newKey|..] != k;
      var moved := newKey + k[|oldKey|..];
      assert moved[|newKey|..] == k[|oldKey|..] && oldKey + k[|oldKey|..] == k;
      assert q != moved && q != k;
    }
  }

  lemma OthersUntouched(after: Bucket, k: string, oldKey: string, newKey: string)
    requires k in after && oldKey <= k && Unrelated(oldKey, newKey)
    ensures var next := RenameOne(after, k, oldKey, newKey);
            forall q | q in after && q != k && oldKey <= q :: q in next && next[q] == after[q]
    ensures var next := RenameOne(after, k, oldKey, newKey);
            forall q | q in after && !(oldKey <= q) && !(newKey <= q) :: q in next && next[q] == after[q]
  {
    forall q | q in after && oldKey <= q
      ensures !(newKey <= q)
    {
      PrefixesCompare(oldKey, newKey, q);
    }
  }

  lemma NothingElseMoved(b: Bucket, after: Bucket, oldKey: string, newKey: string, done: seq<string>, k: string)
    requires k in after && oldKey <= k && Unrelated(oldKey, newKey)
    requires PartlyRenamed(b, after, oldKey, newKey, done)
    ensures forall n | n in RenameOne(after, k, oldKey, newKey) ::
              || (newKey <= n && oldKey + n[|newKey|..] in done + [k])
              || (n in b && n !in done + [k])
  {
    hide Moved;
    var moved := newKey + k[|oldKey|..];
    assert moved[|newKey|..] == k[|oldKey|..] && oldKey + k[|oldKey|..] == k;
    forall n | n in RenameOne(after, k, oldKey, newKey)
      ensures (newKey <= n && oldKey + n[|newKey|..] in done + [k]) || (n in b && n !in done + [k])
    {
      if n != moved {
        assert n in after && n != k;
      }
    }
  }

  /** b without some keys, and otherwise the same. */
  ghost predicate IsWithout(b: Bucket, after: Bucket, ks: seq<string>)
  {
    forall k :: (k in after <==> k in b && k !in ks) && (k in after ==> after[k] == b[k])
  }

  /** Renaming a folder key to itself copies each key onto itself and then deletes it: everything under it
      is lost, and nothing else. */
  lemma {:induction false} RenamingToItselfLoses(b: Bucket, ks: seq<string>, oldKey: string)
    requires Snapshot(b, oldKey, ks)
    ensures IsWithout(b, RenameAll(b, ks, oldKey, oldKey), ks)
    decreases |ks|
  {
    hide *;
    if ks == [] {
      WithoutNone(b, ks, oldKey);
    } else {
      var front, last := ks[..|ks| - 1], ks[|ks| - 1];
      LastRenamed(b, ks, oldKey, oldKey);
      RenamingToItselfLoses(b, front, oldKey);
      var after := RenameAll(b, front, oldKey, oldKey);
      OntoItself(after, last, oldKey);
      OneLess(b, after, front, last);
      assert ks == front + [last];
    }
  }

  lemma WithoutNone(b: Bucket, ks: seq<string>, oldKey: string)
    requires ks == [] && Snapshot(b, oldKey, ks)
    ensures IsWithout(b, RenameAll(b, ks, oldKey, oldKey), ks)
  {
  }

  lemma OneLess(b: Bucket, after: Bucket, ks: seq<string>, k: string)
    requires IsWithout(b, after, ks)
    ensures IsWithout(b, after - {k}, ks + [k])
  {
  }

  lemma OntoItself(b: Bucket, k: string, oldKey: string)
    requires k in b && oldKey <= k
    ensures RenameOne(b, k, oldKey, oldKey) == b - {k}
  {
    assert oldKey + k[|oldKey|..] == k;
  }

  // ---------- Keys renamed onto listed keys ----------

  /** The key with the new prefix in place of the old. */
  function ShiftedKey(k: string, oldKey: string, newKey: string): string
    requires oldKey <= k
  {
    newKey + k[|oldKey|..]
  }

  /** Every key of the list has its data at its new place. */
  ghost predicate AllArrive(b: Bucket, after: Bucket, ks: seq<string>, oldKey: string, newKey: string)
    requires Snapshot(b, oldKey, ks)
  {
    forall i | 0 <= i < |ks| ::
      ShiftedKey(ks[i], oldKey, newKey) in after && after[ShiftedKey(ks[i], oldKey, newKey)] == b[ks[i]]
  }

  /** The new place of the key at i is neither that key nor one listed after it. */
  ghost predicate Lasting(ks: seq<string>, i: nat, oldKey: string, newKey: string)
    requires i < |ks| && oldKey <= ks[i]
  {
    forall j | i <= j < |ks| :: ShiftedKey(ks[i], oldKey, newKey) != ks[j]
  }

  lemma PlacesDiffer(k: string, n: string, oldKey: string, newKey: string)
    requires oldKey <= k && oldKey <= n && k != n
    ensures ShiftedKey(k, oldKey, newKey) != ShiftedKey(n, oldKey, newKey)
  {
    assert ShiftedKey(k, oldKey, newKey)[|newKey|..] == k[|oldKey|..] && k == oldKey + k[|oldKey|..];
    assert ShiftedKey(n, oldKey, newKey)[|newKey|..] == n[|oldKey|..] && n == oldKey + n[|oldKey|..];
  }

  lemma LastingInFront(ks: seq<string>, i: nat, oldKey: string, newKey: string)
    requires i < |ks| - 1 && oldKey <= ks[i]
    ensures var front := ks[..|ks| - 1];
            && front[i] == ks[i]
            && (Lasting(ks, i, oldKey, newKey)
                <==> Lasting(front, i, oldKey, newKey) && ShiftedKey(ks[i], oldKey, newKey) != ks[|ks| - 1])
  {
    var front := ks[..|ks| - 1];
    assert forall j | 0 <= j < |front| :: front[j] == ks[j];
  }

  lemma KeysOfOne(b: Bucket, k: string, oldKey: string, newKey: string, n: string)
    requires k in b && oldKey <= k
    ensures n in RenameOne(b, k, oldKey, newKey) <==> n != k && (n in b || n == ShiftedKey(k, oldKey, newKey))
  {
  }

  /** A key is at its new place afterwards exactly if that place lasts. */
  lemma {:induction false} ThereIfLasting(b: Bucket, ks: seq<string>, i: nat, oldKey: string, newKey: string)
    requires Snapshot(b, oldKey, ks) && i < |ks|
    ensures ShiftedKey(ks[i], oldKey, newKey) in RenameAll(b, ks, oldKey, newKey) <==> Lasting(ks, i, oldKey, newKey)
    decreases |ks|
  {
    var front, last := ks[..|ks| - 1], ks[|ks| - 1];
    var place := ShiftedKey(ks[i], oldKey, newKey);
    LastRenamed(b, ks, oldKey, newKey);
    hide RenameAll, RenameOne, ShiftedKey;
    KeysOfOne(RenameAll(b, front, oldKey, newKey), last, oldKey, newKey, place);
    if i < |ks| - 1 {
      ThereIfLasting(b, front, i, oldKey, newKey);
      LastingInFront(ks, i, oldKey, newKey);
      PlacesDiffer(ks[i], last, oldKey, newKey);
      hide Lasting;
    }
  }

  /** What is not listed, and nothing is renamed onto, keeps its data. */
  lemma {:induction false} OthersKeepData(b: Bucket, ks: seq<string>, k: string, oldKey: string, newKey: string)
    requires Snapshot(b, oldKey, ks) && k in b && k !in ks
    requires forall i | 0 <= i < |ks| :: ShiftedKey(ks[i], oldKey, newKey) != k
    ensures RenameAll(b, ks, oldKey, newKey)[k] == b[k]
    decreases |ks|
  {
    if ks != [] {
      SnapshotFront(b, oldKey, ks, |ks| - 1);
      OthersKeepData(b, ks[..|ks| - 1], k, oldKey, newKey);
    }
  }

  /** Keys that are not listed are there afterwards, with their data unless something was renamed onto them. */
  ghost predicate OthersKept(b: Bucket, after: Bucket, ks: seq<string>, oldKey: string, newKey: string)
    requires Snapshot(b, oldKey, ks)
  {
    forall k | k in b && k !in ks ::
      k in after && (after[k] == b[k] || exists i :: 0 <= i < |ks| && ShiftedKey(ks[i], oldKey, newKey) == k)
  }

  lemma OthersStay(b: Bucket, ks: seq<string>, oldKey: string, newKey: string)
    requires Snapshot(b, oldKey, ks)
    ensures OthersKept(b, RenameAll(b, ks, oldKey, newKey), ks, oldKey, newKey)
  {
    forall k | k in b && k !in ks && forall i | 0 <= i < |ks| :: ShiftedKey(ks[i], oldKey, newKey) != k
      ensures RenameAll(b, ks, oldKey, newKey)[k] == b[k]
    {
      OthersKeepData(b, ks, k, oldKey, newKey);
    }
  }

  lemma LastRenamed(b: Bucket, ks: seq<string>, oldKey: string, newKey: string)
    requires Snapshot(b, oldKey, ks) && ks != []
    ensures Snapshot(b, oldKey, ks[..|ks| - 1]) && oldKey <= ks[|ks| - 1]
    ensures ks[|ks| - 1] in b && ks[|ks| - 1] !in ks[..|ks| - 1]
    ensures var before := RenameAll(b, ks[..|ks| - 1], oldKey, newKey);
            && ks[|ks| - 1] in before
            && RenameAll(b, ks, oldKey, newKey) == RenameOne(before, ks[|ks| - 1], oldKey, newKey)
  {
    hide RenameOne;
    SnapshotFront(b, oldKey, ks, |ks| - 1);
  }

  lemma FrontLasting(b: Bucket, ks: seq<string>, oldKey: string, newKey: string, i: nat)
    requires Snapshot(b, oldKey, ks) && i < |ks| - 1 && Lasting(ks, i, oldKey, newKey)
    ensures ks[..|ks| - 1][i] == ks[i] && Lasting(ks[..|ks| - 1], i, oldKey, newKey)
    ensures ShiftedKey(ks[i], oldKey, newKey) !in [ks[|ks| - 1], ShiftedKey(ks[|ks| - 1], oldKey, newKey)]
  {
    LastingInFront(ks, i, oldKey, newKey);
    PlacesDiffer(ks[i], ks[|ks| - 1], oldKey, newKey);
  }

  lemma {:induction false} LastingArrive(b: Bucket, ks: seq<string>, oldKey: string, newKey: string)
    requires Snapshot(b, oldKey, ks) && forall i | 0 <= i < |ks| :: Lasting(ks, i, oldKey, newKey)
    ensures AllArrive(b, RenameAll(b, ks, oldKey, newKey), ks, oldKey, newKey)
    decreases |ks|
  {
    if ks != [] {
      hide RenameAll, RenameOne, AllArrive, ShiftedKey;
      var front, last := ks[..|ks| - 1], ks[|ks| - 1];
      LastRenamed(b, ks, oldKey, newKey);
      assert Lasting(ks, |ks| - 1, oldKey, newKey) && ShiftedKey(last, oldKey, newKey) != last;
      forall i | 0 <= i < |front|
        ensures front[i] == ks[i] && Lasting(front, i, oldKey, newKey)
        ensures ShiftedKey(ks[i], oldKey, newKey) !in [last, ShiftedKey(last, oldKey, newKey)]
      {
        FrontLasting(b, ks, oldKey, newKey, i);
      }
      hide Lasting;
      LastingArrive(b, front, oldKey, newKey);
      OthersKeepData(b, front, last, oldKey, newKey);
      OneMoreArrives(b, RenameAll(b, front, oldKey, newKey), ks, oldKey, newKey);
    }
  }

  lemma OneMoreArrives(b: Bucket, after: Bucket, ks: seq<string>, oldKey: string, newKey: string)
    requires Snapshot(b, oldKey, ks) && ks != [] && Snapshot(b, oldKey, ks[..|ks| - 1])
    requires AllArrive(b, after, ks[..|ks| - 1], oldKey, newKey)
    requires var last := ks[|ks| - 1];
             && last in after && after[last] == b[last] && ShiftedKey(last, oldKey, newKey) != last
             && forall i | 0 <= i < |ks| - 1 ::
                  ShiftedKey(ks[i], oldKey, newKey) !in [last, ShiftedKey(last, oldKey, newKey)]
    ensures AllArrive(b, RenameOne(after, ks[|ks| - 1], oldKey, newKey), ks, oldKey, newKey)
  {
    var last := ks[|ks| - 1];
    var front, next := ks[..|ks| - 1], RenameOne(after, last, oldKey, newKey);
    forall i | 0 <= i < |ks|
      ensures ShiftedKey(ks[i], oldKey, newKey) in next && next[ShiftedKey(ks[i], oldKey, newKey)] == b[ks[i]]
    {
      if i < |ks| - 1 {
        assert ks[i] == front[i];
      }
    }
  }

  /** What becomes of the data, whatever the two keys are: all of it arrives at its new place if and only if no
      key is renamed onto itself or onto one that is listed later. */
  lemma AllArriveIff(b: Bucket, ks: seq<string>, oldKey: string, newKey: string)
    requires Snapshot(b, oldKey, ks)
    ensures AllArrive(b, RenameAll(b, ks, oldKey, newKey), ks, oldKey, newKey)
            <==> forall i, j | 0 <= i <= j < |ks| :: newKey + ks[i][|oldKey|..] != ks[j]
  {
    hide RenameAll;
    var after := RenameAll(b, ks, oldKey, newKey);
    if AllArrive(b, after, ks, oldKey, newKey) {
      forall i, j | 0 <= i <= j < |ks|
        ensures newKey + ks[i][|oldKey|..] != ks[j]
      {
        ThereIfLasting(b, ks, i, oldKey, newKey);
        assert ShiftedKey(ks[i], oldKey, newKey) in after;
      }
    }
    if forall i, j | 0 <= i <= j < |ks| :: newKey + ks[i][|oldKey|..] != ks[j] {
      assert forall i | 0 <= i < |ks| :: Lasting(ks, i, oldKey, newKey);
      LastingArrive(b, ks, oldKey, newKey);
    }
  }

  lemma OutwardsInSteps(b: Bucket, ks: seq<string>, folder: Data, first: Data, second: Data)
    requires b == map["a/x/" := folder, "a/x/x/z" := first, "a/x/z" := second]
    requires ks == ["a/x/", "a/x/x/z", "a/x/z"] && Snapshot(b, "a/x/", ks)
    ensures RenameAll(b, ks, "a/x/", "a/") == map["a/" := folder, "a/z" := first]
  {
    var one, two := ks[..1], ks[..2];
    SnapshotFront(b, "a/x/", ks, 1);
    SnapshotFront(b, "a/x/", ks, 2);
    assert one[..0] == [] && two[..1] == one && ks[..2] == two;
    assert "a/" + "a/x/"[4..] == "a/";
    assert RenameAll(b, [], "a/x/", "a/") == b;
    assert RenameAll(b, one, "a/x/", "a/") == map["a/" := folder, "a/x/x/z" := first, "a/x/z" := second];
    assert "a/" + "a/x/x/z"[4..] == "a/x/z";
    assert RenameAll(b, two, "a/x/", "a/") == map["a/" := folder, "a/x/z" := first];
    assert "a/" + "a/x/z"[4..] == "a/z";
  }

  /** For example, renaming the keys of a folder to those of the folder around it: "a/x/x/z" is renamed onto
      "a/x/z", which is listed later, and the data of that one are lost. */
  method RenamingOutwardsLoses(folder: Data, first: Data, second: Data) returns (after: Bucket)
    ensures after == map["a/" := folder, "a/z" := first]
  {
    var b: Bucket := map["a/x/" := folder, "a/x/x/z" := first, "a/x/z" := second];
    var ks := ["a/x/", "a/x/x/z", "a/x/z"];
    assert "a/x/" <= "a/x/x/z" && "a/x/" <= "a/x/z";
    assert Listing(b, "a/x/", ks);
    after := RenameKey(b, "a/x/", "a/", ks);
    OutwardsInSteps(b, ks, folder, first, second);
  }

  // ---------- Keys and paths ----------

  lemma {:induction false} NamesGiveKeys(s: Store, fold: Fold, root: Oid, x: Oid, keys: seq<string>)
    requires IsTree(s, fold, root) && x in s && Walk(s, x, keys).Some?
    ensures forall i | 0 <= i < |keys| :: keys[i] == fold(Names(s, x, keys)[i])
    decreases |keys|
  {
    if keys != [] {
      assert LinksAgree(s, fold, x);
      NamesGiveKeys(s, fold, root, s[x].children[keys[0]], keys[1..]);
    }
  }

  lemma NamesStep(s: Store, x: Oid, keys: seq<string>, rest: seq<string>)
    requires keys != [] && rest == keys[1..]
    ensures Walk(s, x, keys).Some? ==>
              && x in s && keys[0] in s[x].children
              && Walk(s, x, keys) == Walk(s, s[x].children[keys[0]], rest)
              && Names(s, x, keys)
                 == Names(s, x, [keys[0]]) + Names(s, s[x].children[keys[0]], rest)
  {
    if Walk(s, x, keys).Some? {
      var c := s[x].children[keys[0]];
      assert [keys[0]][1..] == [];
      assert Names(s, c, []) == [];
    }
  }

  lemma SeqAssociative(a: seq<string>, b: seq<string>, c: seq<string>)
    ensures a + (b + c) == (a + b) + c
  {
  }

  lemma {:induction false} NamesConcat(s: Store, x: Oid, a: seq<string>, b: seq<string>)
    requires Walk(s, x, a).Some? && Walk(s, Walk(s, x, a).value, b).Some?
    ensures Walk(s, x, a + b).Some?
    ensures Names(s, x, a + b) == Names(s, x, a) + Names(s, Walk(s, x, a).value, b)
    decreases |a|
  {
    WalkConcat(s, x, a, b);
    if a == [] {
      assert a + b == b;
      assert Names(s, x, a) == [] && Walk(s, x, a) == Some(x);
    } else {
      NamesStep(s, x, a, a[1..]);
      NamesStep(s, x, a + b, a[1..] + b);
      hide Walk, Names;
      var c := s[x].children[a[0]];
      NamesConcat(s, c, a[1..], b);
      assert (a + b)[0] == a[0];
      SeqAssociative(Names(s, x, [a[0]]), Names(s, c, a[1..]), Names(s, Walk(s, x, a).value, b));
    }
  }

  /** The text of a key: names joined, closed by '/' or not. */
  function Closing(container: bool): string
  {
    if container then "/" else ""
  }

  /** A name followed by '/' can be read off the front of a key in one way only. */
  lemma FirstName(a: string, p: string, b: string, q: string)
    requires '/' !in a && '/' !in b && a + "/" + p == b + "/" + q
    ensures a == b && p == q
  {
    HeadOfJoin(a, p);
    HeadOfJoin(b, q);
    assert p == (a + "/" + p)[|a| + 1..] && q == (b + "/" + q)[|b| + 1..];
  }

  lemma {:induction false} HeadOfName(b: string)
    requires '/' !in b
    ensures Head(b) == b
  {
    assert |Head(b)| == |b|;
  }

  lemma SingleName(a: string, p: string, b: string, container: bool)
    requires '/' !in a && '/' !in b && a + "/" + p == b + Closing(container)
    ensures a == b && p == "" && container
  {
    HeadOfJoin(a, p);
    if container {
      HeadOfJoin(b, "");
      assert b + "/" + "" == b + "/";
    } else {
      HeadOfName(b);
    }
  }

  lemma Reassociate(x: string, y: string, z: string)
    ensures (x + "/" + y) + z == x + "/" + (y + z)
  {
  }

  /** A folder key is a prefix of another key only if its names are the first names of the other. */
  lemma {:induction false} KeyPrefix(a: seq<string>, b: seq<string>, container: bool, tail: string)
    requires a != [] && b != [] && AllValid(a) && AllValid(b)
    requires Join(a) + ("/" + tail) == Join(b) + Closing(container)
    ensures a <= b
    decreases |a|
  {
    assert ValidId(a[0]) && ValidId(b[0]);
    var pa := if |a| == 1 then tail else Join(a[1..]) + ("/" + tail);
    if |a| > 1 {
      Reassociate(a[0], Join(a[1..]), "/" + tail);
      assert pa != "";
    } else {
      assert a[0] + ("/" + tail) == a[0] + "/" + tail;
    }
    assert a[0] + "/" + pa == Join(b) + Closing(container);
    if |b| == 1 {
      SingleName(a[0], pa, b[0], container);
    } else {
      Reassociate(b[0], Join(b[1..]), Closing(container));
      FirstName(a[0], pa, b[0], Join(b[1..]) + Closing(container));
      if |a| > 1 {
        TailsAreValid(a, b);
        KeyPrefix(a[1..], b[1..], container, tail);
        assert a == [a[0]] + a[1..] && b == [b[0]] + b[1..];
      }
    }
  }

  lemma TailsAreValid(a: seq<string>, b: seq<string>)
    requires a != [] && b != [] && AllValid(a) && AllValid(b)
    ensures AllValid(a[1..]) && AllValid(b[1..])
  {
    assert forall i | 0 <= i < |a[1..]| :: a[1..][i] == a[i + 1];
    assert forall i | 0 <= i < |b[1..]| :: b[1..][i] == b[i + 1];
  }

  /** Different names, or the same names of a folder and a file, give different keys. */
  lemma {:induction false} KeysDiffer(a: seq<string>, b: seq<string>, ca: bool, cb: bool)
    requires a != [] && b != [] && AllValid(a) && AllValid(b)
    requires Join(a) + Closing(ca) == Join(b) + Closing(cb)
    ensures a == b && ca == cb
  {
    assert ValidId(a[0]) && ValidId(b[0]);
    LastTells(a, ca);
    LastTells(b, cb);
    if ca {
      assert Closing(true) == "/" + "";
      KeyPrefix(a, b, cb, "");
      KeyPrefix(b, a, ca, "");
    } else {
      JoinDiffers(a, b);
    }
  }

  /** The last character of a key tells whether it is a container's. */
  lemma LastTells(a: seq<string>, container: bool)
    requires a != [] && AllValid(a)
    ensures var key := Join(a) + Closing(container);
            key != "" && (key[|key| - 1] == '/' <==> container) && (!container ==> key == Join(a))
  {
    JoinEndsInName(a);
  }

  lemma JoinDiffers(a: seq<string>, b: seq<string>)
    requires a != [] && b != [] && AllValid(a) && AllValid(b) && Join(a) == Join(b)
    ensures a == b
  {
    forall i | 0 <= i < |a|
      ensures '/' !in a[i]
    {
      assert ValidId(a[i]);
    }
    forall i | 0 <= i < |b|
      ensures '/' !in b[i]
    {
      assert ValidId(b[i]);
    }
    SplitUndoesJoin(a);
    SplitUndoesJoin(b);
  }

  lemma {:induction false} JoinEndsInName(a: seq<string>)
    requires a != [] && AllValid(a)
    ensures Join(a) != "" && Join(a)[|Join(a)| - 1] != '/'
    decreases |a|
  {
    assert ValidId(a[0]);
    if |a| == 1 {
      var last := a[0][|a[0]| - 1];
      assert last in a[0];
    } else {
      TailsAreValid(a, a);
      JoinEndsInName(a[1..]);
    }
  }
}
