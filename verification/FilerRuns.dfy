/** What the file store keeps over runs of saves that do not overwrite. */
module FilerRuns {
  import opened Options
  import opened ContentFolders
  import opened FolderKeys
  import opened FolderPaths
  import opened FilePaths
  import opened Filer

  function Run(d: Disk, root: Path, fallback: Option<string>, qs: seq<Request>): Disk
    decreases |qs|
  {
    if qs == [] then d else Run(SaveOn(d, root, fallback, qs[0]).1, root, fallback, qs[1..])
  }

  /** The request does not overwrite, and its time of day has no '/' in it. */
  predicate Adds(q: Request)
  {
    !q.overwrite && '/' !in q.now
  }

  ghost predicate AllAdd(qs: seq<Request>)
  {
    forall i | 0 <= i < |qs| :: Adds(qs[i])
  }

  /** e has all files of d, unchanged. */
  ghost predicate KeepsFiles(d: Disk, e: Disk)
  {
    forall p | p in d.files :: p in e.files && e.files[p] == d.files[p]
  }

  /** A save changes at most one path, which had neither a file nor a directory before. */
  lemma SaveKeepsFiles(d: Disk, root: Path, fallback: Option<string>, q: Request)
    requires Filer.Valid(d) && Adds(q)
    ensures var (r, e) := SaveOn(d, root, fallback, q);
            && Filer.Valid(e) && KeepsFiles(d, e) && d.dirs <= e.dirs
            && (r.Refused? ==> e.files == d.files)
            && (r.Saved? ==> !Exists(d, r.place) && e.files == d.files[r.place := q.data])
  {
    hide FirstFree, Norm, NormText, PosixJoin, Relative, Join, Text, At;
  }

  /** Over every run no existing file changes. */
  lemma {:induction false} RunKeepsFiles(d: Disk, root: Path, fallback: Option<string>, qs: seq<Request>)
    requires Filer.Valid(d) && AllAdd(qs)
    ensures Filer.Valid(Run(d, root, fallback, qs)) && KeepsFiles(d, Run(d, root, fallback, qs))
    decreases |qs|
  {
    if qs != [] {
      assert Adds(qs[0]);
      assert forall i | 0 <= i < |qs[1..]| :: qs[1..][i] == qs[i + 1];
      SaveKeepsFiles(d, root, fallback, qs[0]);
      RunKeepsFiles(SaveOn(d, root, fallback, qs[0]).1, root, fallback, qs[1..]);
    }
  }

  // ---------- Where saved files are ----------

  ghost predicate IsRoot(root: Path)
  {
    AllValid(root) && root != []
  }

  lemma SecondIsNoSlash(root: Path)
    requires IsRoot(root)
    ensures |Text(root)| > 1 && Text(root)[1] != '/'
  {
    assert ValidId(root[0]);
    assert Join(root)[0] == root[0][0] && root[0][0] in root[0];
  }

  /** A normalized path under the root begins with one slash. */
  lemma OneSlash(root: Path, p: string)
    requires IsRoot(root) && Text(root) <= NormText(p)
    ensures NormText(p) == Text(Norm(p))
  {
    SecondIsNoSlash(root);
    assert NormText(p)[1] == Text(root)[1];
  }

  lemma TextGrows(dir: Path, name: string)
    requires dir != [] && name != ""
    ensures Text(dir) <= Text(dir + [name]) && |Text(dir)| < |Text(dir + [name])|
  {
    FolderJoin(dir, name);
  }

  lemma {:induction false} FolderJoin(dir: Path, name: string)
    requires dir != []
    ensures Join(dir + [name]) == Join(dir) + "/" + name
    decreases |dir|
  {
    if |dir| == 1 {
      assert (dir + [name])[1..] == [name];
    } else {
      assert (dir + [name])[1..] == dir[1..] + [name];
      FolderJoin(dir[1..], name);
      assert dir[0] + "/" + (Join(dir[1..]) + "/" + name) == (dir[0] + "/" + Join(dir[1..])) + "/" + name;
    }
  }

  lemma {:induction false} TailHasNoSlash(key: string)
    ensures '/' !in Tail(key)
  {
    SplitHasNoSlashes(key);
  }

  /** Files are saved under valid names, at paths whose text begins with that of the root. */
  lemma SavedPlace(d: Disk, root: Path, fallback: Option<string>, q: Request)
    requires IsRoot(root) && Adds(q)
    ensures var r := SaveOn(d, root, fallback, q).0;
            r.Saved? ==>
              && AllValid(r.place) && r.place != root && Text(root) <= Text(r.place)
              && r.key == if q.relative then Join(Relative(r.place, root)) else Text(r.place)
  {
    var r := SaveOn(d, root, fallback, q).0;
    if r.Saved? {
      var p := if Chosen(q.bucket, fallback).Some? then PosixJoin(Text(root), Chosen(q.bucket, fallback).value)
               else Text(root);
      var dir, name := Norm(p), r.place[|r.place| - 1];
      OneSlash(root, p);
      NormIsValid(p);
      NormOfText(dir);
      TailHasNoSlash(q.key);
      PlacedIn(d, dir, q, r.place);
      SecondIsNoSlash(root);
      TextGrows(dir, name);
    }
  }

  lemma PlacedIn(d: Disk, dir: Path, q: Request, place: Path)
    requires Adds(q) && '/' !in Tail(q.key) && AllValid(dir) && Place(WithDirectory(d, dir), dir, q) == Some(place)
    ensures place != [] && place == dir + [place[|place| - 1]] && ValidId(place[|place| - 1]) && AllValid(place)
  {
    var made := WithDirectory(d, dir);
    var n := FirstFree(made.files.Keys + made.dirs, dir, Tail(q.key), q.now, 1);
    CandidateIsName(Tail(q.key), q.now, n);
  }

  /** A path without its text's closing slash. */
  function Stem(p: Path): string
  {
    if p == [] then "" else Text(p)
  }

  lemma StemSplits(p: Path)
    requires AllValid(p)
    ensures Split(Stem(p)) == [""] + p
  {
    if p == [] {
      assert Split("") == [""];
    } else {
      NamesHaveNoSlashes(p);
      assert Text(p) == "" + "/" + Join(p);
      SplitConcat("", Join(p));
      SplitUndoesJoin(p);
      assert Split("") == [""];
    }
  }

  /** A file lands outside the root exactly if the text of the directory chosen goes on from that of the root
      in the middle of a name: the directory is next to the root, under a name that begins with the root's. */
  lemma SavedOutsideIff(d: Disk, root: Path, fallback: Option<string>, q: Request)
    requires IsRoot(root) && Adds(q)
    ensures var r := SaveOn(d, root, fallback, q).0;
            var out := OutDirectory(root, Chosen(q.bucket, fallback));
            r.Saved? ==> (root <= r.place <==> out == Text(root) || Text(root) + "/" <= out)
  {
    var r := SaveOn(d, root, fallback, q).0;
    if r.Saved? {
      var p := if Chosen(q.bucket, fallback).Some? then PosixJoin(Text(root), Chosen(q.bucket, fallback).value)
               else Text(root);
      var dir := Norm(p);
      OneSlash(root, p);
      NormIsValid(p);
      NormOfText(dir);
      TailHasNoSlash(q.key);
      PlacedIn(d, dir, q, r.place);
      SecondIsNoSlash(root);
      UnderByText(root, dir);
      var name := r.place[|r.place| - 1];
      hide SaveOn, Norm, Text;
      if root <= r.place && |root| == |r.place| {
        SavedPlace(d, root, fallback, q);
      }
      assert root <= dir <==> root <= dir + [name] && |root| <= |dir|;
    }
  }

  /** One path lies under another by names exactly if it does so by text, up to a '/'. */
  lemma UnderByText(root: Path, dir: Path)
    requires IsRoot(root) && AllValid(dir)
    ensures root <= dir <==> Text(dir) == Text(root) || Text(root) + "/" <= Text(dir)
  {
    hide Text, Norm;
    if root <= dir {
      var rest := dir[|root|..];
      assert dir == root + rest;
      if rest == [] {
        assert dir == root;
      } else {
        TextOfMore(root, rest);
      }
    }
    if Text(dir) == Text(root) {
      NormOfText(dir);
      NormOfText(root);
    } else if Text(root) + "/" <= Text(dir) {
      var s := Text(dir)[|Text(root)| + 1..];
      assert Text(dir) == Text(root) + "/" + s;
      NamesUnder(root, dir, s);
    }
  }

  lemma NamesUnder(root: Path, dir: Path, s: string)
    requires IsRoot(root) && AllValid(dir) && Text(dir) == Text(root) + "/" + s
    ensures root <= dir
  {
    SplitConcat(Text(root), s);
    StemSplits(root);
    SecondIsNoSlash(root);
    StemSplits(dir);
    hide Text;
    SameAfterFirst(dir, root, Split(s));
  }

  lemma TextOfMore(root: Path, rest: Path)
    requires root != [] && rest != []
    ensures Text(root) + "/" <= Text(root + rest)
  {
    JoinConcat(root, rest);
    assert Text(root + rest) == "/" + (Join(root) + "/" + Join(rest)) == (Text(root) + "/") + Join(rest);
  }

  // ---------- Under which name a source is filed ----------

  /** What follows the last '/' of a key, or all of it. */
  ghost predicate IsTail(name: string, key: string)
  {
    '/' !in name && exists j | 0 <= j <= |key| :: name == key[j..] && (j == 0 || key[j - 1] == '/')
  }

  lemma {:induction false} TailFollowsSlash(key: string)
    ensures IsTail(Tail(key), key)
    decreases |key|
  {
    hide *;
    var n := |Head(key)|;
    TailOfRest(key);
    if n == |key| {
      WholeTail(key);
    } else {
      TailFollowsSlash(key[n + 1..]);
      TailInRest(Tail(key), key, n);
    }
  }

  lemma WholeTail(key: string)
    requires Head(key) == key
    ensures IsTail(key, key)
  {
    assert key == key[0..];
  }

  lemma TailInRest(name: string, key: string, n: nat)
    requires n < |key| && key[n] == '/' && IsTail(name, key[n + 1..])
    ensures IsTail(name, key)
  {
    var rest := key[n + 1..];
    var j :| 0 <= j <= |rest| && name == rest[j..] && (j == 0 || rest[j - 1] == '/');
    var k := n + 1 + j;
    assert name == key[k..] && key[k - 1] == '/';
  }

  lemma TailOfRest(key: string)
    ensures var n := |Head(key)|;
            if n == |key| then Tail(key) == key && Head(key) == key
            else n < |key| && key[n] == '/' && Tail(key) == Tail(key[n + 1..])
  {
    hide Head;
  }

  /** The file has that name, or, unless it may overwrite, is new and has the name with time and count. */
  ghost predicate NamedFor(d: Disk, place: Path, q: Request, name: string)
  {
    && place != []
    && if q.overwrite then place[|place| - 1] == name
       else !Exists(d, place) && HasNumber(place[|place| - 1], name, q.now)
  }

  lemma PlaceIsNamed(d: Disk, made: Disk, dir: Path, q: Request)
    requires made == WithDirectory(d, dir) && Place(made, dir, q).Some?
    ensures var place := Place(made, dir, q).value;
            place != [] && place[..|place| - 1] == dir && NamedFor(d, place, q, Tail(q.key))
  {
    hide FirstFree, Numbered, Tail, Candidate;
    var name := Tail(q.key);
    if !q.overwrite {
      var count := FirstFree(made.files.Keys + made.dirs, dir, name, q.now, 1);
      CandidateIsNumbered(name, q.now, count);
    }
  }

  /** A source is filed in the directory that the bucket leads to from the root, under the last part of the key, with
      time and count unless it may overwrite; nothing else on the disk changes but that the directory is made. */
  lemma FiledUnder(d: Disk, root: Path, fallback: Option<string>, q: Request)
    requires IsRoot(root) && SaveOn(d, root, fallback, q).0.Saved?
    ensures var (r, e) := SaveOn(d, root, fallback, q);
            var bucket := Chosen(q.bucket, fallback);
            var dir := if bucket.None? then root else Follow(root, bucket.value);
            && r.place != [] && r.place[..|r.place| - 1] == dir
            && e.files == d.files[r.place := q.data]
            && e.dirs == (if dir in d.files || dir in d.dirs then d.dirs else d.dirs + {dir})
            && exists name | IsTail(name, q.key) :: NamedFor(d, r.place, q, name)
  {
    hide *;
    var dir := Norm(OutDirectory(root, Chosen(q.bucket, fallback)));
    OutLeads(root, Chosen(q.bucket, fallback));
    TailFollowsSlash(q.key);
    SaveParts(d, root, fallback, q);
    MadeDirectory(d, dir);
    PlaceIsNamed(d, WithDirectory(d, dir), dir, q);
  }

  /** Filing fails exactly if the directory's text does not begin like the root's, if a file is in its place, or if,
      when it may overwrite, the name is no valid id or is a directory there. */
  lemma FiledIff(d: Disk, root: Path, fallback: Option<string>, q: Request)
    requires IsRoot(root)
    ensures var bucket := Chosen(q.bucket, fallback);
            var dir := if bucket.None? then root else Follow(root, bucket.value);
            SaveOn(d, root, fallback, q).0.Saved? <==>
              && (bucket.Some? ==> Text(root) <= NormText(PosixJoin(Text(root), bucket.value)))
              && dir !in d.files
              && exists name | IsTail(name, q.key) ::
                   q.overwrite ==> ValidId(name) && dir + [name] !in WithDirectory(d, dir).dirs
  {
    var bucket := Chosen(q.bucket, fallback);
    var dir := Norm(OutDirectory(root, bucket));
    OutLeads(root, bucket);
    TailFollowsSlash(q.key);
    MadeDirectory(d, dir);
    RootIsInside(root);
    forall name | IsTail(name, q.key)
      ensures name == Tail(q.key)
    {
      OneTail(name, Tail(q.key), q.key);
    }
    hide Norm, NormText, Relative, Join, Text, WithDirectory, IsTail, Tail, FirstFree, Follow;
  }

  lemma RootIsInside(root: Path)
    requires IsRoot(root)
    ensures NormText(Text(root)) == Text(root)
  {
    NormOfText(root);
    SecondIsNoSlash(root);
  }

  lemma OneTail(a: string, b: string, key: string)
    requires IsTail(a, key) && IsTail(b, key)
    ensures a == b
  {
    var i :| 0 <= i <= |key| && a == key[i..] && (i == 0 || key[i - 1] == '/');
    var j :| 0 <= j <= |key| && b == key[j..] && (j == 0 || key[j - 1] == '/');
    NoSlashFrom(key, i);
    NoSlashFrom(key, j);
  }

  lemma NoSlashFrom(key: string, i: nat)
    requires i <= |key| && '/' !in key[i..]
    ensures forall k | i <= k < |key| :: key[k] != '/'
  {
    forall k | i <= k < |key|
      ensures key[k] != '/'
    {
      assert key[i..][k - i] == key[k];
    }
  }

  lemma SaveParts(d: Disk, root: Path, fallback: Option<string>, q: Request)
    requires SaveOn(d, root, fallback, q).0.Saved?
    ensures var (r, e) := SaveOn(d, root, fallback, q);
            var dir := Norm(OutDirectory(root, Chosen(q.bucket, fallback)));
            var made := WithDirectory(d, dir);
            && Place(made, dir, q) == Some(r.place)
            && e.files == made.files[r.place := q.data] && e.dirs == made.dirs
  {
    hide Norm, OutDirectory, Place, Relative, Join, Text, WithDirectory;
  }

  lemma MadeDirectory(d: Disk, p: Path)
    ensures var made := WithDirectory(d, p);
            && made.files == d.files
            && made.dirs == if p in d.files || p in d.dirs then d.dirs else d.dirs + {p}
  {
  }

  lemma OutLeads(root: Path, bucket: Option<string>)
    requires IsRoot(root)
    ensures Norm(OutDirectory(root, bucket)) == if bucket.None? then root else Follow(root, bucket.value)
  {
    NormOfText(root);
    NormTwice(if bucket.Some? then PosixJoin(Text(root), bucket.value) else Text(root));
    if bucket.Some? {
      FollowJoined(Text(root), bucket.value);
    }
    hide Norm, NormText, PosixJoin, Follow, Text;
  }

  // ---------- What a key leads to ----------

  /** Where a path leads: an absolute one by itself, a relative one by its segments from a directory. */
  function Follow(from: Path, key: string): Path
  {
    if "/" <= key then Norm(key) else Steps(from, Split(key))
  }

  /** Where a key leads: from the bucket, which leads from the root. */
  function Target(root: Path, key: string, bucket: Option<string>): Path
  {
    Follow(if bucket.None? then root else Follow(root, bucket.value), key)
  }

  /** The test for what lies under the root.  Without a bucket a relative key must lead to a path that begins
      like the root; an absolute one must begin like it, as written or normalized.  With a bucket an absolute key
      must do so as written; a relative one is joined to the bucket, which counts as written if it begins like the
      root, and is normalized otherwise. */
  predicate Inside(root: Path, key: string, bucket: Option<string>)
  {
    if bucket.None? then
      if "/" <= key then Text(root) <= key || Text(root) <= NormText(key)
      else Text(root) <= Text(Target(root, key, bucket))
    else if "/" <= key then Text(root) <= key
    else Text(root) <= bucket.value || Text(root) <= PosixJoin(NormText(PosixJoin(Text(root), bucket.value)), key)
  }

  /** Getting a key finds what is at the place that the key leads to, if something is there and it passes the
      test. */
  lemma GetFollowsKey(d: Disk, root: Path, fallback: Option<string>, key: string, bucket: Option<string>)
    requires IsRoot(root)
    ensures var from := Chosen(bucket, fallback);
            var p := Target(root, key, from);
            GetOn(d, root, fallback, key, bucket)
            == if !Inside(root, key, from) || !Exists(d, p) then Nothing
               else if p in d.dirs then BucketAt(p) else FileAt(p)
  {
    LookupLeads(root, fallback, key, bucket);
    LookupInside(root, fallback, key, bucket);
    hide Norm, NormText, Text, PosixJoin, Target, Inside, Lookup;
  }

  lemma NormTwice(p: string)
    ensures Norm(NormText(p)) == Norm(p)
  {
    NormIsValid(p);
    NormOfText(Norm(p));
    var t := Text(Norm(p));
    assert "/" + t == "" + "/" + t;
    SplitConcat("", t);
    StepsConcat([], [""], Split(t));
    assert Split("") == [""] && Steps([], [""]) == [];
  }

  lemma FollowJoined(a: string, s: string)
    requires a != ""
    ensures Norm(PosixJoin(a, s)) == Follow(Norm(a), s)
  {
    if !("/" <= s) {
      NormJoined(a, s);
    }
  }

  lemma UnderRootIsAbsolute(root: Path, s: string)
    ensures Text(root) <= s ==> "/" <= s
  {
    if Text(root) <= s {
      assert s[0] == Text(root)[0];
    }
  }

  /** A text, normalized unless it begins like the root, leads where it leads from the root. */
  lemma FromRootLeads(root: Path, s: string)
    requires IsRoot(root)
    ensures Norm(if Text(root) <= s then s else NormText(PosixJoin(Text(root), s))) == Follow(root, s)
  {
    UnderRootIsAbsolute(root, s);
    if !(Text(root) <= s) {
      NormTwice(PosixJoin(Text(root), s));
      FollowJoined(Text(root), s);
      NormOfText(root);
    }
  }

  /** The path looked for leads where the key leads. */
  lemma LookupLeads(root: Path, fallback: Option<string>, key: string, bucket: Option<string>)
    requires IsRoot(root)
    ensures Norm(Lookup(root, fallback, key, bucket)) == Target(root, key, Chosen(bucket, fallback))
  {
    var from := Chosen(bucket, fallback);
    if from.None? {
      FromRootLeads(root, key);
    } else {
      FromRootLeads(root, from.value);
      FollowJoined(if Text(root) <= from.value then from.value else NormText(PosixJoin(Text(root), from.value)), key);
    }
    hide Norm, NormText, Text, PosixJoin, Follow;
  }

  lemma LookupInside(root: Path, fallback: Option<string>, key: string, bucket: Option<string>)
    requires IsRoot(root)
    ensures Text(root) <= Lookup(root, fallback, key, bucket) <==> Inside(root, key, Chosen(bucket, fallback))
  {
    var from := Chosen(bucket, fallback);
    UnderRootIsAbsolute(root, key);
    if from.None? {
      if !("/" <= key) {
        FromRoot(root, key);
        LookupLeads(root, fallback, key, bucket);
        NormTwice(PosixJoin(Text(root), key));
      }
    } else if Text(root) <= from.value && !("/" <= key) {
      assert from.value <= PosixJoin(from.value, key);
    }
    hide Norm, NormText, Text, Follow;
  }

  /** Normalizing what is joined to the root does not change where it leads. */
  lemma FromRoot(root: Path, key: string)
    requires IsRoot(root) && !("/" <= key)
    ensures var p := PosixJoin(Text(root), key);
            NormText(p) == Text(Norm(p)) && Norm(NormText(p)) == Norm(p) && NormText(p) != ""
    ensures !(Text(root) <= key)
  {
    var p := PosixJoin(Text(root), key);
    SecondIsNoSlash(root);
    assert p[1] == Text(root)[1];
    NormIsValid(p);
    NormOfText(Norm(p));
    assert Text(root)[0] == '/';
  }

  // ---------- Reading back ----------

  /** Without a default bucket the relative key finds the file. */
  lemma RelativeKeyFinds(d: Disk, root: Path, fallback: Option<string>, place: Path)
    requires Filer.Valid(d) && IsRoot(root) && AllValid(place) && place != root && Text(root) <= Text(place)
    requires place in d.files && Chosen(None, fallback).None?
    ensures GetOn(d, root, fallback, Join(Relative(place, root)), None) == FileAt(place)
  {
    var key := Join(Relative(place, root));
    KeyFromRoot(root, place);
    SecondIsNoSlash(root);
    var p := PosixJoin(Text(root), key);
    NormOfText(place);
    hide Norm, PosixJoin, Relative, Join, Text;
    assert NormText(p) == Text(place) by {
      assert Text(root)[1] == p[1];
    }
    assert !(Text(root) <= key);
  }

  lemma KeyFromRoot(root: Path, place: Path)
    requires IsRoot(root) && AllValid(place) && place != root
    ensures var key := Join(Relative(place, root));
            && !(Text(root) <= key) && Text(root) <= PosixJoin(Text(root), key)
            && Norm(PosixJoin(Text(root), key)) == place
  {
    RelativeText(place, root);
    var key := Join(Relative(place, root));
    NormOfText(root);
    NormJoined(Text(root), key);
    RelativeLeadsThere(place, root, []);
    assert [] + root == root && [] + place == place;
    assert Text(root)[0] == '/' && key[0] != '/';
  }

  /** The absolute key finds the file, whatever the default bucket. */
  lemma AbsoluteKeyFinds(d: Disk, root: Path, fallback: Option<string>, place: Path)
    requires Filer.Valid(d) && IsRoot(root) && AllValid(place) && Text(root) <= Text(place) && place in d.files
    ensures GetOn(d, root, fallback, Text(place), None) == FileAt(place)
  {
    NormOfText(place);
  }

  /** The directory that a default bucket stands for. */
  function BucketText(root: Path, bucket: string): string
  {
    if Text(root) <= bucket then bucket else NormText(PosixJoin(Text(root), bucket))
  }

  /** The default bucket is the root itself. */
  predicate OpensRoot(root: Path, bucket: string)
  {
    Norm(BucketText(root, bucket)) == root && Text(root) <= BucketText(root, bucket)
  }

  lemma TextIsRooted(p: Path)
    ensures "/" <= Text(p)
  {
  }

  /** From the default bucket, the relative key of the place leads to the place: climbing as far as it does
      from the root to where the paths part gets to the same directory. */
  predicate OpensPlace(root: Path, bucket: string, place: Path)
  {
    && Text(root) <= BucketText(root, bucket)
    && Climbed(Norm(BucketText(root, bucket)), |root| - Shared(place, root)) == root[..Shared(place, root)]
  }

  /** Where the relative key of a place leads from a bucket. */
  lemma KeyInBucket(root: Path, bucket: string, place: Path)
    requires IsRoot(root) && AllValid(place) && place != root
    ensures var k := PosixJoin(BucketText(root, bucket), Join(Relative(place, root)));
            var n := Shared(place, root);
            && BucketText(root, bucket) <= k
            && Norm(k) == Climbed(Norm(BucketText(root, bucket)), |root| - n) + place[n..]
  {
    hide *;
    var n := Shared(place, root);
    RelativeText(place, root);
    RelativeParts(place, root);
    TailIsValid(place, n);
    BucketIsSome(root, bucket);
    KeyLeads(BucketText(root, bucket), Join(Relative(place, root)), |root| - n, place[n..]);
  }

  lemma BucketIsSome(root: Path, bucket: string)
    ensures BucketText(root, bucket) != ""
  {
  }

  lemma TailIsValid(p: Path, n: nat)
    requires AllValid(p) && n <= |p|
    ensures AllValid(p[n..])
  {
    assert forall i | 0 <= i < |p[n..]| :: p[n..][i] == p[n + i];
  }

  /** A key of some steps up and then names. */
  lemma KeyLeads(from: string, key: string, up: nat, names: seq<string>)
    requires from != "" && !("/" <= key) && Split(key) == Ups(up) + names && AllValid(names)
    ensures from <= PosixJoin(from, key) && Norm(PosixJoin(from, key)) == Climbed(Norm(from), up) + names
  {
    NormJoined(from, key);
    hide Norm;
    StepsUpAndDown(Norm(from), up, names);
  }

  lemma StepsUpAndDown(at: Path, n: nat, names: seq<string>)
    requires AllValid(names)
    ensures Steps(at, Ups(n) + names) == Climbed(at, n) + names
  {
    StepsConcat(at, Ups(n), names);
    StepsClimb(at, n);
    StepsOfNames(Climbed(at, n), names);
  }

  lemma SameTail(a: Path, b: Path, names: seq<string>)
    requires a != b
    ensures a + names != b + names
  {
    assert (a + names)[..|a|] == a && (b + names)[..|b|] == b;
  }

  // ---------- The textual test ----------

  lemma {:induction false} HeadOfPrefix(s: string, t: string)
    requires s <= t
    ensures Head(s) <= Head(t)
  {
    if s != "" && s[0] != '/' {
      assert s[0] == t[0] && s[1..] <= t[1..];
      HeadOfPrefix(s[1..], t[1..]);
    }
  }

  /** If the text of a root goes on from another path's by a key that begins with '..', it stops there. */
  lemma NoRootClimbs(root: Path, at: Path, key: string)
    requires IsRoot(root) && AllValid(at) && Head(key) == ".." && Text(root) <= Stem(at) + "/" + key
    ensures Text(root) <= Stem(at)
  {
    hide Text, Stem, Head;
    var text, stem := Text(root), Stem(at);
    if |text| > |stem| {
      var s := text[|stem| + 1..];
      assert text == stem + "/" + s && s <= key by {
        PrefixBeyond(text, stem, key);
      }
      RestOfRoot(root, at, s);
      HeadOfPrefix(s, key);
      assert ValidId(root[|at|]);
      DotsAreNoName(Head(s));
    } else {
      assert text == (stem + "/" + key)[..|text|] == stem[..|text|];
    }
  }

  lemma PrefixBeyond(text: string, stem: string, key: string)
    requires text <= stem + "/" + key && |text| > |stem|
    ensures text == stem + "/" + text[|stem| + 1..] && text[|stem| + 1..] <= key
  {
    assert text == (stem + "/" + key)[..|text|];
  }

  lemma RestOfRoot(root: Path, at: Path, s: string)
    requires IsRoot(root) && AllValid(at) && Text(root) == Stem(at) + "/" + s
    ensures |root| > |at| && root[|at|] == Head(s)
  {
    SplitConcat(Stem(at), s);
    StemSplits(at);
    StemSplits(root);
    hide Text, Stem;
    SameAfterFirst(root, at, Split(s));
    assert Split(s)[0] == Head(s);
  }

  lemma SameAfterFirst(a: seq<string>, b: seq<string>, c: seq<string>)
    requires [""] + a == ([""] + b) + c
    ensures a == b + c
  {
    assert a == ([""] + a)[1..] && b + c == (([""] + b) + c)[1..];
  }

  lemma DotsAreNoName(name: string)
    requires name <= ".."
    ensures !ValidId(name)
  {
    assert |name| == 1 ==> name == ".";
    assert |name| == 2 ==> name == "..";
  }

  /** Once the key leads from the bucket to the place, the test for a key under the root is one for the
      bucket. */
  lemma BucketDecides(root: Path, bucket: string, place: Path)
    requires IsRoot(root) && AllValid(place) && place != root && Text(root) <= Text(place)
    requires !(Text(root) <= BucketText(root, bucket))
    requires var n := Shared(place, root); Climbed(Norm(BucketText(root, bucket)), |root| - n) == root[..n]
    ensures !(Text(root) <= PosixJoin(BucketText(root, bucket), Join(Relative(place, root))))
  {
    var b, key, n := BucketText(root, bucket), Join(Relative(place, root)), Shared(place, root);
    var p := PosixJoin(Text(root), bucket);
    KeyInBucket(root, bucket, place);
    SecondIsNoSlash(root);
    NormIsValid(p);
    NormOfText(Norm(p));
    hide Norm, Text, PosixJoin, Relative, Join, Stem, Head;
    if b == Text(Norm(p)) {
      if n < |root| {
        ClimbingKey(place, root);
        JoinedToStem(Norm(p), key);
        if Text(root) <= PosixJoin(b, key) {
          NoRootClimbs(root, Norm(p), key);
          StemIsShort(Norm(p));
        }
      } else {
        NoClimb(Norm(b), root);
      }
    } else {
      TextIsRooted(Norm(p));
      assert b == "/" + Text(Norm(p)) && b[1] == '/';
    }
  }

  lemma StemIsShort(p: Path)
    ensures Stem(p) <= Text(p)
  {
  }

  lemma NoClimb(at: Path, root: Path)
    ensures Climbed(at, 0) == at && root[..|root|] == root
  {
  }

  lemma JoinedToStem(at: Path, key: string)
    requires AllValid(at) && !("/" <= key)
    ensures PosixJoin(Text(at), key) == Stem(at) + "/" + key
  {
    if at != [] {
      JoinNotRooted(at);
      JoinEndsInName(at);
    }
  }

  /** The key of a place that is not under the root begins with a step up. */
  lemma ClimbingKey(place: Path, root: Path)
    requires IsRoot(root) && AllValid(place) && place != root && Shared(place, root) < |root|
    ensures Head(Join(Relative(place, root))) == ".." && !("/" <= Join(Relative(place, root)))
  {
    RelativeText(place, root);
    RelativeParts(place, root);
    assert Relative(place, root)[0] == "..";
    assert Split(Join(Relative(place, root)))[0] == Head(Join(Relative(place, root)));
  }

  lemma GetFromBucket(d: Disk, root: Path, fallback: Option<string>, key: string, place: Path)
    requires Filer.Valid(d) && place in d.files && Chosen(None, fallback).Some?
    ensures var k := PosixJoin(BucketText(root, fallback.value), key);
            GetOn(d, root, fallback, key, None) == FileAt(place) <==> Text(root) <= k && Norm(k) == place
  {
    hide Norm, NormText, Text, PosixJoin;
  }

  /** With a default bucket the relative key finds the file exactly if the bucket opens its place: `save`
      returns the key relative to the root, `get` takes it relative to the bucket. */
  lemma BucketKeyFindsIff(d: Disk, root: Path, fallback: Option<string>, place: Path)
    requires Filer.Valid(d) && IsRoot(root) && AllValid(place) && place != root && Text(root) <= Text(place)
    requires place in d.files && Chosen(None, fallback).Some?
    ensures GetOn(d, root, fallback, Join(Relative(place, root)), None) == FileAt(place)
       <==> OpensPlace(root, fallback.value, place)
  {
    GetFromBucket(d, root, fallback, Join(Relative(place, root)), place);
    KeyMeets(root, fallback.value, place);
    hide GetOn, Norm, Text, PosixJoin, Relative, Join, BucketText, OpensPlace;
  }

  lemma KeyMeets(root: Path, bucket: string, place: Path)
    requires IsRoot(root) && AllValid(place) && place != root && Text(root) <= Text(place)
    ensures var k := PosixJoin(BucketText(root, bucket), Join(Relative(place, root)));
            Text(root) <= k && Norm(k) == place <==> OpensPlace(root, bucket, place)
  {
    hide Norm, Text, PosixJoin, Relative, Join, Climbed, BucketText, AllValid, Shared, Split;
    var b, n, key := BucketText(root, bucket), Shared(place, root), Join(Relative(place, root));
    var at := Climbed(Norm(b), |root| - n);
    KeyInBucket(root, bucket, place);
    SameParts(at, root[..n], place, n);
    if at == root[..n] && !(Text(root) <= b) {
      BucketDecides(root, bucket, place);
    }
  }

  lemma SameParts(a: Path, b: Path, place: Path, n: nat)
    requires n <= |place| && place[..n] == b
    ensures a + place[n..] == place <==> a == b
  {
    assert place == b + place[n..];
    if a != b {
      SameTail(a, b, place[n..]);
    }
  }

  /** For a file under the root, that is exactly if the bucket is the root. */
  lemma OpensUnderRoot(root: Path, bucket: string, place: Path)
    requires root <= place
    ensures OpensPlace(root, bucket, place) <==> OpensRoot(root, bucket)
  {
    hide Norm, BucketText, Text;
    assert root[..|root|] == root;
    assert Norm(BucketText(root, bucket))[..|Norm(BucketText(root, bucket))|] == Norm(BucketText(root, bucket));
  }

  /** A default bucket that is a plain name opens no place, so relative keys never read back. */
  lemma PlainBucketLoses(root: Path, bucket: string, place: Path)
    requires IsRoot(root) && ValidId(bucket)
    ensures !OpensPlace(root, bucket, place)
  {
    assert '/' !in bucket;
    assert !(Text(root) <= bucket) by {
      assert Text(root)[0] == '/';
    }
    var p := PosixJoin(Text(root), bucket);
    NormOfText(root);
    NormJoined(Text(root), bucket);
    PlainSplit(bucket);
    StepsOfNames(root, [bucket]);
    NormIsValid(p);
    NormOfText(Norm(p));
    SecondIsNoSlash(root);
    assert Norm(p) == root + [bucket];
    hide Norm, Text, PosixJoin;
    var n := Shared(place, root);
    assert |Climbed(root + [bucket], |root| - n)| == n + 1;
  }

  lemma PlainSplit(name: string)
    requires ValidId(name)
    ensures Split(name) == [name] && AllValid([name])
  {
    assert Join([name]) == name;
    SplitUndoesJoin([name]);
  }

  /** Over any run of further saves, what was saved stays and is read back under the key returned, if the
      key is absolute or there is no default bucket; if there is one, exactly if the bucket opens the
      place. */
  lemma SavedReadsBack(d: Disk, root: Path, fallback: Option<string>, q: Request, later: seq<Request>)
    requires Filer.Valid(d) && IsRoot(root) && Adds(q) && AllAdd(later)
    requires SaveOn(d, root, fallback, q).0.Saved?
    ensures var (r, e) := SaveOn(d, root, fallback, q);
            var end := Run(e, root, fallback, later);
            && r.place in end.files && end.files[r.place] == q.data
            && (GetOn(end, root, fallback, r.key, None) == FileAt(r.place)
                <==> !q.relative || Chosen(None, fallback).None? || OpensPlace(root, fallback.value, r.place))
  {
    var (r, e) := SaveOn(d, root, fallback, q);
    SaveKeepsFiles(d, root, fallback, q);
    SavedPlace(d, root, fallback, q);
    hide SaveOn, GetOn, Norm, Text, Relative, Join, OpensPlace;
    RunKeepsFiles(e, root, fallback, later);
    var end := Run(e, root, fallback, later);
    assert r.place in e.files;
    KeyFinds(end, root, fallback, r.place, q.relative);
  }

  /** For a file under the root: exactly if there is no default bucket or it is the root. */
  lemma SavedUnderRootReadsBack(d: Disk, root: Path, fallback: Option<string>, q: Request, later: seq<Request>)
    requires Filer.Valid(d) && IsRoot(root) && Adds(q) && AllAdd(later)
    requires SaveOn(d, root, fallback, q).0.Saved? && root <= SaveOn(d, root, fallback, q).0.place
    ensures var (r, e) := SaveOn(d, root, fallback, q);
            GetOn(Run(e, root, fallback, later), root, fallback, r.key, None) == FileAt(r.place)
            <==> !q.relative || Chosen(None, fallback).None? || OpensRoot(root, fallback.value)
  {
    hide SaveOn, GetOn, Norm, Text, Relative, Join, OpensPlace, OpensRoot, Run;
    SavedReadsBack(d, root, fallback, q, later);
    if Chosen(None, fallback).Some? {
      OpensUnderRoot(root, fallback.value, SaveOn(d, root, fallback, q).0.place);
    }
  }

  lemma KeyFinds(d: Disk, root: Path, fallback: Option<string>, place: Path, relative: bool)
    requires Filer.Valid(d) && IsRoot(root) && AllValid(place) && place != root && Text(root) <= Text(place)
    requires place in d.files
    ensures var key := if relative then Join(Relative(place, root)) else Text(place);
            GetOn(d, root, fallback, key, None) == FileAt(place)
            <==> !relative || Chosen(None, fallback).None? || OpensPlace(root, fallback.value, place)
  {
    hide GetOn, Norm, Text, Relative, Join, OpensPlace;
    if !relative {
      AbsoluteKeyFinds(d, root, fallback, place);
    } else if Chosen(None, fallback).None? {
      RelativeKeyFinds(d, root, fallback, place);
    } else {
      BucketKeyFindsIff(d, root, fallback, place);
    }
  }
}
