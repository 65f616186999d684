/** The store that files sources in the directories of a disk. */
module Filer {
  import opened Options
  import opened ContentFolders
  import opened FolderPaths
  import opened FilePaths
  import opened Strings

  // ---------- Unused names ----------

  function Digit(n: nat): char
    requires n < 10
  {
    "0123456789"[n]
  }

  function Decimal(n: nat): (r: string)
    ensures r != "" && (|r| == 1 <==> n < 10)
  {
    if n < 10 then [Digit(n)] else Decimal(n / 10) + [Digit(n % 10)]
  }

  lemma {:induction false} DecimalsDiffer(m: nat, n: nat)
    requires Decimal(m) == Decimal(n)
    ensures m == n
    decreases m
  {
    var a, b := Decimal(m), Decimal(n);
    assert a[|a| - 1] == Digit(m % 10) && b[|b| - 1] == Digit(n % 10);
    assert m % 10 == n % 10;
    if m >= 10 && n >= 10 {
      assert Decimal(m / 10) == a[..|a| - 1] == b[..|b| - 1] == Decimal(n / 10);
      DecimalsDiffer(m / 10, n / 10);
    }
  }

  lemma {:induction false} DecimalHasNoSlash(n: nat)
    ensures '/' !in Decimal(n)
  {
    if n >= 10 {
      DecimalHasNoSlash(n / 10);
    }
  }

  predicate IsDigit(c: char)
  {
    '0' <= c <= '9'
  }

  /** The number that digits stand for. */
  function ValueOf(s: string): nat
    requires forall i | 0 <= i < |s| :: IsDigit(s[i])
  {
    if s == "" then 0
    else
      assert IsDigit(s[|s| - 1]);
      10 * ValueOf(s[..|s| - 1]) + (s[|s| - 1] as int - '0' as int)
  }

  /** The decimal is made of digits, without a zero in front, and stands for the number. */
  lemma {:induction false} DecimalReads(n: nat)
    ensures forall i | 0 <= i < |Decimal(n)| :: IsDigit(Decimal(n)[i])
    ensures ValueOf(Decimal(n)) == n && (n > 0 ==> Decimal(n)[0] != '0')
  {
    var s := Decimal(n);
    if n < 10 {
      assert s[..0] == "";
    } else {
      DecimalReads(n / 10);
      assert s[..|s| - 1] == Decimal(n / 10);
    }
  }

  /** `os.path.splitext` of a name: the extension starts at the last dot, unless only dots come before it. */
  function SplitExt(name: string): (r: (string, string))
    ensures r.0 + r.1 == name
  {
    var dot := FindLast(name, '.');
    if dot >= 0 && exists i | 0 <= i < dot :: name[i] != '.' then (name[..dot], name[dot..]) else (name, "")
  }

  /** The name tried at a count. */
  function Candidate(name: string, now: string, count: nat): string
  {
    (SplitExt(name).0 + "." + now + ".") + Decimal(count) + SplitExt(name).1
  }

  /** The extension of the name starts at i: at its last dot, if something other than a dot comes before. */
  ghost predicate ExtensionAt(name: string, i: nat)
  {
    && i < |name| && name[i] == '.' && (forall j | i < j < |name| :: name[j] != '.')
    && exists j | 0 <= j < i :: name[j] != '.'
  }

  /** The file is the name with time and count before its extension, or at its end if it has none. */
  ghost predicate Numbered(file: string, name: string, now: string, count: nat)
  {
    && (forall i: nat | ExtensionAt(name, i) ::
          file == name[..i] + ("." + now + "." + Decimal(count)) + name[i..])
    && ((forall i: nat :: !ExtensionAt(name, i)) ==> file == name + ("." + now + "." + Decimal(count)))
  }

  /** With some count, from one on. */
  ghost predicate HasNumber(file: string, name: string, now: string)
  {
    exists count: nat | count >= 1 :: Numbered(file, name, now, count)
  }

  lemma CandidateIsNumbered(name: string, now: string, count: nat)
    ensures Numbered(Candidate(name, now, count), name, now, count)
  {
    var dot := FindLast(name, '.');
    var number := "." + now + "." + Decimal(count);
    var base, ext := SplitExt(name).0, SplitExt(name).1;
    assert Candidate(name, now, count) == base + number + ext;
    forall i: nat | ExtensionAt(name, i)
      ensures i == dot && base == name[..i] && ext == name[i..]
    {
      assert name[i] == '.';
    }
    if forall i: nat :: !ExtensionAt(name, i) {
      assert dot >= 0 ==> !ExtensionAt(name, dot);
      assert base == name && ext == "";
      assert name + number + "" == name + number;
    }
  }

  lemma CandidatesDiffer(name: string, now: string, i: nat, j: nat)
    requires Candidate(name, now, i) == Candidate(name, now, j)
    ensures i == j
  {
    var front, ext := SplitExt(name).0 + "." + now + ".", SplitExt(name).1;
    var c := Candidate(name, now, i);
    assert Decimal(i) == c[|front|..|c| - |ext|] == Decimal(j);
    DecimalsDiffer(i, j);
  }

  lemma CandidateIsName(name: string, now: string, count: nat)
    requires '/' !in name && '/' !in now
    ensures ValidId(Candidate(name, now, count))
  {
    DecimalHasNoSlash(count);
    assert SplitExt(name).0 + SplitExt(name).1 == name;
    assert forall c | c in SplitExt(name).0 || c in SplitExt(name).1 :: c in name;
    var s := Candidate(name, now, count);
    assert s[|SplitExt(name).0|] == '.' && s[|SplitExt(name).0| + 1 + |now|] == '.';
    assert |s| > 2;
  }

  function At(dir: Path, name: string, now: string, count: nat): Path
  {
    dir + [Candidate(name, now, count)]
  }

  lemma PlacesDiffer(dir: Path, name: string, now: string, i: nat, j: nat)
    requires At(dir, name, now, i) == At(dir, name, now, j)
    ensures i == j
  {
    assert At(dir, name, now, i)[|dir|] == Candidate(name, now, i);
    assert At(dir, name, now, j)[|dir|] == Candidate(name, now, j);
    CandidatesDiffer(name, now, i, j);
  }

  /** The least count, from one on, whose place is not taken; as the counts give different places, and
      finitely many are taken, there is one. */
  function FirstFree(taken: set<Path>, dir: Path, name: string, now: string, from: nat): (r: nat)
    ensures r >= from && At(dir, name, now, r) !in taken
    ensures forall i | from <= i < r :: At(dir, name, now, i) in taken
    decreases |taken|
  {
    var place := At(dir, name, now, from);
    if place !in taken then from
    else
      var r := FirstFree(taken - {place}, dir, name, now, from + 1);
      assert At(dir, name, now, r) != place by {
        if At(dir, name, now, r) == place {
          PlacesDiffer(dir, name, now, r, from);
        }
      }
      r
  }

  // ---------- The disk ----------

  datatype Disk = Disk(files: map<Path, string>, dirs: set<Path>)

  /** No path is both a file and a directory. */
  ghost predicate Valid(d: Disk)
  {
    d.files.Keys !! d.dirs
  }

  predicate Exists(d: Disk, p: Path)
  {
    p in d.files || p in d.dirs
  }

  /** `os.makedirs`, unless something is there. */
  function WithDirectory(d: Disk, p: Path): Disk
  {
    if Exists(d, p) then d else d.(dirs := d.dirs + {p})
  }

  /** `bucket or default`: the first of the two that is there and not empty. */
  function Chosen(bucket: Option<string>, fallback: Option<string>): (r: Option<string>)
    ensures r.Some? ==> r.value != "" && (r == bucket || (r == fallback && bucket in {None, Some("")}))
    ensures r.None? ==> bucket in {None, Some("")} && fallback in {None, Some("")}
  {
    if bucket.Some? && bucket.value != "" then bucket
    else if fallback == Some("") then None else fallback
  }

  function OutDirectory(root: Path, bucket: Option<string>): string
  {
    NormText(if bucket.Some? then PosixJoin(Text(root), bucket.value) else Text(root))
  }

  /** The last part of a key. */
  function Tail(key: string): string
  {
    var parts := Split(key); parts[|parts| - 1]
  }

  datatype Outcome = Saved(key: string, place: Path) | Refused

  datatype Request = Request(key: string, data: string, now: string, bucket: Option<string>, overwrite: bool,
                             relative: bool)

  /** Where a request is filed; None if its name is a directory. */
  function Place(d: Disk, dir: Path, q: Request): Option<Path>
  {
    var name := Tail(q.key);
    if !q.overwrite then Some(At(dir, name, q.now, FirstFree(d.files.Keys + d.dirs, dir, name, q.now, 1)))
    else if ValidId(name) then Some(dir + [name])
    else None
  }

  /** `save` */
  function SaveOn(d: Disk, root: Path, fallback: Option<string>, q: Request): (Outcome, Disk)
  {
    var out := OutDirectory(root, Chosen(q.bucket, fallback));
    if !(Text(root) <= out) then (Refused, d)
    else
      var dir := Norm(out);
      var made := WithDirectory(d, dir);
      var place := Place(made, dir, q);
      if dir in made.files || place.None? || place.value in made.dirs then (Refused, made)
      else
        (Saved(if q.relative then Join(Relative(place.value, root)) else Text(place.value), place.value),
         made.(files := made.files[place.value := q.data]))
  }

  datatype Source = Nothing | BucketAt(path: Path) | FileAt(path: Path)

  /** The path that `get` and `contains` look for. */
  function Lookup(root: Path, fallback: Option<string>, key: string, bucket: Option<string>): string
  {
    match Chosen(bucket, fallback)
    case Some(b) => PosixJoin(if Text(root) <= b then b else NormText(PosixJoin(Text(root), b)), key)
    case None => if Text(root) <= key then key else NormText(PosixJoin(Text(root), key))
  }

  /** `get` */
  function GetOn(d: Disk, root: Path, fallback: Option<string>, key: string, bucket: Option<string>): Source
  {
    var k := Lookup(root, fallback, key, bucket);
    var p := Norm(k);
    if !(Text(root) <= k) || !Exists(d, p) then Nothing
    else if p in d.dirs then BucketAt(p)
    else FileAt(p)
  }

  // ---------- The object ----------

  class DirectoryFiler {
    const root: Path
    const defaultBucket: Option<string>
    var disk: Disk

    constructor (root: Path, defaultBucket: Option<string>, disk: Disk)
      requires AllValid(root) && root != []
      ensures this.root == root && this.defaultBucket == defaultBucket
      ensures this.disk == WithDirectory(disk, root)
    {
      this.root, this.defaultBucket := root, defaultBucket;
      this.disk := if Exists(disk, root) then disk else disk.(dirs := disk.dirs + {root});
    }

    /** `_get_unique_file_name` */
    method UniqueFileName(dir: Path, name: string, now: string) returns (place: Path)
      ensures place == At(dir, name, now, FirstFree(disk.files.Keys + disk.dirs, dir, name, now, 1))
      ensures !Exists(disk, place) && |place| == |dir| + 1 && place[..|dir|] == dir
      ensures HasNumber(place[|dir|], name, now)
    {
      ghost var taken := disk.files.Keys + disk.dirs;
      ghost var first := FirstFree(taken, dir, name, now, 1);
      var count: nat := 0;
      while true
        invariant 0 <= count < first
        invariant forall i | 1 <= i <= count :: At(dir, name, now, i) in taken
        decreases first - count
      {
        count := count + 1;
        place := dir + [Candidate(name, now, count)];
        assert place == At(dir, name, now, count);
        if !Exists(disk, place) {
          assert count == first;
          CandidateIsNumbered(name, now, count);
          assert place[..|dir|] == dir && place[|dir|] == Candidate(name, now, count);
          break;
        }
      }
    }

    method Save(q: Request) returns (r: Outcome)
      modifies this
      ensures (r, disk) == SaveOn(old(disk), root, defaultBucket, q)
    {
      hide FirstFree, At, Norm, NormText, PosixJoin, Relative, Join, Split, ValidId, Text;
      var parts := Split(q.key);
      var name := parts[|parts| - 1];
      var bucket := Chosen(q.bucket, defaultBucket);
      var out := NormText(if bucket.Some? then PosixJoin(Text(root), bucket.value) else Text(root));
      if !(Text(root) <= out) {
        return Refused;
      }
      var dir := Norm(out);
      if !Exists(disk, dir) {
        disk := disk.(dirs := disk.dirs + {dir});
      }
      var place;
      if !q.overwrite {
        place := UniqueFileName(dir, name, q.now);
      } else if ValidId(name) {
        place := dir + [name];
      } else {
        return Refused;
      }
      if dir in disk.files || place in disk.dirs {
        return Refused;
      }
      disk := disk.(files := disk.files[place := q.data]);
      return Saved(if q.relative then Join(Relative(place, root)) else Text(place), place);
    }

    method Get(key: string, bucket: Option<string>) returns (r: Source)
      ensures r == GetOn(disk, root, defaultBucket, key, bucket)
    {
      var k := key;
      var chosen := Chosen(bucket, defaultBucket);
      if chosen.Some? {
        var b := chosen.value;
        if !(Text(root) <= b) {
          b := NormText(PosixJoin(Text(root), b));
        }
        k := PosixJoin(b, key);
      } else if !(Text(root) <= k) {
        k := NormText(PosixJoin(Text(root), k));
      }
      if !(Text(root) <= k) || !Exists(disk, Norm(k)) {
        return Nothing;
      }
      var p := Norm(k);
      r := if p in disk.dirs then BucketAt(p) else FileAt(p);
    }

    method Contains(key: string, bucket: Option<string>) returns (r: bool)
      ensures r == !GetOn(disk, root, defaultBucket, key, bucket).Nothing?
    {
      var k := key;
      var chosen := Chosen(bucket, defaultBucket);
      if chosen.Some? {
        var b := chosen.value;
        if !(Text(root) <= b) {
          b := NormText(PosixJoin(Text(root), b));
        }
        k := PosixJoin(b, key);
      } else if !(Text(root) <= k) {
        k := NormText(PosixJoin(Text(root), k));
      }
      r := Text(root) <= k && Exists(disk, Norm(k));
    }
  }
}
