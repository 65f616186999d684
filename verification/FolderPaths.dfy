/** Paths through the folders: printing the path of an object, following a path, making the folders of
    a path. */
module FolderPaths {
  import opened Options
  import opened FolderTree
  import opened ContentFolders

  // ---------- Splitting and joining at '/' ----------

  function Join(names: seq<string>): string
  {
    if names == [] then "" else if |names| == 1 then names[0] else names[0] + "/" + Join(names[1..])
  }

  /** The first segment of a path. */
  function Head(path: string): (r: string)
    ensures '/' !in r && r <= path && (|r| == |path| || path[|r|] == '/')
  {
    if path == "" || path[0] == '/' then "" else [path[0]] + Head(path[1..])
  }

  function Split(path: string): (r: seq<string>)
    ensures r != []
    decreases |path|
  {
    var head := Head(path);
    if |head| == |path| then [path] else [head] + Split(path[|head| + 1..])
  }

  lemma {:induction false} HeadOfJoin(name: string, rest: string)
    requires '/' !in name
    ensures Head(name + "/" + rest) == name
  {
    if name != "" {
      assert (name + "/" + rest)[1..] == name[1..] + "/" + rest;
      assert forall i | 0 <= i < |name[1..]| :: name[1..][i] == name[i + 1];
      HeadOfJoin(name[1..], rest);
    }
  }

  lemma {:induction false} SplitUndoesJoin(names: seq<string>)
    requires names != [] && forall i | 0 <= i < |names| :: '/' !in names[i]
    ensures Split(Join(names)) == names
  {
    if |names| == 1 {
      var head := Head(names[0]);
      assert |head| == |names[0]|;
    } else {
      var rest := Join(names[1..]);
      HeadOfJoin(names[0], rest);
      assert Join(names)[|names[0]| + 1..] == rest;
      SplitUndoesJoin(names[1..]);
    }
  }

  lemma {:induction false} JoinConcat(a: seq<string>, b: seq<string>)
    requires a != [] && b != []
    ensures Join(a + b) == Join(a) + "/" + Join(b)
    decreases |a|
  {
    if |a| == 1 {
      assert (a + b)[1..] == b;
    } else {
      assert (a + b)[1..] == a[1..] + b;
      JoinConcat(a[1..], b);
      assert a[0] + "/" + (Join(a[1..]) + "/" + Join(b)) == (a[0] + "/" + Join(a[1..])) + "/" + Join(b);
    }
  }

  // ---------- The path of an object ----------

  /** The names met when following keys down from x. */
  ghost function Names(s: Store, x: Oid, keys: seq<string>): (r: seq<string>)
    requires Walk(s, x, keys).Some?
    ensures |r| == |keys|
    decreases |keys|
  {
    if keys == [] then []
    else
      var c := s[x].children[keys[0]];
      [if c in s then s[c].name else ""] + Names(s, c, keys[1..])
  }

  lemma {:induction false} NamesSnoc(s: Store, x: Oid, keys: seq<string>, k: string)
    requires Walk(s, x, keys + [k]).Some?
    ensures Walk(s, x, keys).Some?
    ensures var y := Walk(s, x, keys + [k]).value;
            Names(s, x, keys + [k]) == Names(s, x, keys) + [if y in s then s[y].name else ""]
    decreases |keys|
  {
    WalkConcat(s, x, keys, [k]);
    if keys == [] {
      assert [] + [k] == [k] && [k][1..] == [];
    } else {
      assert (keys + [k])[1..] == keys[1..] + [k];
      NamesSnoc(s, s[x].children[keys[0]], keys[1..], k);
    }
  }

  function Rooted(path: string): string
  {
    if "/" <= path then path else "/" + path
  }

  function Reversed<T>(s: seq<T>): (r: seq<T>)
    ensures |r| == |s|
  {
    if s == [] then [] else [s[|s| - 1]] + Reversed(s[..|s| - 1])
  }

  lemma {:induction false} ReversedSnoc<T>(s: seq<T>, x: T)
    ensures Reversed([x] + s) == Reversed(s) + [x]
  {
    if s == [] {
      assert [x] + s == [x];
    } else {
      assert ([x] + s)[..|s|] == [x] + s[..|s| - 1];
      ReversedSnoc(s[..|s| - 1], x);
    }
  }

  lemma {:induction false} ReversedTwice<T>(s: seq<T>)
    ensures Reversed(Reversed(s)) == s
  {
    if s != [] {
      ReversedTwice(s[..|s| - 1]);
      ReversedSnoc(Reversed(s[..|s| - 1]), s[|s| - 1]);
    }
  }

  /** Walking down from the root, only the walk of no steps ends at a root folder. */
  lemma OnlyTheTopIsRoot(s: Store, fold: Fold, root: Oid, keys: seq<string>, x: Oid)
    requires IsTree(s, fold, root) && Walk(s, root, keys) == Some(x)
    ensures x in s && (s[x].kind == RootFolder <==> keys == [])
  {
    if keys != [] {
      LastStep(s, fold, root, root, keys, x);
      assert LinksAgree(s, fold, s[x].parent.value);
    }
  }

  /** Climbing from y to its parent moves the last name from the walk to the names collected. */
  lemma ClimbOne(s: Store, fold: Fold, root: Oid, above: seq<string>, y: Oid, collected: seq<string>)
    requires IsTree(s, fold, root) && Walk(s, root, above) == Some(y) && above != []
    ensures y in s && s[y].parent.Some? && s[y].parent.value in s
    ensures Walk(s, root, above[..|above| - 1]) == Some(s[y].parent.value)
    ensures Names(s, root, above) + Reversed(collected)
         == Names(s, root, above[..|above| - 1]) + Reversed(collected + [s[y].name])
  {
    hide Walk, Names, Reversed;
    LastStep(s, fold, root, root, above, y);
    var front, last := above[..|above| - 1], above[|above| - 1];
    assert above == front + [last];
    NamesSnoc(s, root, front, last);
    ReversedGrows(collected, s[y].name);
    Shift(Names(s, root, front), s[y].name, Reversed(collected));
  }

  lemma Shift<T>(a: seq<T>, x: T, b: seq<T>)
    ensures a + [x] + b == a + ([x] + b)
  {
  }

  lemma ReversedGrows<T>(s: seq<T>, x: T)
    ensures Reversed(s + [x]) == [x] + Reversed(s)
  {
    assert (s + [x])[..|s|] == s;
  }

  /** `compute_path`: climbs from x to the root, collecting names. */
  method ComputePath(s: Store, fold: Fold, root: Oid, x: Oid, ghost keys: seq<string>) returns (path: string)
    requires IsTree(s, fold, root) && Walk(s, root, keys) == Some(x)
    ensures path == Rooted(Join(Names(s, root, keys)))
    ensures var joined := Join(Names(s, root, keys));
            path == if joined != "" && joined[0] == '/' then joined else "/" + joined
  {
    hide Names, Reversed, Walk, Join;
    var result: seq<string> := [];
    var context := x;
    ghost var above := keys;
    OnlyTheTopIsRoot(s, fold, root, above, context);
    NothingCollected(s, root, keys);
    while s[context].kind != RootFolder
      invariant Walk(s, root, above) == Some(context)
      invariant context in s && (s[context].kind == RootFolder <==> above == [])
      invariant Names(s, root, keys) == Names(s, root, above) + Reversed(result)
      decreases |above|
    {
      ClimbOne(s, fold, root, above, context, result);
      result := result + [s[context].name];
      context := s[context].parent.value;
      above := above[..|above| - 1];
      OnlyTheTopIsRoot(s, fold, root, above, context);
    }
    NothingAbove(s, root, result);
    path := Rooted(Join(Reversed(result)));
  }

  lemma NothingCollected(s: Store, x: Oid, keys: seq<string>)
    requires Walk(s, x, keys).Some?
    ensures Names(s, x, keys) == Names(s, x, keys) + Reversed([])
  {
  }

  lemma NothingAbove(s: Store, x: Oid, collected: seq<string>)
    ensures Walk(s, x, []).Some? && Names(s, x, []) + Reversed(collected) == Reversed(collected)
  {
  }

  // ---------- Following a path ----------

  datatype Result = Found(x: Oid) | NoSuchFile | NotDirectory | BadName

  /** One step up, which at the root stays there. */
  function Up(s: Store, root: Oid, x: Oid): Oid
  {
    if x == root || x !in s || s[x].parent.None? then x else s[x].parent.value
  }

  /** Where one segment leads from `current`. */
  function ResolveOne(s: Store, fold: Fold, root: Oid, current: Oid, segment: string): Result
  {
    if segment == "." then Found(current)
    else if segment == ".." then Found(Up(s, root, current))
    else if current !in s || s[current].kind == File then NotDirectory
    else if fold(segment) !in s[current].children then NoSuchFile
    else Found(s[current].children[fold(segment)])
  }

  /** Where a list of segments leads from `current`. */
  function Resolve(s: Store, fold: Fold, root: Oid, current: Oid, segments: seq<string>): Result
    decreases |segments|
  {
    if segments == [] then Found(current)
    else
      var next := ResolveOne(s, fold, root, current, segments[0]);
      if next.Found? then Resolve(s, fold, root, next.x, segments[1..]) else next
  }

  /** The segments of a path; a trailing '/' is ignored. */
  function Segments(path: string): seq<string>
  {
    var segments := Split(path);
    if |segments| > 1 && segments[|segments| - 1] == "" then segments[..|segments| - 1] else segments
  }

  /** `traverse`, given the root that `current` lies under. */
  function Traversed(s: Store, fold: Fold, root: Oid, current: Oid, path: string): Result
  {
    if path == "" || path == "/" then Found(root)
    else if "/" <= path then Resolve(s, fold, root, root, Segments(path[1..]))
    else Resolve(s, fold, root, current, Segments(path))
  }

  /** `find_interface(current, IRootFolder)` for an attached object. */
  method FindRoot(s: Store, fold: Fold, root: Oid, current: Oid, ghost keys: seq<string>) returns (r: Oid)
    requires IsTree(s, fold, root) && Walk(s, root, keys) == Some(current)
    ensures r == root
  {
    r := current;
    ghost var above := keys;
    OnlyTheTopIsRoot(s, fold, root, above, r);
    while s[r].kind != RootFolder
      invariant Walk(s, root, above) == Some(r)
      invariant r in s && (s[r].kind == RootFolder <==> above == [])
      decreases |above|
    {
      LastStep(s, fold, root, root, above, r);
      r := s[r].parent.value;
      above := above[..|above| - 1];
      OnlyTheTopIsRoot(s, fold, root, above, r);
    }
  }

  method Traverse(s: Store, fold: Fold, root: Oid, start: Oid, path: string, ghost keys: seq<string>)
    returns (r: Result)
    requires IsTree(s, fold, root) && Walk(s, root, keys) == Some(start)
    ensures r == Traversed(s, fold, root, start, path)
  {
    hide Split, Head, IsTree, Walk, Reversed;
    var top := FindRoot(s, fold, root, start, keys);
    if path == "" || path == "/" {
      return Found(top);
    }
    var current, relative := start, path;
    if "/" <= path {
      current, relative := top, path[1..];
    }
    var segments := Split(relative);
    if |segments| > 1 && segments[|segments| - 1] == "" {
      segments := segments[..|segments| - 1];
    }
    var pending := Reversed(segments);
    ReversedTwice(segments);
    while pending != []
      invariant Resolve(s, fold, root, current, Reversed(pending)) == Traversed(s, fold, root, start, path)
      decreases |pending|
    {
      var segment := pending[|pending| - 1];
      ReversedHead(pending);
      pending := pending[..|pending| - 1];
      if segment == "." {
        continue;
      }
      if segment == ".." {
        current := Up(s, top, current);
        continue;
      }
      if current !in s || s[current].kind == File {
        return NotDirectory;
      }
      if fold(segment) !in s[current].children {
        return NoSuchFile;
      }
      current := s[current].children[fold(segment)];
    }
    ReversedNothing<string>();
    return Found(current);
  }

  lemma ReversedHead<T>(s: seq<T>)
    requires s != []
    ensures Reversed(s)[0] == s[|s| - 1] && Reversed(s)[1..] == Reversed(s[..|s| - 1])
  {
  }

  lemma ReversedNothing<T>()
    ensures Reversed<T>([]) == []
  {
  }

  // ---------- The path of an object leads back to it ----------

  ghost predicate AllValid(names: seq<string>)
  {
    forall i | 0 <= i < |names| :: ValidId(names[i])
  }

  lemma {:induction false} ResolveNames(s: Store, fold: Fold, root: Oid, x: Oid, keys: seq<string>)
    requires IsTree(s, fold, root) && x in s && Walk(s, x, keys).Some? && AllValid(Names(s, x, keys))
    ensures Resolve(s, fold, root, x, Names(s, x, keys)) == Found(Walk(s, x, keys).value)
    decreases |keys|
  {
    if keys != [] {
      var c := s[x].children[keys[0]];
      var names := Names(s, x, keys);
      assert LinksAgree(s, fold, x);
      assert names[1..] == Names(s, c, keys[1..]);
      assert ValidId(names[0]);
      assert forall i | 0 <= i < |names[1..]| :: names[1..][i] == names[i + 1];
      ResolveNames(s, fold, root, c, keys[1..]);
    }
  }

  lemma JoinNotRooted(names: seq<string>)
    requires names != [] && AllValid(names)
    ensures Join(names) != "" && !("/" <= Join(names)) && Join(names)[0] != '/'
  {
    assert ValidId(names[0]);
    assert Join(names)[0] == names[0][0] && names[0][0] in names[0];
  }

  /** `traverse(n, compute_path(x)) == x` for all n and x under the root, when the names on the way are
      valid. */
  lemma TraverseUndoesComputePath(s: Store, fold: Fold, root: Oid, n: Oid, x: Oid, keys: seq<string>)
    requires IsTree(s, fold, root) && Walk(s, root, keys) == Some(x) && AllValid(Names(s, root, keys))
    ensures Traversed(s, fold, root, n, Rooted(Join(Names(s, root, keys)))) == Found(x)
  {
    hide Walk, Segments, Join, Resolve, IsTree;
    var names := Names(s, root, keys);
    if keys == [] {
      NoSteps(s, root);
    } else {
      RootedSegments(names);
      RootIsThere(s, fold, root);
      ResolveNames(s, fold, root, root, keys);
    }
  }

  lemma RootIsThere(s: Store, fold: Fold, root: Oid)
    requires IsTree(s, fold, root)
    ensures root in s
  {
  }

  lemma NoSteps(s: Store, x: Oid)
    ensures Join([]) == "" && Walk(s, x, []) == Some(x)
  {
  }

  lemma RootedSegments(names: seq<string>)
    requires names != [] && AllValid(names)
    ensures var path := Rooted(Join(names)); "/" <= path && path != "/" && Segments(path[1..]) == names
  {
    JoinNotRooted(names);
    forall i | 0 <= i < |names|
      ensures '/' !in names[i] && names[i] != ""
    {
      assert ValidId(names[i]);
    }
    SplitUndoesJoin(names);
    hide Join, Split;
    var path := Rooted(Join(names));
    assert path == "/" + Join(names) && path[1..] == Join(names);
  }

  // ---------- Making the folders of a path ----------

  /** What `safe_filename` makes of a segment; nothing is assumed about it. */
  type Safe = string -> string

  /** A store, the next unused identity, and where we are or how we failed. */
  datatype Progress = Progress(store: Store, next: Oid, result: Result)

  /** All identities in use are smaller. */
  ghost predicate Unused(s: Store, next: Oid)
  {
    forall x | x in s :: x < next
  }

  /** A new empty folder under a name; the name must be a valid id. */
  function NewFolder(s: Store, fold: Fold, f: Oid, name: string, next: Oid): Store
    requires f in s
  {
    Put(s[next := Item(Folder, name, None, map[], "")], fold, f, name, next)
  }

  /** `mkdirs` on one segment. */
  function MakeOne(s: Store, fold: Fold, safe: Safe, root: Oid, current: Oid, segment: string, next: Oid): Progress
  {
    if segment == "." then Progress(s, next, Found(current))
    else if segment == ".." then Progress(s, next, Found(Up(s, root, current)))
    else if current !in s || s[current].kind == File then Progress(s, next, NotDirectory)
    else
      var name := safe(segment);
      if fold(name) in s[current].children then Progress(s, next, Found(s[current].children[fold(name)]))
      else if !ValidId(name) then Progress(s, next, BadName)
      else Progress(NewFolder(s, fold, current, name, next), next + 1, Found(next))
  }

  /** `mkdirs` on a list of segments. */
  function Make(s: Store, fold: Fold, safe: Safe, root: Oid, current: Oid, segments: seq<string>, next: Oid): Progress
    decreases |segments|
  {
    if segments == [] then Progress(s, next, Found(current))
    else
      var p := MakeOne(s, fold, safe, root, current, segments[0], next);
      if p.result.Found? then Make(p.store, fold, safe, root, p.result.x, segments[1..], p.next) else p
  }

  method MakeDirectories(s: Store, fold: Fold, safe: Safe, root: Oid, start: Oid, path: string, free: Oid,
                         ghost keys: seq<string>) returns (store: Store, next: Oid, r: Result)
    requires IsTree(s, fold, root) && Walk(s, root, keys) == Some(start)
    ensures Progress(store, next, r) == Made(s, fold, safe, root, start, path, free)
  {
    hide Split, Head, IsTree, Walk, Reversed;
    store, next := s, free;
    var top := FindRoot(s, fold, root, start, keys);
    if path == "" || path == "/" {
      return s, free, Found(top);
    }
    var current, relative := start, path;
    if "/" <= path {
      current, relative := top, path[1..];
    }
    var segments := Split(relative);
    if |segments| > 1 && segments[|segments| - 1] == "" {
      segments := segments[..|segments| - 1];
    }
    var pending := Reversed(segments);
    ReversedTwice(segments);
    while pending != []
      invariant Make(store, fold, safe, root, current, Reversed(pending), next)
             == Made(s, fold, safe, root, start, path, free)
      decreases |pending|
    {
      var segment := pending[|pending| - 1];
      ReversedHead(pending);
      pending := pending[..|pending| - 1];
      if segment == "." {
        continue;
      }
      if segment == ".." {
        current := Up(store, top, current);
        continue;
      }
      if current !in store || store[current].kind == File {
        return store, next, NotDirectory;
      }
      var name := safe(segment);
      if fold(name) !in store[current].children {
        if !ValidId(name) {
          return store, next, BadName;
        }
        store := NewFolder(store, fold, current, name, next);
        current, next := next, next + 1;
      } else {
        current := store[current].children[fold(name)];
      }
    }
    ReversedNothing<string>();
    r := Found(current);
  }

  function Made(s: Store, fold: Fold, safe: Safe, root: Oid, current: Oid, path: string, next: Oid): Progress
  {
    if path == "" || path == "/" then Progress(s, next, Found(root))
    else if "/" <= path then Make(s, fold, safe, root, root, Segments(path[1..]), next)
    else Make(s, fold, safe, root, current, Segments(path), next)
  }

  /** t has every object of s, with the same kind and parent and at least the same links. */
  ghost predicate Extends(s: Store, t: Store)
  {
    forall x | x in s ::
      && x in t && t[x].kind == s[x].kind && t[x].parent == s[x].parent
      && forall k | k in s[x].children :: k in t[x].children && t[x].children[k] == s[x].children[k]
  }

  /** Children and parents are in the store, and `next` is unused. */
  ghost predicate Closed(s: Store, next: Oid)
  {
    && Unused(s, next)
    && (forall x, k | x in s && k in s[x].children :: s[x].children[k] in s)
    && (forall x | x in s && s[x].parent.Some? :: s[x].parent.value in s)
  }

  lemma ExtendsTransitive(s: Store, t: Store, u: Store)
    requires Extends(s, t) && Extends(t, u)
    ensures Extends(s, u)
  {
  }

  lemma NewFolderExtends(s: Store, fold: Fold, f: Oid, name: string, next: Oid)
    requires f in s && Closed(s, next) && fold(name) !in s[f].children
    ensures var t := NewFolder(s, fold, f, name, next);
            && Extends(s, t) && Closed(t, next + 1) && next in t
            && fold(name) in t[f].children && t[f].children[fold(name)] == next
  {
    var t := NewFolder(s, fold, f, name, next);
    forall x | x in t
      ensures t[x].children == if x == f then s[f].children[fold(name) := next]
                               else if x == next then map[] else s[x].children
      ensures t[x].parent == if x == next then Some(f) else s[x].parent
      ensures x != next ==> t[x].kind == s[x].kind
    {
    }
    NewFolderParts(s, t, f, fold(name), next);
  }

  lemma NewFolderParts(s: Store, t: Store, f: Oid, k: string, next: Oid)
    requires f in s && Closed(s, next) && k !in s[f].children && t.Keys == s.Keys + {next}
    requires forall x | x in t ::
               t[x].children == if x == f then s[f].children[k := next]
                                else if x == next then map[] else s[x].children
    requires forall x | x in t :: t[x].parent == if x == next then Some(f) else s[x].parent
    requires forall x | x in s :: t[x].kind == s[x].kind
    ensures Extends(s, t) && Closed(t, next + 1)
  {
  }

  /** One step of making keeps everything there was. */
  lemma MakeOneExtends(s: Store, fold: Fold, safe: Safe, root: Oid, current: Oid, g: string, next: Oid)
    requires Closed(s, next) && current in s
    ensures var p := MakeOne(s, fold, safe, root, current, g, next);
            Extends(s, p.store) && Closed(p.store, p.next) && (p.result.Found? ==> p.result.x in p.store)
  {
    if g != "." && g != ".." && s[current].kind != File && fold(safe(g)) !in s[current].children {
      NewFolderExtends(s, fold, current, safe(g), next);
    }
  }

  lemma {:induction false} MakeExtends(s: Store, fold: Fold, safe: Safe, root: Oid, current: Oid,
                                      segments: seq<string>, next: Oid)
    requires Closed(s, next) && current in s
    ensures Extends(s, Make(s, fold, safe, root, current, segments, next).store)
    decreases |segments|
  {
    if segments != [] {
      hide MakeOne, Closed;
      MakeOneExtends(s, fold, safe, root, current, segments[0], next);
      var p := MakeOne(s, fold, safe, root, current, segments[0], next);
      if p.result.Found? {
        MakeExtends(p.store, fold, safe, root, p.result.x, segments[1..], p.next);
        ExtendsTransitive(s, p.store, Make(p.store, fold, safe, root, p.result.x, segments[1..], p.next).store);
      }
    }
  }

  /** Segments that `safe_filename` leaves as they are. */
  ghost predicate AllSafe(safe: Safe, segments: seq<string>)
  {
    forall i | 0 <= i < |segments| :: safe(segments[i]) == segments[i]
  }

  /** One step, once made, can be followed in any later store, and making it again changes nothing. */
  lemma MadeOneIsThere(s: Store, fold: Fold, safe: Safe, root: Oid, current: Oid, g: string, next: Oid,
                       u: Store, later: Oid)
    requires Closed(s, next) && current in s && safe(g) == g
    requires MakeOne(s, fold, safe, root, current, g, next).result.Found?
    requires Extends(MakeOne(s, fold, safe, root, current, g, next).store, u)
    ensures var p := MakeOne(s, fold, safe, root, current, g, next);
            && ResolveOne(u, fold, root, current, g) == p.result
            && MakeOne(u, fold, safe, root, current, g, later) == Progress(u, later, p.result)
  {
    MakeOneExtends(s, fold, safe, root, current, g, next);
    var p := MakeOne(s, fold, safe, root, current, g, next);
    ExtendsTransitive(s, p.store, u);
    if g != "." && g != ".." && s[current].kind != File && fold(g) !in s[current].children {
      NewFolderExtends(s, fold, current, g, next);
      assert fold(g) in p.store[current].children;
    }
  }

  /** After making the folders of a path, following the path leads to the folder returned, and making
      them again changes nothing and returns the same. */
  lemma {:induction false} MadeIsThere(s: Store, fold: Fold, safe: Safe, root: Oid, current: Oid,
                                      segments: seq<string>, next: Oid, u: Store, later: Oid)
    requires Closed(s, next) && current in s && AllSafe(safe, segments)
    requires Make(s, fold, safe, root, current, segments, next).result.Found?
    requires Extends(Make(s, fold, safe, root, current, segments, next).store, u)
    ensures var p := Make(s, fold, safe, root, current, segments, next);
            && Resolve(u, fold, root, current, segments) == p.result
            && Make(u, fold, safe, root, current, segments, later) == Progress(u, later, p.result)
    decreases |segments|
  {
    if segments != [] {
      hide MakeOne, ResolveOne, Closed, Extends;
      var g, rest := segments[0], segments[1..];
      var p := MakeOne(s, fold, safe, root, current, g, next);
      assert AllSafe(safe, rest) && safe(g) == g;
      MakeOneExtends(s, fold, safe, root, current, g, next);
      MakeExtends(p.store, fold, safe, root, p.result.x, rest, p.next);
      ExtendsTransitive(p.store, Make(s, fold, safe, root, current, segments, next).store, u);
      MadeOneIsThere(s, fold, safe, root, current, g, next, u, later);
      MadeIsThere(p.store, fold, safe, root, p.result.x, rest, p.next, u, later);
    }
  }

  lemma TreeIsClosed(s: Store, fold: Fold, root: Oid, next: Oid)
    requires IsTree(s, fold, root) && Unused(s, next)
    ensures Closed(s, next)
  {
    forall x | x in s
      ensures LinksAgree(s, fold, x)
    {
    }
  }

  /** The segments that a path is cut into. */
  function SegmentsOf(path: string): seq<string>
  {
    if "/" <= path then Segments(path[1..]) else Segments(path)
  }

  /** If `mkdirs(n, p)` returns a folder and `safe_filename` leaves the segments of p as they are, then
      `traverse(n, p)` finds that folder, and a second `mkdirs` returns it and creates nothing. */
  lemma MkdirsThenTraverse(s: Store, fold: Fold, safe: Safe, root: Oid, n: Oid, path: string, next: Oid)
    requires IsTree(s, fold, root) && Unused(s, next) && n in s && AllSafe(safe, SegmentsOf(path))
    requires Made(s, fold, safe, root, n, path, next).result.Found?
    ensures var p := Made(s, fold, safe, root, n, path, next);
            && Traversed(p.store, fold, root, n, path) == p.result
            && Made(p.store, fold, safe, root, n, path, p.next) == Progress(p.store, p.next, p.result)
  {
    hide Make, Resolve, Segments, Closed;
    var p := Made(s, fold, safe, root, n, path, next);
    TreeIsClosed(s, fold, root, next);
    if path != "" && path != "/" {
      var from := if "/" <= path then root else n;
      MadeIsThere(s, fold, safe, root, from, SegmentsOf(path), next, p.store, p.next);
    }
  }

  /** A new item under an identity not yet used is nobody's child. */
  lemma NewItem(s: Store, fold: Fold, root: Oid, name: string, next: Oid)
    requires IsTree(s, fold, root) && next !in s
    ensures IsTree(s[next := Item(Folder, name, None, map[], "")], fold, root)
    ensures forall p, k | p in s && k in s[p].children :: s[p].children[k] != next
  {
    var t := s[next := Item(Folder, name, None, map[], "")];
    forall p | p in t
      ensures LinksAgree(t, fold, p)
    {
      assert p in s ==> LinksAgree(s, fold, p);
    }
    forall p, k | p in s && k in s[p].children
      ensures s[p].children[k] != next
    {
      assert LinksAgree(s, fold, p);
    }
  }

  lemma MakeOneKeepsTree(s: Store, fold: Fold, safe: Safe, root: Oid, current: Oid, g: string, next: Oid)
    requires IsTree(s, fold, root) && Unused(s, next) && current in s
    ensures IsTree(MakeOne(s, fold, safe, root, current, g, next).store, fold, root)
  {
    if g != "." && g != ".." && s[current].kind != File && fold(safe(g)) !in s[current].children
       && ValidId(safe(g)) {
      NewItem(s, fold, root, safe(g), next);
      AddKeepsTree(s[next := Item(Folder, safe(g), None, map[], "")], fold, root, current, next);
    }
  }

  /** Making the folders of a path, whether it succeeds or fails half way, keeps the tree. */
  lemma {:induction false} MakeKeepsTree(s: Store, fold: Fold, safe: Safe, root: Oid, current: Oid,
                                        segments: seq<string>, next: Oid)
    requires IsTree(s, fold, root) && Unused(s, next) && current in s
    ensures IsTree(Make(s, fold, safe, root, current, segments, next).store, fold, root)
    decreases |segments|
  {
    if segments != [] {
      TreeIsClosed(s, fold, root, next);
      MakeOneExtends(s, fold, safe, root, current, segments[0], next);
      MakeOneKeepsTree(s, fold, safe, root, current, segments[0], next);
      hide MakeOne, IsTree, Extends;
      var p := MakeOne(s, fold, safe, root, current, segments[0], next);
      if p.result.Found? {
        MakeKeepsTree(p.store, fold, safe, root, p.result.x, segments[1..], p.next);
      }
    }
  }
}
