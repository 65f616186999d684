/** The path functions of a POSIX system that the file store relies on. */
module FilePaths {
  import opened ContentFolders
  import opened FolderPaths

  /** An absolute path without '.', '..' and empty segments, as its names from the root. */
  type Path = seq<string>

  function Text(p: Path): string
  {
    "/" + Join(p)
  }

  function PosixJoin(a: string, b: string): string
  {
    if "/" <= b then b
    else if a == "" || a[|a| - 1] == '/' then a + b
    else a + "/" + b
  }

  function StepTo(at: Path, segment: string): Path
  {
    if segment == "" || segment == "." then at
    else if segment == ".." then (if at == [] then [] else at[..|at| - 1])
    else at + [segment]
  }

  function Steps(at: Path, segments: seq<string>): Path
    decreases |segments|
  {
    if segments == [] then at else Steps(StepTo(at, segments[0]), segments[1..])
  }

  /** Where an absolute path leads. */
  function Norm(p: string): Path
  {
    Steps([], Split(p))
  }

  /** `os.path.normpath` of an absolute path; exactly two slashes in front stay two. */
  function NormText(p: string): string
  {
    if "//" <= p && !("///" <= p) then "/" + Text(Norm(p)) else Text(Norm(p))
  }

  /** So many steps up. */
  function Ups(n: nat): seq<string>
  {
    seq(n, _ => "..")
  }

  /** The segments of `os.path.relpath(p, base)`. */
  function Relative(p: Path, base: Path): seq<string>
  {
    if base == [] then p
    else if p != [] && p[0] == base[0] then Relative(p[1..], base[1..])
    else Ups(|base|) + p
  }

  // ---------- Splitting ----------

  ghost predicate NoSlashes(segments: seq<string>)
  {
    forall i | 0 <= i < |segments| :: '/' !in segments[i]
  }

  lemma {:induction false} SplitHasNoSlashes(p: string)
    ensures NoSlashes(Split(p))
    decreases |p|
  {
    var head := Head(p);
    if |head| == |p| {
      assert p == head;
    } else {
      SplitHasNoSlashes(p[|head| + 1..]);
    }
  }

  lemma {:induction false} HeadBeforeSlash(a: string, s: string)
    ensures Head(a + "/" + s) == Head(a)
  {
    if a != "" && a[0] != '/' {
      assert (a + "/" + s)[1..] == a[1..] + "/" + s;
      HeadBeforeSlash(a[1..], s);
    }
  }

  lemma {:induction false} SplitConcat(a: string, s: string)
    ensures Split(a + "/" + s) == Split(a) + Split(s)
    decreases |a|
  {
    var p, head := a + "/" + s, Head(a);
    HeadBeforeSlash(a, s);
    if |head| == |a| {
      assert p[|head| + 1..] == s && head == a;
    } else {
      assert p[|head| + 1..] == a[|head| + 1..] + "/" + s;
      SplitConcat(a[|head| + 1..], s);
      assert [head] + (Split(a[|head| + 1..]) + Split(s)) == ([head] + Split(a[|head| + 1..])) + Split(s);
    }
  }

  lemma NamesHaveNoSlashes(names: seq<string>)
    requires AllValid(names)
    ensures NoSlashes(names)
  {
    forall i | 0 <= i < |names|
      ensures '/' !in names[i]
    {
      assert ValidId(names[i]);
    }
  }

  // ---------- Where paths lead ----------

  lemma {:induction false} StepsConcat(at: Path, a: seq<string>, b: seq<string>)
    ensures Steps(at, a + b) == Steps(Steps(at, a), b)
    decreases |a|
  {
    if a == [] {
      assert a + b == b;
    } else {
      assert (a + b)[1..] == a[1..] + b;
      StepsConcat(StepTo(at, a[0]), a[1..], b);
    }
  }

  lemma {:induction false} StepsOfNames(at: Path, names: seq<string>)
    requires AllValid(names)
    ensures Steps(at, names) == at + names
    decreases |names|
  {
    if names != [] {
      assert ValidId(names[0]);
      assert forall i | 0 <= i < |names[1..]| :: names[1..][i] == names[i + 1];
      StepsOfNames(at + [names[0]], names[1..]);
      assert (at + [names[0]]) + names[1..] == at + names;
    }
  }

  lemma {:induction false} StepsUp(at: Path, rest: Path)
    ensures Steps(at + rest, Ups(|rest|)) == at
    decreases |rest|
  {
    if rest == [] {
      assert at + rest == at;
    } else {
      assert Ups(|rest|)[1..] == Ups(|rest| - 1);
      assert (at + rest)[..|at + rest| - 1] == at + rest[..|rest| - 1];
      StepsUp(at, rest[..|rest| - 1]);
    }
  }

  /** Where so many steps up lead; at the top they stay there. */
  function Climbed(at: Path, n: nat): Path
  {
    if n <= |at| then at[..|at| - n] else []
  }

  lemma {:induction false} StepsClimb(at: Path, n: nat)
    ensures Steps(at, Ups(n)) == Climbed(at, n)
    decreases n
  {
    if n > 0 {
      assert Ups(n)[1..] == Ups(n - 1);
      StepsClimb(StepTo(at, ".."), n - 1);
    }
  }

  /** How many names two paths begin with in common. */
  function Shared(p: Path, q: Path): (n: nat)
    ensures n <= |p| && n <= |q| && p[..n] == q[..n]
    ensures n == |q| <==> q <= p
  {
    if p == [] || q == [] || p[0] != q[0] then 0
    else
      var n := Shared(p[1..], q[1..]);
      assert p[..n + 1] == [p[0]] + p[1..][..n] && q[..n + 1] == [q[0]] + q[1..][..n];
      assert p == [p[0]] + p[1..] && q == [q[0]] + q[1..];
      n + 1
  }

  /** A relative path climbs to where the paths part, and goes down from there. */
  lemma {:induction false} RelativeParts(p: Path, base: Path)
    ensures Relative(p, base) == Ups(|base| - Shared(p, base)) + p[Shared(p, base)..]
    decreases |base|
  {
    if base == [] {
      assert Ups(0) + p == p;
    } else if p != [] && p[0] == base[0] {
      RelativeParts(p[1..], base[1..]);
      assert p[1..][Shared(p[1..], base[1..])..] == p[Shared(p, base)..];
    }
  }

  lemma {:induction false} StepsStayValid(at: Path, segments: seq<string>)
    requires AllValid(at) && NoSlashes(segments)
    ensures AllValid(Steps(at, segments))
    decreases |segments|
  {
    if segments != [] {
      assert forall i | 0 <= i < |segments[1..]| :: segments[1..][i] == segments[i + 1];
      StepsStayValid(StepTo(at, segments[0]), segments[1..]);
    }
  }

  lemma NormIsValid(p: string)
    ensures AllValid(Norm(p))
  {
    SplitHasNoSlashes(p);
    StepsStayValid([], Split(p));
  }

  lemma NormSlash(a: string, s: string)
    ensures Norm(a + "/" + s) == Steps(Norm(a), Split(s))
  {
    SplitConcat(a, s);
    StepsConcat([], Split(a), Split(s));
  }

  /** Joining a relative path and normalizing goes on from where the first path leads. */
  lemma NormJoined(a: string, s: string)
    requires a != "" && !("/" <= s)
    ensures Norm(PosixJoin(a, s)) == Steps(Norm(a), Split(s))
  {
    if a[|a| - 1] == '/' {
      var b := a[..|a| - 1];
      assert a == b + "/" + "" && a + s == b + "/" + s;
      NormSlash(b, "");
      NormSlash(b, s);
      NoFurther(Norm(b));
    } else {
      NormSlash(a, s);
    }
  }

  lemma NoFurther(at: Path)
    ensures Steps(at, Split("")) == at
  {
    assert Split("") == [""];
    assert Steps(at, [""]) == Steps(at, []);
  }

  lemma NormOfText(p: Path)
    requires AllValid(p)
    ensures Norm(Text(p)) == p
  {
    NamesHaveNoSlashes(p);
    assert Text(p) == "" + "/" + Join(p);
    SplitConcat("", Join(p));
    assert Split("") == [""];
    StepsConcat([], [""], Split(Join(p)));
    assert Steps([], [""]) == [];
    if p == [] {
      assert Split(Join(p)) == [""];
    } else {
      SplitUndoesJoin(p);
      StepsOfNames([], p);
    }
  }

  /** A normalized path begins with two slashes exactly if the path began with two and not with three. */
  lemma TwoSlashes(p: string)
    ensures "//" <= NormText(p) <==> "//" <= p && !("///" <= p)
  {
    NormIsValid(p);
    var names := Norm(p);
    if names != [] {
      assert ValidId(names[0]);
      assert Text(names)[1] == names[0][0] && names[0][0] in names[0];
    }
    hide Norm;
  }

  lemma {:induction false} RelativeLeadsThere(p: Path, base: Path, above: Path)
    requires AllValid(p)
    ensures Steps(above + base, Relative(p, base)) == above + p
    decreases |base|
  {
    if base == [] {
      assert above + base == above;
      StepsOfNames(above, p);
    } else if p != [] && p[0] == base[0] {
      assert above + base == (above + [base[0]]) + base[1..];
      assert forall i | 0 <= i < |p[1..]| :: p[1..][i] == p[i + 1];
      RelativeLeadsThere(p[1..], base[1..], above + [p[0]]);
      assert (above + [p[0]]) + p[1..] == above + p;
    } else {
      StepsUp(above, base);
      StepsConcat(above + base, Ups(|base|), p);
      StepsOfNames(above, p);
    }
  }

  /** The segments of a relative path: some steps up, then names. */
  lemma {:induction false} RelativeIsPlain(p: Path, base: Path)
    requires AllValid(p) && p != base
    ensures Relative(p, base) != []
    ensures forall i | 0 <= i < |Relative(p, base)| :: Relative(p, base)[i] == ".." || ValidId(Relative(p, base)[i])
    decreases |base|
  {
    if base != [] && p != [] && p[0] == base[0] {
      assert p == [p[0]] + p[1..] && base == [base[0]] + base[1..];
      assert forall i | 0 <= i < |p[1..]| :: p[1..][i] == p[i + 1];
      RelativeIsPlain(p[1..], base[1..]);
    }
  }

  lemma {:induction false} RelativeBelow(base: Path, names: seq<string>)
    ensures Relative(base + names, base) == names
    decreases |base|
  {
    if base == [] {
      assert base + names == names;
    } else {
      assert (base + names)[1..] == base[1..] + names;
      RelativeBelow(base[1..], names);
    }
  }

  /** The text of a relative path is relative, and splits into its segments. */
  lemma RelativeText(p: Path, base: Path)
    requires AllValid(p) && p != base
    ensures var r := Join(Relative(p, base)); r != "" && !("/" <= r) && Split(r) == Relative(p, base)
  {
    var segments := Relative(p, base);
    RelativeIsPlain(p, base);
    forall i | 0 <= i < |segments|
      ensures '/' !in segments[i] && segments[i] != ""
    {
    }
    SplitUndoesJoin(segments);
    assert Join(segments)[0] == segments[0][0] && segments[0][0] in segments[0];
  }
}
