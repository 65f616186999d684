/** Filters over user generated data: removing duplicates across lists, combining predicates, and the
    cached filter by mime type. */
module UgdFilters {
  import opened Options

  /** What the containers hold: nothing, numbers (modification stamps), and objects, by identity. */
  datatype Entry = Missing | Number(value: int) | Object(oid: nat)

  type Filter = Entry -> bool

  /** The entries that satisfy p, in order. */
  function Where(xs: seq<Entry>, p: Filter): seq<Entry>
  {
    if xs == [] then [] else (if p(xs[0]) then [xs[0]] else []) + Where(xs[1..], p)
  }

  lemma {:induction false} WhereCounts(xs: seq<Entry>, p: Filter, x: Entry)
    ensures multiset(Where(xs, p))[x] == if p(x) then multiset(xs)[x] else 0
  {
    if xs != [] {
      assert xs == [xs[0]] + xs[1..];
      WhereCounts(xs[1..], p, x);
    }
  }

  lemma WherePermutes(xs: seq<Entry>, ys: seq<Entry>, p: Filter)
    requires multiset(xs) == multiset(ys)
    ensures multiset(Where(xs, p)) == multiset(Where(ys, p))
  {
    forall x
      ensures multiset(Where(xs, p))[x] == multiset(Where(ys, p))[x]
    {
      WhereCounts(xs, p, x);
      WhereCounts(ys, p, x);
    }
  }

  lemma {:induction false} WhereConcat(xs: seq<Entry>, ys: seq<Entry>, p: Filter)
    ensures Where(xs + ys, p) == Where(xs, p) + Where(ys, p)
  {
    if xs == [] {
      assert xs + ys == ys;
    } else {
      assert (xs + ys)[1..] == xs[1..] + ys;
      WhereConcat(xs[1..], ys, p);
      Associative(if p(xs[0]) then [xs[0]] else [], Where(xs[1..], p), Where(ys, p));
    }
  }

  // ---------- Removing duplicates ----------

  function Oids(xs: seq<Entry>): set<nat>
  {
    set x | x in xs && x.Object? :: x.oid
  }

  predicate IsNew(x: Entry, seen: set<nat>)
  {
    x.Object? && x.oid !in seen
  }

  predicate Passes(p: Option<Filter>, x: Entry)
  {
    p.Some? ==> p.value(x)
  }

  /** The objects of a list that were not seen before and pass. */
  function Kept(xs: seq<Entry>, seen: set<nat>, p: Option<Filter>): (r: seq<Entry>)
    ensures |r| <= |xs|
  {
    if xs == [] then []
    else (if IsNew(xs[0], seen) && Passes(p, xs[0]) then [xs[0]] else []) + Kept(xs[1..], seen + Oids([xs[0]]), p)
  }

  lemma OidsConcat(xs: seq<Entry>, ys: seq<Entry>)
    ensures Oids(xs + ys) == Oids(xs) + Oids(ys)
  {
    assert forall x | x in xs + ys :: x in xs || x in ys;
    assert forall x | x in xs || x in ys :: x in xs + ys;
  }

  /** Filtering two lists one after the other with the same memory is filtering their concatenation. */
  lemma {:induction false} KeptConcat(xs: seq<Entry>, ys: seq<Entry>, seen: set<nat>, p: Option<Filter>)
    ensures Kept(xs + ys, seen, p) == Kept(xs, seen, p) + Kept(ys, seen + Oids(xs), p)
    decreases |xs|
  {
    if xs == [] {
      assert xs + ys == ys && seen + Oids(xs) == seen;
    } else {
      assert (xs + ys)[1..] == xs[1..] + ys;
      assert xs == [xs[0]] + xs[1..];
      OidsConcat([xs[0]], xs[1..]);
      assert (seen + Oids([xs[0]])) + Oids(xs[1..]) == seen + Oids(xs);
      hide Oids, IsNew, Passes;
      KeptConcat(xs[1..], ys, seen + Oids([xs[0]]), p);
      var first := if IsNew(xs[0], seen) && Passes(p, xs[0]) then [xs[0]] else [];
      Associative(first, Kept(xs[1..], seen + Oids([xs[0]]), p), Kept(ys, seen + Oids(xs), p));
    }
  }

  lemma Associative(a: seq<Entry>, b: seq<Entry>, c: seq<Entry>)
    ensures a + (b + c) == (a + b) + c
  {
  }

  /** What is kept: every object that was not seen before and passes, and each once. */
  lemma {:induction false} KeptCounts(xs: seq<Entry>, seen: set<nat>, p: Option<Filter>, x: Entry)
    ensures multiset(Kept(xs, seen, p))[x]
         == if x in xs && x.Object? && x.oid !in seen && (p.None? || p.value(x)) then 1 else 0
    decreases |xs|
  {
    if xs != [] {
      KeptCounts(xs[1..], seen + Oids([xs[0]]), p, x);
      assert xs == [xs[0]] + xs[1..];
      assert xs[0].Object? ==> xs[0].oid in Oids([xs[0]]);
    }
  }

  lemma NothingKept(seen: set<nat>, p: Option<Filter>)
    ensures Kept([], seen, p) == [] && Oids([]) == {}
  {
  }

  lemma OneKept(x: Entry, seen: set<nat>, p: Option<Filter>)
    ensures Kept([x], seen, p) == if x.Object? && x.oid !in seen && (p.None? || p.value(x)) then [x] else []
  {
    assert [x][1..] == [];
  }

  /** The memory that the filters of all lists of one query share. */
  class Memory {
    var oids: set<nat>

    constructor ()
      ensures oids == {}
    {
      oids := {};
    }

    /** `_base_predicate` */
    method Admits(x: Entry) returns (ok: bool)
      modifies this
      ensures ok == (x.Object? && x.oid !in old(oids))
      ensures oids == if x.Object? then old(oids) + {x.oid} else old(oids)
      ensures oids == old(oids) + Oids([x])
    {
      if x == Missing || x.Number? {
        return false;
      }
      if x.oid in oids {
        assert oids == oids + Oids([x]);
        return false;
      }
      oids := oids + {x.oid};
      return true;
    }

    /** Draws a whole list through the filter; the predicate only sees what is admitted. */
    method Filtered(xs: seq<Entry>, p: Option<Filter>) returns (kept: seq<Entry>)
      modifies this
      ensures kept == Kept(xs, old(oids), p)
      ensures oids == old(oids) + Oids(xs)
    {
      hide Kept, IsNew, Passes, Oids;
      kept := [];
      NothingKept(old(oids), p);
      for i := 0 to |xs|
        invariant kept == Kept(xs[..i], old(oids), p)
        invariant oids == old(oids) + Oids(xs[..i])
      {
        ghost var before := oids;
        var ok := Admits(xs[i]);
        if ok && p.Some? {
          ok := p.value(xs[i]);
        }
        if ok {
          kept := kept + [xs[i]];
        }
        assert xs[..i + 1] == xs[..i] + [xs[i]];
        OidsConcat(xs[..i], [xs[i]]);
        KeptConcat(xs[..i], [xs[i]], old(oids), p);
        OneKept(xs[i], before, p);
      }
      assert xs[..|xs|] == xs;
    }
  }

  // ---------- Combining predicates ----------

  datatype Operator = Union | Intersection

  /** `_combine_predicate` */
  function Combined(p: Filter, q: Option<Filter>, operator: Operator): Filter
  {
    match q
    case None => p
    case Some(prior) => if operator == Union then x => p(x) || prior(x) else x => p(x) && prior(x)
  }

  predicate Satisfies(x: Entry, ps: seq<Filter>, operator: Operator)
  {
    if operator == Union then exists i | 0 <= i < |ps| :: ps[i](x)
    else forall i | 0 <= i < |ps| :: ps[i](x)
  }

  /** The complete predicate of a query: the mime filter and the filters by name are combined as the
      request says, and what must hold in any case is intersected with that. */
  method CompletePredicate(mime: Option<Filter>, named: seq<Filter>, required: seq<Filter>, operator: Operator)
    returns (r: Option<Filter>)
    ensures var types := (if mime.Some? then [mime.value] else []) + named;
            && (r.None? <==> types == [] && required == [])
            && (r.Some? ==> forall x :: r.value(x) <==>
                  && (types == []
                      || (if operator == Union then exists i | 0 <= i < |types| :: types[i](x)
                          else forall i | 0 <= i < |types| :: types[i](x)))
                  && forall i | 0 <= i < |required| :: required[i](x))
  {
    var combined, must: Option<Filter> := mime, None;
    ghost var types := if mime.Some? then [mime.value] else [];
    if mime.Some? {
      AloneSatisfies(mime.value, operator);
    }
    for i := 0 to |named|
      invariant types == (if mime.Some? then [mime.value] else []) + named[..i]
      invariant combined.None? <==> types == []
      invariant combined.Some? ==> forall x :: combined.value(x) <==> Satisfies(x, types, operator)
    {
      AddOne(named[i], combined, types, operator);
      types := types + [named[i]];
      combined := Some(Combined(named[i], combined, operator));
    }
    assert named[..|named|] == named;
    for i := 0 to |required|
      invariant must.None? <==> i == 0
      invariant must.Some? ==> forall x :: must.value(x) <==> Satisfies(x, required[..i], Intersection)
    {
      AddOne(required[i], must, required[..i], Intersection);
      assert required[..i + 1] == required[..i] + [required[i]];
      must := Some(Combined(required[i], must, Intersection));
    }
    assert required[..|required|] == required;
    if must.Some? {
      return Some(Combined(must.value, combined, Intersection));
    }
    return combined;
  }

  lemma AloneSatisfies(p: Filter, operator: Operator)
    ensures forall x :: p(x) <==> Satisfies(x, [p], operator)
  {
    assert [p][0] == p;
  }

  lemma AddOne(p: Filter, q: Option<Filter>, ps: seq<Filter>, operator: Operator)
    requires q.None? <==> ps == []
    requires q.Some? ==> forall x :: q.value(x) <==> Satisfies(x, ps, operator)
    ensures forall x :: Combined(p, q, operator)(x) <==> Satisfies(x, ps + [p], operator)
  {
    forall x
      ensures Combined(p, q, operator)(x) <==> Satisfies(x, ps + [p], operator)
    {
      assert (ps + [p])[|ps|] == p;
      assert forall i | 0 <= i < |ps| :: (ps + [p])[i] == ps[i];
      if q.Some? {
        assert q.value(x) <==> Satisfies(x, ps, operator);
      }
    }
  }
}
