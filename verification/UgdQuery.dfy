/** Sorting, filtering and merging the lists that a query for user generated data collects. */
module UgdQuery {
  import opened Options
  import opened UgdFilters
  import opened UgdSorting

  // ---------- What a query should return ----------

  function Present(objects: seq<Option<seq<Entry>>>): seq<seq<Entry>>
  {
    if objects == [] then []
    else (if objects[0].Some? then [objects[0].value] else []) + Present(objects[1..])
  }

  function Everything(objects: seq<Option<seq<Entry>>>): seq<Entry>
  {
    Flat(Present(objects))
  }

  /** What is left of a list of entries after the cheap filters. */
  function Taken(xs: seq<Entry>, needsFiltered: bool, p: Option<Filter>): seq<Entry>
  {
    if needsFiltered then Kept(xs, {}, p) else xs
  }

  function Allowed(xs: seq<Entry>, needsSecurity: bool, secure: Filter): seq<Entry>
  {
    if needsSecurity then Where(xs, secure) else xs
  }

  /** Everything that passes all filters, in the order it is met. */
  function Survivors(objects: seq<Option<seq<Entry>>>, needsFiltered: bool, p: Option<Filter>, needsSecurity: bool,
                     secure: Filter): seq<Entry>
  {
    Allowed(Taken(Everything(objects), needsFiltered, p), needsSecurity, secure)
  }

  /** An object of one of the lists that passes the predicate and the security check. */
  predicate Survives(objects: seq<Option<seq<Entry>>>, p: Option<Filter>, needsSecurity: bool, secure: Filter, x: Entry)
  {
    && x.Object? && (p.None? || p.value(x)) && (needsSecurity ==> secure(x))
    && exists i | 0 <= i < |objects| && objects[i].Some? :: x in objects[i].value
  }

  lemma FlatCons(xs: seq<Entry>, lists: seq<seq<Entry>>)
    ensures Flat([xs] + lists) == xs + Flat(lists)
  {
    assert ([xs] + lists)[1..] == lists;
  }

  /** Everything is what is in some list that is there. */
  lemma {:induction false} InEverything(objects: seq<Option<seq<Entry>>>, x: Entry)
    ensures x in Everything(objects) <==> exists i | 0 <= i < |objects| && objects[i].Some? :: x in objects[i].value
  {
    if objects != [] {
      InEverything(objects[1..], x);
      if objects[0].Some? {
        FlatCons(objects[0].value, Present(objects[1..]));
      } else {
        assert [] + Present(objects[1..]) == Present(objects[1..]);
      }
      if i :| 0 <= i < |objects[1..]| && objects[1..][i].Some? && x in objects[1..][i].value {
        assert objects[i + 1] == objects[1..][i];
      }
      if i :| 0 <= i < |objects| && objects[i].Some? && x in objects[i].value {
        assert i > 0 ==> objects[1..][i - 1] == objects[i];
      }
    }
  }

  /** With filtering, the survivors are each object that should survive, once. */
  lemma SurvivorsCount(objects: seq<Option<seq<Entry>>>, p: Option<Filter>, needsSecurity: bool, secure: Filter,
                       x: Entry)
    ensures multiset(Survivors(objects, true, p, needsSecurity, secure))[x]
         == if Survives(objects, p, needsSecurity, secure, x) then 1 else 0
  {
    InEverything(objects, x);
    KeptCounts(Everything(objects), {}, p, x);
    WhereCounts(Kept(Everything(objects), {}, p), secure, x);
  }

  // ---------- Lists of lists ----------

  lemma {:induction false} FlatSnoc(lists: seq<seq<Entry>>, xs: seq<Entry>)
    ensures Flat(lists + [xs]) == Flat(lists) + xs
  {
    if lists == [] {
      assert lists + [xs] == [xs];
      assert Flat([xs]) == xs + Flat([]);
    } else {
      assert (lists + [xs])[1..] == lists[1..] + [xs];
      FlatSnoc(lists[1..], xs);
    }
  }

  lemma {:induction false} PresentSnoc(objects: seq<Option<seq<Entry>>>, o: Option<seq<Entry>>)
    ensures Present(objects + [o]) == Present(objects) + if o.Some? then [o.value] else []
  {
    if objects == [] {
      assert objects + [o] == [o];
      assert Present([]) == [];
      assert [o][1..] == [];
    } else {
      assert (objects + [o])[1..] == objects[1..] + [o];
      PresentSnoc(objects[1..], o);
      hide Present;
      var first, last := if objects[0].Some? then [objects[0].value] else [], if o.Some? then [o.value] else [];
      assert first + (Present(objects[1..]) + last) == (first + Present(objects[1..])) + last;
    }
  }

  /** One after another, each list of ss has the entries allowed of the list of ks at its place. */
  ghost predicate Matching(ks: seq<seq<Entry>>, ss: seq<seq<Entry>>, needsSecurity: bool, secure: Filter)
  {
    |ks| == |ss| && forall j | 0 <= j < |ks| :: multiset(ss[j]) == multiset(Allowed(ks[j], needsSecurity, secure))
  }

  lemma {:induction false} MatchingFlat(ks: seq<seq<Entry>>, ss: seq<seq<Entry>>, needsSecurity: bool, secure: Filter)
    requires Matching(ks, ss, needsSecurity, secure)
    ensures multiset(Flat(ss)) == multiset(Allowed(Flat(ks), needsSecurity, secure))
    decreases |ks|
  {
    if ks != [] {
      MatchingFlat(ks[1..], ss[1..], needsSecurity, secure);
      WhereConcat(ks[0], Flat(ks[1..]), secure);
      assert multiset(ss[0]) == multiset(Allowed(ks[0], needsSecurity, secure));
    }
  }

  // ---------- The steps ----------

  /** The lists that are there, and how many entries they have. */
  method Collect(objects: seq<Option<seq<Entry>>>) returns (lists: seq<seq<Entry>>, total: nat)
    ensures lists == Present(objects) && total == |Everything(objects)|
  {
    lists, total := [], 0;
    for i := 0 to |objects|
      invariant lists == Present(objects[..i]) && total == |Flat(lists)|
    {
      assert objects[..i + 1] == objects[..i] + [objects[i]];
      PresentSnoc(objects[..i], objects[i]);
      if objects[i].Some? {
        FlatSnoc(lists, objects[i].value);
        lists := lists + [objects[i].value];
        total := total + |objects[i].value|;
      }
    }
    assert objects[..|objects|] == objects;
  }

  /** Draws the lists through the shared filter, one after the other. */
  method Draw(lists: seq<seq<Entry>>, needsFiltered: bool, p: Option<Filter>) returns (kept: seq<seq<Entry>>)
    ensures |kept| == |lists| && Flat(kept) == Taken(Flat(lists), needsFiltered, p)
  {
    kept := [];
    var memory := new Memory();
    for i := 0 to |lists|
      invariant |kept| == i && Flat(kept) == Taken(Flat(lists[..i]), needsFiltered, p)
      invariant fresh(memory) && memory.oids == if needsFiltered then Oids(Flat(lists[..i])) else {}
    {
      assert lists[..i + 1] == lists[..i] + [lists[i]];
      FlatSnoc(lists[..i], lists[i]);
      var xs := lists[i];
      if needsFiltered {
        KeptConcat(Flat(lists[..i]), xs, {}, p);
        OidsConcat(Flat(lists[..i]), xs);
        assert {} + Oids(Flat(lists[..i])) == Oids(Flat(lists[..i]));
        xs := memory.Filtered(xs, p);
      }
      FlatSnoc(kept, xs);
      kept := kept + [xs];
    }
    assert lists[..|lists|] == lists;
  }

  lemma FlatOfOne(xs: seq<Entry>)
    ensures Flat([xs]) == xs
  {
    assert Flat([xs]) == xs + Flat([]);
  }

  /** The sublists, each sorted, and the number of entries in them. */
  method SortEach(kept: seq<seq<Entry>>, key: SortKey) returns (sublists: seq<seq<Entry>>, filtered: nat)
    ensures |sublists| == |kept| && forall j | 0 <= j < |kept| :: sublists[j] == Sorted(kept[j], key)
    ensures filtered == |Flat(kept)|
  {
    sublists, filtered := [], 0;
    for i := 0 to |kept|
      invariant |sublists| == i && forall j | 0 <= j < i :: sublists[j] == Sorted(kept[j], key)
      invariant filtered == |Flat(kept[..i])|
    {
      assert kept[..i + 1] == kept[..i] + [kept[i]];
      FlatSnoc(kept[..i], kept[i]);
      sublists := sublists + [Sorted(kept[i], key)];
      filtered := filtered + |sublists[i]|;
    }
    assert kept[..|kept|] == kept;
  }

  method Secure(sublists: seq<seq<Entry>>, needsSecurity: bool, secure: Filter) returns (r: seq<seq<Entry>>)
    ensures |r| == |sublists|
    ensures forall j | 0 <= j < |sublists| :: r[j] == Allowed(sublists[j], needsSecurity, secure)
  {
    r := sublists;
    if needsSecurity {
      for i := 0 to |sublists|
        invariant |r| == |sublists|
        invariant forall j | 0 <= j < i :: r[j] == Where(sublists[j], secure)
        invariant forall j | i <= j < |sublists| :: r[j] == sublists[j]
      {
        r := r[i := Where(sublists[i], secure)];
      }
    }
  }

  /** The merged sublists, when there are any. */
  method MergeAll(sublists: seq<seq<Entry>>, key: SortKey) returns (merged: seq<Entry>)
    requires AllNonDecreasing(sublists, key)
    ensures NonDecreasing(merged, key) && multiset(merged) == multiset(Flat(sublists))
    ensures |sublists| == 1 ==> merged == sublists[0]
  {
    if |sublists| > 1 {
      merged := Merge(sublists, key);
      MergePermutes(sublists, key, merged);
      MergeSorts(sublists, key, merged);
    } else if sublists != [] {
      merged := sublists[0];
      FlatOfOne(merged);
    } else {
      merged := [];
    }
  }

  lemma SortedAndAllowed(kept: seq<seq<Entry>>, ss: seq<seq<Entry>>, needsSecurity: bool, secure: Filter, key: SortKey)
    requires |ss| == |kept|
    requires forall j | 0 <= j < |kept| :: ss[j] == Allowed(Sorted(kept[j], key), needsSecurity, secure)
    ensures AllNonDecreasing(ss, key)
    ensures multiset(Flat(ss)) == multiset(Allowed(Flat(kept), needsSecurity, secure))
  {
    forall j | 0 <= j < |kept|
      ensures NonDecreasing(ss[j], key) && multiset(ss[j]) == multiset(Allowed(kept[j], needsSecurity, secure))
    {
      SortedSorts(kept[j], key);
      WhereKeepsOrder(Sorted(kept[j], key), secure, key);
      WherePermutes(Sorted(kept[j], key), kept[j], secure);
    }
    MatchingFlat(kept, ss, needsSecurity, secure);
  }

  /** `_sort_filter_batch_objects` up to batching.  Few entries, or few for the number of lists, are sorted all at
      once; either way of sorting yields the survivors in order of their keys, with the same keys as sorting them
      all at once. */
  method SortFilterMerge(objects: seq<Option<seq<Entry>>>, needsFiltered: bool, p: Option<Filter>,
                         needsSecurity: bool, secure: Filter, key: SortKey)
    returns (total: nat, filtered: nat, merged: seq<Entry>)
    ensures total == |Everything(objects)|
    ensures filtered == |Taken(Everything(objects), needsFiltered, p)| <= total
    ensures NonDecreasing(merged, key)
    ensures multiset(merged) == multiset(Survivors(objects, needsFiltered, p, needsSecurity, secure))
    ensures needsFiltered ==> forall x ::
              multiset(merged)[x] == if Survives(objects, p, needsSecurity, secure, x) then 1 else 0
    ensures !needsFiltered ==> forall x ::
              multiset(merged)[x] == if needsSecurity && !secure(x) then 0 else multiset(Everything(objects))[x]
    ensures Keys(merged, key) == Keys(Sorted(Survivors(objects, needsFiltered, p, needsSecurity, secure), key), key)
    ensures total < |Present(objects)| * 4 || total < 5000 ==>
              merged == Allowed(Sorted(Taken(Everything(objects), needsFiltered, p), key), needsSecurity, secure)
  {
    hide Flat, Sorted, Where, Kept, NonDecreasing, AllNonDecreasing;
    var lists;
    lists, total := Collect(objects);
    var kept := Draw(lists, needsFiltered, p);
    if total < |lists| * 4 || total < 5000 {
      FlatOfOne(Flat(kept));
      kept := [Flat(kept)];
    }
    var sublists;
    sublists, filtered := SortEach(kept, key);
    var secured := Secure(sublists, needsSecurity, secure);
    SortedAndAllowed(kept, secured, needsSecurity, secure, key);
    merged := MergeAll(secured, key);
    var survivors := Survivors(objects, needsFiltered, p, needsSecurity, secure);
    SortedSorts(survivors, key);
    SortedKeysAreUnique(merged, Sorted(survivors, key), key);
    if needsFiltered {
      forall x
        ensures multiset(merged)[x] == if Survives(objects, p, needsSecurity, secure, x) then 1 else 0
      {
        SurvivorsCount(objects, p, needsSecurity, secure, x);
      }
    } else {
      forall x
        ensures multiset(merged)[x] == if needsSecurity && !secure(x) then 0 else multiset(Everything(objects))[x]
      {
        WhereCounts(Everything(objects), secure, x);
      }
    }
  }
}
