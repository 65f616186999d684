/** Searching users by prefix, with ranges of ordered indexes. */
module UserSearch {
  import opened Options
  import opened Lexicographic

  /** Text as code points. */
  type Text = seq<int>

  type Id = nat

  datatype Bounds = Bounds(min: Text, max: Text) | IndexError | ValueError

  /** `_make_min_max_btree_range`; `largest` is the largest code point there is. */
  function MinMax(term: Text, largest: int): Bounds
  {
    if term == [] then IndexError
    else if term[|term| - 1] + 1 > largest then ValueError
    else Bounds(term, term[..|term| - 1] + [term[|term| - 1] + 1])
  }

  predicate InRange(key: Text, min: Text, max: Text)
  {
    Lex(min, key) <= 0 && Lex(key, max) < 0
  }

  lemma {:induction false} ExtensionsInRange(term: Text, largest: int, key: Text)
    requires MinMax(term, largest).Bounds? && term <= key
    ensures InRange(key, MinMax(term, largest).min, MinMax(term, largest).max)
  {
    var n := |term| - 1;
    var max := MinMax(term, largest).max;
    assert key[..n] == term[..n] == max[..n] && key[n] == term[n];
    LexAt(key, max, n);
    LexZero(term, key);
    if term != key {
      LexPrefix(term, key);
    }
  }

  /** The first place where two texts differ, or the end of the shorter one. */
  function Common(a: Text, b: Text): (n: nat)
    ensures n <= |a| && n <= |b| && a[..n] == b[..n]
    ensures n < |a| && n < |b| ==> a[n] != b[n]
    ensures !(a <= b) ==> n < |a|
  {
    if a == [] || b == [] || a[0] != b[0] then 0
    else
      var n := Common(a[1..], b[1..]);
      assert a[..n + 1] == [a[0]] + a[1..][..n] && b[..n + 1] == [b[0]] + b[1..][..n];
      n + 1
  }

  lemma {:induction false} OthersOutOfRange(term: Text, largest: int, key: Text)
    requires MinMax(term, largest).Bounds? && !(term <= key)
    ensures !InRange(key, MinMax(term, largest).min, MinMax(term, largest).max)
  {
    var n, max := Common(term, key), MinMax(term, largest).max;
    if n == |key| {
      assert key == term[..n] && key <= term && key != term;
      LexPrefix(key, term);
    } else if key[n] < term[n] {
      LexAt(key, term, n);
    } else if n < |term| - 1 {
      assert max[..n] == term[..n] && max[n] == term[n];
      LexAt(max, key, n);
    } else {
      assert max[..n] == term[..n] == key[..n] && max[n] == term[n] + 1;
      assert |max| == n + 1;
      if key[n] == max[n] {
        assert max == key[..n + 1];
        LexZero(key, max);
        if key != max {
          LexPrefix(max, key);
        }
      } else {
        LexAt(max, key, n);
      }
    }
  }

  /** A key is in the range of a term exactly if the term is a prefix of it. */
  lemma InRangeIffPrefix(term: Text, largest: int, key: Text)
    requires MinMax(term, largest).Bounds?
    ensures InRange(key, MinMax(term, largest).min, MinMax(term, largest).max) <==> term <= key
  {
    if term <= key {
      ExtensionsInRange(term, largest, key);
    } else {
      OthersOutOfRange(term, largest, key);
    }
  }

  // ---------- Indexes ----------

  datatype Entry = Entry(key: Text, ids: set<Id>)

  /** An ordered index: distinct keys in order. */
  ghost predicate Ordered(index: seq<Entry>)
  {
    forall i, j | 0 <= i < j < |index| :: Lex(index[i].key, index[j].key) < 0
  }

  /** The entries from min up to, but not including, max. */
  method Items(index: seq<Entry>, min: Text, max: Text) returns (r: seq<Entry>)
    requires Ordered(index)
    ensures forall e :: e in r <==> e in index && InRange(e.key, min, max)
  {
    var from := 0;
    while from < |index| && Lex(min, index[from].key) > 0
      invariant 0 <= from <= |index|
      invariant forall i | 0 <= i < from :: Lex(min, index[i].key) > 0
    {
      from := from + 1;
    }
    r := [];
    var to := from;
    while to < |index| && Lex(index[to].key, max) < 0
      invariant from <= to <= |index| && r == index[from..to]
      invariant forall i | from <= i < to :: InRange(index[i].key, min, max)
    {
      InOrder(index, min, from, to);
      r := r + [index[to]];
      to := to + 1;
    }
    forall i | to <= i < |index|
      ensures !InRange(index[i].key, min, max)
    {
      NotAfter(index, max, to, i);
    }
  }

  lemma InOrder(index: seq<Entry>, min: Text, from: nat, i: nat)
    requires Ordered(index) && from <= i < |index| && Lex(min, index[from].key) <= 0
    ensures Lex(min, index[i].key) <= 0
  {
    if from < i {
      LexTransitive(min, index[from].key, index[i].key);
    }
  }

  lemma NotAfter(index: seq<Entry>, max: Text, to: nat, i: nat)
    requires Ordered(index) && to <= i < |index| && Lex(index[to].key, max) >= 0
    ensures Lex(index[i].key, max) >= 0
  {
    if to < i && Lex(index[i].key, max) < 0 {
      LexTransitive(index[to].key, index[i].key, max);
    }
  }

  /** The ids a scan of the whole index for keys that start with the term finds. */
  ghost function FullScan(index: seq<Entry>, term: Text): set<Id>
  {
    set e, id | e in index && term <= e.key && id in e.ids :: id
  }

  function MultiUnion(sets: seq<set<Id>>): set<Id>
  {
    if sets == [] then {} else sets[0] + MultiUnion(sets[1..])
  }

  lemma {:induction false} MultiUnionConcat(a: seq<set<Id>>, b: seq<set<Id>>)
    ensures MultiUnion(a + b) == MultiUnion(a) + MultiUnion(b)
  {
    if a == [] {
      assert a + b == b;
    } else {
      assert (a + b)[1..] == a[1..] + b;
      MultiUnionConcat(a[1..], b);
    }
  }

  lemma {:induction false} InMultiUnion(sets: seq<set<Id>>, id: Id)
    ensures id in MultiUnion(sets) <==> exists i :: 0 <= i < |sets| && id in sets[i]
  {
    if sets != [] {
      InMultiUnion(sets[1..], id);
      if i :| 0 <= i < |sets[1..]| && id in sets[1..][i] {
        assert id in sets[i + 1];
      }
      if i :| 0 <= i < |sets| && id in sets[i] {
        assert i > 0 ==> sets[1..][i - 1] == sets[i];
      }
    }
  }

  /** Adds the ids of the entries of one index in the range of the term to what was matched before. */
  method MatchIndex(index: seq<Entry>, term: Text, largest: int, before: seq<set<Id>>) returns (sets: seq<set<Id>>)
    requires Ordered(index) && MinMax(term, largest).Bounds?
    ensures MultiUnion(sets) == MultiUnion(before) + FullScan(index, term)
  {
    var bounds := MinMax(term, largest);
    var items := Items(index, bounds.min, bounds.max);
    sets := before;
    ghost var added: seq<set<Id>> := [];
    for i := 0 to |items|
      invariant sets == before + added && |added| == i && forall j | 0 <= j < i :: added[j] == items[j].ids
    {
      sets := sets + [items[i].ids];
      added := added + [items[i].ids];
    }
    MultiUnionConcat(before, added);
    forall id
      ensures id in MultiUnion(added) <==> id in FullScan(index, term)
    {
      InMultiUnion(added, id);
      if id in MultiUnion(added) {
        var i :| 0 <= i < |added| && id in added[i];
        assert items[i] in items;
        InRangeIffPrefix(term, largest, items[i].key);
      }
      if id in FullScan(index, term) {
        var e :| e in index && term <= e.key && id in e.ids;
        InRangeIffPrefix(term, largest, e.key);
        var i :| 0 <= i < |items| && items[i] == e;
      }
    }
  }

  ghost function FullScans(indexes: seq<seq<Entry>>, term: Text): set<Id>
  {
    if indexes == [] then {}
    else FullScans(indexes[..|indexes| - 1], term) + FullScan(indexes[|indexes| - 1], term)
  }

  /** `do_query_intids` of the policies that search the alias and the parts of the real name. */
  method MatchNames(indexes: seq<seq<Entry>>, term: Text, largest: int, before: seq<set<Id>>)
    returns (sets: seq<set<Id>>)
    requires forall i | 0 <= i < |indexes| :: Ordered(indexes[i])
    requires MinMax(term, largest).Bounds?
    ensures MultiUnion(sets) == MultiUnion(before) + FullScans(indexes, term)
  {
    sets := before;
    for i := 0 to |indexes|
      invariant MultiUnion(sets) == MultiUnion(before) + FullScans(indexes[..i], term)
    {
      sets := MatchIndex(indexes[i], term, largest, sets);
      assert indexes[..i + 1][..i] == indexes[..i];
    }
    assert indexes[..|indexes|] == indexes;
  }

  /** What a users folder holds under its folded names; a user that cannot be resolved has no id. */
  type Resolve = Text -> Option<Id>

  ghost function FullUserScan(users: seq<Entry>, resolve: Resolve, term: Text): set<Id>
  {
    set e | e in users && term <= e.key && resolve(e.key).Some? :: resolve(e.key).value
  }

  /** `do_query_intids` of the policy that searches user names. */
  method MatchUsernames(users: seq<Entry>, resolve: Resolve, term: Text, largest: int, before: seq<set<Id>>)
    returns (sets: seq<set<Id>>)
    requires Ordered(users) && MinMax(term, largest).Bounds?
    ensures MultiUnion(sets) == MultiUnion(before) + FullUserScan(users, resolve, term)
  {
    var bounds := MinMax(term, largest);
    var items := Items(users, bounds.min, bounds.max);
    var found: set<Id> := {};
    for i := 0 to |items|
      invariant forall id :: id in found <==> exists j :: 0 <= j < i && resolve(items[j].key) == Some(id)
    {
      if resolve(items[i].key).Some? {
        found := found + {resolve(items[i].key).value};
      }
    }
    forall id
      ensures id in found <==> id in FullUserScan(users, resolve, term)
    {
      if id in found {
        var j :| 0 <= j < |items| && resolve(items[j].key) == Some(id);
        assert items[j] in items;
        InRangeIffPrefix(term, largest, items[j].key);
      }
      if id in FullUserScan(users, resolve, term) {
        var e :| e in users && term <= e.key && resolve(e.key) == Some(id);
        InRangeIffPrefix(term, largest, e.key);
        var j :| 0 <= j < |items| && items[j] == e;
      }
    }
    sets := before;
    if found != {} {
      sets := sets + [found];
      MultiUnionConcat(before, [found]);
      assert MultiUnion([found]) == found + MultiUnion([]);
    }
    assert found == FullUserScan(users, resolve, term);
  }

  datatype Answer = Ids(ids: set<Id>) | Raised(error: Bounds)

  /** `query_intids` of the comprehensive policy: exactly what full scans of the user names and of all
      name indexes would find, unless the term has no range. */
  method QueryIds(users: seq<Entry>, resolve: Resolve, indexes: seq<seq<Entry>>, term: Text, largest: int)
    returns (r: Answer)
    requires Ordered(users) && forall i | 0 <= i < |indexes| :: Ordered(indexes[i])
    ensures r.Raised? <==> term == [] || term[|term| - 1] >= largest
    ensures r.Ids? ==> r.ids == FullUserScan(users, resolve, term) + FullScans(indexes, term)
    ensures r.Raised? ==> r.error == if term == [] then IndexError else ValueError
  {
    var bounds := MinMax(term, largest);
    if !bounds.Bounds? {
      return Raised(bounds);
    }
    var sets := MatchUsernames(users, resolve, term, largest, []);
    sets := MatchNames(indexes, term, largest, sets);
    r := Ids(MultiUnion(sets));
  }
}
