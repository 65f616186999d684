/** Sorting lists by a key and merging sorted lists. */
module UgdSorting {
  import opened Options
  import opened UgdFilters

  type SortKey = Entry -> real

  ghost predicate NonDecreasing(xs: seq<Entry>, key: SortKey)
  {
    forall i, j | 0 <= i < j < |xs| :: key(xs[i]) <= key(xs[j])
  }

  // ---------- The stable sort ----------

  function Insert(x: Entry, xs: seq<Entry>, key: SortKey): (r: seq<Entry>)
    ensures |r| == |xs| + 1
  {
    if xs == [] || key(x) <= key(xs[0]) then [x] + xs else [xs[0]] + Insert(x, xs[1..], key)
  }

  /** `sorted(xs, key=key)` */
  function Sorted(xs: seq<Entry>, key: SortKey): (r: seq<Entry>)
    ensures |r| == |xs|
  {
    if xs == [] then [] else Insert(xs[0], Sorted(xs[1..], key), key)
  }

  lemma {:induction false} InsertPermutes(x: Entry, xs: seq<Entry>, key: SortKey)
    ensures multiset(Insert(x, xs, key)) == multiset{x} + multiset(xs)
  {
    if xs != [] && key(x) > key(xs[0]) {
      InsertPermutes(x, xs[1..], key);
      assert xs == [xs[0]] + xs[1..];
    }
  }

  lemma {:induction false} InsertSorts(x: Entry, xs: seq<Entry>, key: SortKey)
    requires NonDecreasing(xs, key)
    ensures NonDecreasing(Insert(x, xs, key), key)
  {
    if xs != [] && key(x) > key(xs[0]) {
      InsertSorts(x, xs[1..], key);
      InsertPermutes(x, xs[1..], key);
      var rest := Insert(x, xs[1..], key);
      forall j | 0 <= j < |rest|
        ensures key(xs[0]) <= key(rest[j])
      {
        assert rest[j] in multiset(rest);
        assert rest[j] == x || rest[j] in xs[1..];
      }
    }
  }

  function AtKey(key: SortKey, k: real): Filter
  {
    e => key(e) == k
  }

  /** Among entries of one key, inserting puts the new one first. */
  lemma {:induction false} InsertIsStable(x: Entry, xs: seq<Entry>, key: SortKey, k: real)
    ensures Where(Insert(x, xs, key), AtKey(key, k))
         == (if key(x) == k then [x] else []) + Where(xs, AtKey(key, k))
  {
    var p := AtKey(key, k);
    if xs == [] || key(x) <= key(xs[0]) {
      assert ([x] + xs)[1..] == xs;
    } else {
      InsertIsStable(x, xs[1..], key, k);
      var r := Insert(x, xs, key);
      assert r[0] == xs[0] && r[1..] == Insert(x, xs[1..], key);
      var first, mine := if p(xs[0]) then [xs[0]] else [], if p(x) then [x] else [];
      assert Where(r, p) == first + Where(r[1..], p);
      assert Where(xs, p) == first + Where(xs[1..], p);
      assert first == [] || mine == [];
      hide Where, Insert;
      assert first + (mine + Where(xs[1..], p)) == mine + (first + Where(xs[1..], p));
    }
  }

  /** Sorting orders a list by key, keeps its entries, and keeps entries of one key in order. */
  lemma {:induction false} SortedSorts(xs: seq<Entry>, key: SortKey)
    ensures NonDecreasing(Sorted(xs, key), key)
    ensures multiset(Sorted(xs, key)) == multiset(xs)
    ensures forall k :: Where(Sorted(xs, key), AtKey(key, k)) == Where(xs, AtKey(key, k))
  {
    if xs != [] {
      SortedSorts(xs[1..], key);
      InsertSorts(xs[0], Sorted(xs[1..], key), key);
      InsertPermutes(xs[0], Sorted(xs[1..], key), key);
      assert xs == [xs[0]] + xs[1..];
      forall k
        ensures Where(Sorted(xs, key), AtKey(key, k)) == Where(xs, AtKey(key, k))
      {
        InsertIsStable(xs[0], Sorted(xs[1..], key), key, k);
      }
    }
  }

  lemma {:induction false} WhereKeepsOrder(xs: seq<Entry>, p: Filter, key: SortKey)
    requires NonDecreasing(xs, key)
    ensures NonDecreasing(Where(xs, p), key)
    ensures forall x | x in Where(xs, p) :: x in xs
  {
    if xs != [] {
      WhereKeepsOrder(xs[1..], p, key);
      var rest := Where(xs[1..], p);
      forall j | 0 <= j < |rest|
        ensures key(xs[0]) <= key(rest[j])
      {
        assert rest[j] in xs[1..];
      }
    }
  }

  // ---------- Merging ----------

  /** The list at i has a head, and no head has a smaller key. */
  ghost predicate HasLeastHead(lists: seq<seq<Entry>>, key: SortKey, i: nat)
  {
    && i < |lists| && lists[i] != []
    && forall j | 0 <= j < |lists| && lists[j] != [] :: key(lists[i][0]) <= key(lists[j][0])
  }

  function Advance(lists: seq<seq<Entry>>, i: nat): seq<seq<Entry>>
    requires i < |lists| && lists[i] != []
  {
    lists[i := lists[i][1..]]
  }

  /** What `heapq.merge` may yield: again and again one of the heads with the least key. Between heads of
      the same key it compares the objects themselves; nothing is assumed about how that turns out. */
  ghost predicate IsMerge(lists: seq<seq<Entry>>, key: SortKey, r: seq<Entry>)
    decreases |r|
  {
    if r == [] then forall i | 0 <= i < |lists| :: lists[i] == []
    else exists i: nat :: HasLeastHead(lists, key, i) && lists[i][0] == r[0] && IsMerge(Advance(lists, i), key, r[1..])
  }

  function Flat(lists: seq<seq<Entry>>): seq<Entry>
  {
    if lists == [] then [] else lists[0] + Flat(lists[1..])
  }

  lemma {:induction false} FlatCounts(lists: seq<seq<Entry>>, i: nat)
    requires i < |lists| && lists[i] != []
    ensures multiset(Flat(lists)) == multiset{lists[i][0]} + multiset(Flat(Advance(lists, i)))
    ensures |Flat(lists)| == |Flat(Advance(lists, i))| + 1
  {
    if i == 0 {
      assert lists[0] == [lists[0][0]] + lists[0][1..];
      assert Advance(lists, 0)[1..] == lists[1..];
    } else {
      FlatCounts(lists[1..], i - 1);
      assert Advance(lists, i)[1..] == Advance(lists[1..], i - 1);
    }
  }

  lemma {:induction false} FlatOfNothing(lists: seq<seq<Entry>>)
    requires forall i | 0 <= i < |lists| :: lists[i] == []
    ensures Flat(lists) == []
  {
    if lists != [] {
      FlatOfNothing(lists[1..]);
    }
  }

  /** Merging loses and adds nothing. */
  lemma {:induction false} MergePermutes(lists: seq<seq<Entry>>, key: SortKey, r: seq<Entry>)
    requires IsMerge(lists, key, r)
    ensures multiset(r) == multiset(Flat(lists))
    decreases |r|
  {
    if r == [] {
      FlatOfNothing(lists);
    } else {
      var i: nat :| HasLeastHead(lists, key, i) && lists[i][0] == r[0] && IsMerge(Advance(lists, i), key, r[1..]);
      MergePermutes(Advance(lists, i), key, r[1..]);
      FlatCounts(lists, i);
      assert r == [r[0]] + r[1..];
    }
  }

  ghost predicate AllNonDecreasing(lists: seq<seq<Entry>>, key: SortKey)
  {
    forall i | 0 <= i < |lists| :: NonDecreasing(lists[i], key)
  }

  lemma AdvanceKeepsOrder(lists: seq<seq<Entry>>, key: SortKey, i: nat)
    requires AllNonDecreasing(lists, key) && HasLeastHead(lists, key, i)
    ensures AllNonDecreasing(Advance(lists, i), key)
    ensures forall j | 0 <= j < |lists| && Advance(lists, i)[j] != [] ::
              key(lists[i][0]) <= key(Advance(lists, i)[j][0])
  {
    var tail := lists[i][1..];
    assert forall j | 0 <= j < |tail| :: tail[j] == lists[i][j + 1];
    assert NonDecreasing(lists[i], key);
  }

  /** Merging lists in order gives a list in order. */
  lemma {:induction false} MergeSorts(lists: seq<seq<Entry>>, key: SortKey, r: seq<Entry>)
    requires IsMerge(lists, key, r) && AllNonDecreasing(lists, key)
    ensures NonDecreasing(r, key)
    ensures r != [] ==> exists i: nat :: HasLeastHead(lists, key, i) && lists[i][0] == r[0]
    decreases |r|
  {
    if r != [] {
      var i: nat :| HasLeastHead(lists, key, i) && lists[i][0] == r[0] && IsMerge(Advance(lists, i), key, r[1..]);
      AdvanceKeepsOrder(lists, key, i);
      MergeSorts(Advance(lists, i), key, r[1..]);
      if r[1..] != [] {
        assert key(r[0]) <= key(r[1..][0]);
      }
      FirstIsLeast(r, key);
    }
  }

  lemma FirstIsLeast(r: seq<Entry>, key: SortKey)
    requires r != [] && NonDecreasing(r[1..], key) && (|r| > 1 ==> key(r[0]) <= key(r[1]))
    ensures NonDecreasing(r, key)
  {
    forall i, j | 0 <= i < j < |r|
      ensures key(r[i]) <= key(r[j])
    {
      assert r[1..][j - 1] == r[j];
      if i > 0 {
        assert r[1..][i - 1] == r[i];
      } else {
        assert r[1..][0] == r[1];
      }
    }
  }

  lemma {:induction false} SomeHeadIsLeast(lists: seq<seq<Entry>>, key: SortKey, k: nat) returns (i: nat)
    requires k < |lists| && lists[k] != []
    ensures HasLeastHead(lists, key, i)
  {
    var n: nat := 0;
    i := k;
    while n < |lists|
      invariant n <= |lists| && i < |lists| && lists[i] != []
      invariant forall j | 0 <= j < n && lists[j] != [] :: key(lists[i][0]) <= key(lists[j][0])
    {
      if lists[n] != [] && key(lists[n][0]) < key(lists[i][0]) {
        i := n;
      }
      n := n + 1;
    }
  }

  /** A merge may begin with the head at i and go on with any merge of the rest. */
  lemma MergeStep(lists: seq<seq<Entry>>, key: SortKey, i: nat, tail: seq<Entry>)
    requires HasLeastHead(lists, key, i) && IsMerge(Advance(lists, i), key, tail)
    ensures IsMerge(lists, key, [lists[i][0]] + tail)
  {
    assert ([lists[i][0]] + tail)[1..] == tail;
  }

  /** `heapq.merge` */
  method Merge(lists: seq<seq<Entry>>, key: SortKey) returns (r: seq<Entry>)
    ensures IsMerge(lists, key, r)
  {
    r := [];
    var rest := lists;
    assert forall tail {:trigger IsMerge(lists, key, tail)} :: r + tail == tail;
    while exists i | 0 <= i < |rest| :: rest[i] != []
      invariant forall tail {:trigger IsMerge(rest, key, tail)} ::
                  IsMerge(rest, key, tail) ==> IsMerge(lists, key, r + tail)
      decreases |Flat(rest)|
    {
      hide IsMerge;
      var k :| 0 <= k < |rest| && rest[k] != [];
      ghost var least := SomeHeadIsLeast(rest, key, k);
      var i :| 0 <= i < |rest| && rest[i] != []
        && forall j | 0 <= j < |rest| && rest[j] != [] :: key(rest[i][0]) <= key(rest[j][0]);
      FlatCounts(rest, i);
      var x := rest[i][0];
      forall tail | IsMerge(Advance(rest, i), key, tail)
        ensures IsMerge(lists, key, (r + [x]) + tail)
      {
        MergeStep(rest, key, i, tail);
        assert r + ([x] + tail) == (r + [x]) + tail;
      }
      r := r + [x];
      rest := Advance(rest, i);
    }
    assert IsMerge(rest, key, []);
    assert r + [] == r;
  }

  // ---------- Two sorted arrangements ----------

  function Keys(xs: seq<Entry>, key: SortKey): (r: seq<real>)
    ensures |r| == |xs|
  {
    if xs == [] then [] else [key(xs[0])] + Keys(xs[1..], key)
  }

  lemma {:induction false} KeysCount(xs: seq<Entry>, key: SortKey, k: real)
    ensures multiset(Keys(xs, key))[k] == |Where(xs, AtKey(key, k))|
  {
    if xs != [] {
      KeysCount(xs[1..], key, k);
    }
  }

  /** The same entries have the same keys. */
  lemma KeysPermute(xs: seq<Entry>, ys: seq<Entry>, key: SortKey)
    requires multiset(xs) == multiset(ys)
    ensures multiset(Keys(xs, key)) == multiset(Keys(ys, key))
  {
    forall k
      ensures multiset(Keys(xs, key))[k] == multiset(Keys(ys, key))[k]
    {
      KeysCount(xs, key, k);
      KeysCount(ys, key, k);
      WherePermutes(xs, ys, AtKey(key, k));
      assert |Where(xs, AtKey(key, k))| == |multiset(Where(xs, AtKey(key, k)))|;
      assert |Where(ys, AtKey(key, k))| == |multiset(Where(ys, AtKey(key, k)))|;
    }
  }

  ghost predicate Ascending(a: seq<real>)
  {
    forall i, j | 0 <= i < j < |a| :: a[i] <= a[j]
  }

  lemma {:induction false} KeysAscend(xs: seq<Entry>, key: SortKey)
    requires NonDecreasing(xs, key)
    ensures Ascending(Keys(xs, key))
    ensures forall i | 0 <= i < |xs| :: Keys(xs, key)[i] == key(xs[i])
  {
    if xs != [] {
      KeysAscend(xs[1..], key);
    }
  }

  lemma LeastFirst(a: seq<real>, b: seq<real>)
    requires Ascending(a) && multiset(a) == multiset(b) && b != []
    ensures a != [] && a[0] <= b[0]
  {
    assert b[0] in multiset(a);
    assert b[0] in a;
  }

  lemma WithoutFirst(a: seq<real>)
    requires a != []
    ensures multiset(a[1..]) == multiset(a) - multiset{a[0]}
    ensures Ascending(a) ==> Ascending(a[1..])
  {
    assert a == [a[0]] + a[1..];
    assert forall i | 0 <= i < |a[1..]| :: a[1..][i] == a[i + 1];
  }

  lemma {:induction false} AscendingIsUnique(a: seq<real>, b: seq<real>)
    requires Ascending(a) && Ascending(b) && multiset(a) == multiset(b)
    ensures a == b
  {
    if a == [] {
      if b != [] {
        LeastFirst(a, b);
      }
    } else {
      LeastFirst(b, a);
      LeastFirst(a, b);
      WithoutFirst(a);
      WithoutFirst(b);
      hide Ascending;
      AscendingIsUnique(a[1..], b[1..]);
      assert a == [a[0]] + a[1..] && b == [b[0]] + b[1..];
    }
  }

  /** However ties are broken, sorting the same entries gives the same keys. */
  lemma SortedKeysAreUnique(xs: seq<Entry>, ys: seq<Entry>, key: SortKey)
    requires NonDecreasing(xs, key) && NonDecreasing(ys, key) && multiset(xs) == multiset(ys)
    ensures Keys(xs, key) == Keys(ys, key)
  {
    KeysPermute(xs, ys, key);
    KeysAscend(xs, key);
    KeysAscend(ys, key);
    AscendingIsUnique(Keys(xs, key), Keys(ys, key));
  }
}
