/** The filter by mime type, which asks once per class and remembers the answer. */
module UgdMimeFilter {
  import opened Options

  type Class = nat

  /** What the filter is asked about: no object, or an object of a class with its own mime type. */
  datatype Target = NoObject | Instance(cls: Class, mime: string)

  /** The answer without any cache. */
  predicate Direct(accept: seq<string>, o: Target)
  {
    o.Instance? && o.mime in accept
  }

  /** The first object of a class among those asked about. */
  function FirstOf(asked: seq<Target>, c: Class): (r: Option<Target>)
    ensures r.Some? ==> r.value in asked && r.value.Instance? && r.value.cls == c
    ensures r.None? ==> forall o | o in asked :: !(o.Instance? && o.cls == c)
  {
    if asked == [] then None
    else if asked[0].Instance? && asked[0].cls == c then Some(asked[0])
    else FirstOf(asked[1..], c)
  }

  lemma {:induction false} FirstOfConcat(a: seq<Target>, b: seq<Target>, c: Class)
    ensures FirstOf(a + b, c) == if FirstOf(a, c).Some? then FirstOf(a, c) else FirstOf(b, c)
  {
    if a == [] {
      assert a + b == b;
    } else {
      assert (a + b)[1..] == a[1..] + b;
      FirstOfConcat(a[1..], b, c);
    }
  }

  class MimeFilter {
    const accept: seq<string>
    var acceptClasses: seq<Class>
    var excludeClasses: seq<Class>
    ghost var asked: seq<Target>

    /** The two caches record, for each class met, whether its first object is acceptable. */
    ghost predicate Valid()
      reads this
    {
      forall c: Class ::
        && (c in acceptClasses <==> FirstOf(asked, c).Some? && Direct(accept, FirstOf(asked, c).value))
        && (c in excludeClasses <==> FirstOf(asked, c).Some? && !Direct(accept, FirstOf(asked, c).value))
    }

    constructor (accept: seq<string>)
      ensures Valid() && this.accept == accept && asked == []
    {
      this.accept := accept;
      acceptClasses, excludeClasses, asked := [], [], [];
    }

    /** The answer is the one for the first object of the same class. */
    method Accepts(o: Target) returns (r: bool)
      requires Valid()
      modifies this
      ensures Valid() && asked == old(asked) + [o]
      ensures r == (o.Instance? && FirstOf(asked, o.cls).value.mime in accept)
    {
      asked := asked + [o];
      forall c: Class
        ensures FirstOf(asked, c) == if FirstOf(old(asked), c).Some? then FirstOf(old(asked), c)
                                     else if o.Instance? && o.cls == c then Some(o) else None
      {
        FirstOfConcat(old(asked), [o], c);
      }
      if o.NoObject? {
        return false;
      }
      if o.cls in acceptClasses {
        return true;
      }
      if o.cls in excludeClasses {
        return false;
      }
      if o.mime in accept {
        acceptClasses := acceptClasses + [o.cls];
        return true;
      }
      excludeClasses := excludeClasses + [o.cls];
      return false;
    }

    /** Asks about a list of objects. */
    method Answers(os: seq<Target>) returns (r: seq<bool>)
      requires Valid() && asked == []
      modifies this
      ensures Valid() && asked == os && r == Cached(accept, os)
    {
      r := [];
      for i := 0 to |os|
        invariant Valid() && asked == os[..i]
        invariant |r| == i && forall j | 0 <= j < i :: r[j] == CachedAt(accept, os, j)
      {
        var answer := Accepts(os[i]);
        assert os[..i] + [os[i]] == os[..i + 1];
        r := r + [answer];
      }
      assert os[..|os|] == os;
      assert forall j | 0 <= j < |os| :: Cached(accept, os)[j] == CachedAt(accept, os, j);
    }
  }

  /** The cached answer about the object at i, after those before it. */
  predicate CachedAt(accept: seq<string>, os: seq<Target>, i: nat)
    requires i < |os|
  {
    os[i].Instance? && FirstOf(os[..i + 1], os[i].cls).Some?
    && Direct(accept, FirstOf(os[..i + 1], os[i].cls).value)
  }

  function Cached(accept: seq<string>, os: seq<Target>): (r: seq<bool>)
    ensures |r| == |os|
  {
    seq(|os|, i requires 0 <= i < |os| => CachedAt(accept, os, i))
  }

  /** Objects of one class are acceptable together. */
  ghost predicate ClassesDecide(accept: seq<string>, os: seq<Target>)
  {
    forall i, j | 0 <= i < j < |os| && os[i].Instance? && os[j].Instance? && os[i].cls == os[j].cls ::
      Direct(accept, os[i]) == Direct(accept, os[j])
  }

  lemma {:induction false} FirstOfIsEarliest(os: seq<Target>, c: Class) returns (k: nat)
    requires FirstOf(os, c).Some?
    ensures k < |os| && os[k] == FirstOf(os, c).value && os[k].Instance? && os[k].cls == c
    ensures forall j | 0 <= j < k :: !(os[j].Instance? && os[j].cls == c)
  {
    if os[0].Instance? && os[0].cls == c {
      k := 0;
    } else {
      k := FirstOfIsEarliest(os[1..], c);
      assert forall j | 0 < j <= k :: os[j] == os[1..][j - 1];
      k := k + 1;
    }
  }

  /** The cached answer at i is the direct answer about an object of the same class no later than i. */
  lemma CachedFrom(accept: seq<string>, os: seq<Target>, i: nat) returns (k: nat)
    requires i < |os| && os[i].Instance?
    ensures k <= i && os[k].Instance? && os[k].cls == os[i].cls
    ensures forall j | 0 <= j < k :: !(os[j].Instance? && os[j].cls == os[i].cls)
    ensures CachedAt(accept, os, i) == Direct(accept, os[k])
  {
    assert os[..i + 1][i] == os[i];
    k := FirstOfIsEarliest(os[..i + 1], os[i].cls);
  }

  /** The cache never changes an answer exactly if the objects of each class are acceptable together. */
  lemma CacheIsExactIff(accept: seq<string>, os: seq<Target>)
    ensures (forall i | 0 <= i < |os| :: CachedAt(accept, os, i) == Direct(accept, os[i]))
       <==> ClassesDecide(accept, os)
  {
    if ClassesDecide(accept, os) {
      forall i | 0 <= i < |os|
        ensures CachedAt(accept, os, i) == Direct(accept, os[i])
      {
        if os[i].Instance? {
          var k := CachedFrom(accept, os, i);
        }
      }
    }
    if forall i | 0 <= i < |os| :: CachedAt(accept, os, i) == Direct(accept, os[i]) {
      forall i, j | 0 <= i < j < |os| && os[i].Instance? && os[j].Instance? && os[i].cls == os[j].cls
        ensures Direct(accept, os[i]) == Direct(accept, os[j])
      {
        var k := CachedFrom(accept, os, i);
        var l := CachedFrom(accept, os, j);
        assert k == l;
      }
    }
  }
}
