/** The string searches that the pointer code relies on. */
module Strings {

  predicate OccursAt(s: string, sub: string, i: int)
  {
    0 <= i <= i + |sub| <= |s| && s[i..i + |sub|] == sub
  }

  predicate Occurs(s: string, sub: string)
  {
    exists i | 0 <= i <= |s| :: OccursAt(s, sub, i)
  }

  /** `s.find(sub, start)`: the first occurrence at or after start, or -1. */
  function Find(s: string, sub: string, start: nat): (r: int)
    ensures r == -1 || (start <= r <= |s| && OccursAt(s, sub, r))
    ensures forall i | start <= i && (r == -1 || i < r) :: !OccursAt(s, sub, i)
    decreases |s| - start
  {
    if start > |s| then -1
    else if OccursAt(s, sub, start) then start
    else Find(s, sub, start + 1)
  }

  /** `s.rfind(c)` for a single character. */
  function FindLast(s: string, c: char): (r: int)
    ensures -1 <= r < |s|
    ensures r >= 0 ==> s[r] == c
    ensures forall i | r < i < |s| :: s[i] != c
  {
    if s == "" then -1 else if s[|s| - 1] == c then |s| - 1 else FindLast(s[..|s| - 1], c)
  }

  /** All occurrences at or after start, in increasing order. */
  function Occurrences(s: string, sub: string, start: nat): seq<nat>
    decreases |s| + 1 - start
  {
    var i := Find(s, sub, start);
    if i == -1 then [] else [i] + Occurrences(s, sub, i + 1)
  }

  /** Every occurrence is listed, once, and nothing else is. */
  lemma {:induction false} OccurrencesAreAll(s: string, sub: string, start: nat)
    ensures forall i :: i in Occurrences(s, sub, start) <==> start <= i && OccursAt(s, sub, i)
    ensures forall j, k | 0 <= j < k < |Occurrences(s, sub, start)| ::
              Occurrences(s, sub, start)[j] < Occurrences(s, sub, start)[k]
    decreases |s| + 1 - start
  {
    var i := Find(s, sub, start);
    if i != -1 {
      OccurrencesAreAll(s, sub, i + 1);
      var rest := Occurrences(s, sub, i + 1);
      forall k | 0 <= k < |rest|
        ensures i < rest[k]
      {
        assert rest[k] in rest;
      }
    }
  }
}
