/** Lexicographic order on integer sequences, a proper prefix coming first. */
module Lexicographic {

  function Lex(a: seq<int>, b: seq<int>): (r: int)
    ensures r == -1 || r == 0 || r == 1
  {
    if a == [] then (if b == [] then 0 else -1)
    else if b == [] then 1
    else if a[0] < b[0] then -1
    else if a[0] > b[0] then 1
    else Lex(a[1..], b[1..])
  }

  lemma {:induction false} LexZero(a: seq<int>, b: seq<int>)
    ensures Lex(a, b) == 0 <==> a == b
  {
    if a != [] && b != [] && a[0] == b[0] {
      LexZero(a[1..], b[1..]);
      assert a == [a[0]] + a[1..] && b == [b[0]] + b[1..];
    }
  }

  lemma {:induction false} LexAntisymmetric(a: seq<int>, b: seq<int>)
    ensures Lex(b, a) == -Lex(a, b)
  {
    if a != [] && b != [] && a[0] == b[0] {
      LexAntisymmetric(a[1..], b[1..]);
    }
  }

  lemma {:induction false} LexTransitive(a: seq<int>, b: seq<int>, c: seq<int>)
    requires Lex(a, b) <= 0 && Lex(b, c) <= 0
    ensures Lex(a, c) <= 0
    ensures Lex(a, b) < 0 || Lex(b, c) < 0 ==> Lex(a, c) < 0
  {
    if a != [] && b != [] && c != [] && a[0] == b[0] == c[0] {
      LexTransitive(a[1..], b[1..], c[1..]);
    }
  }

  /** Two sequences that first differ at index k are ordered by their elements there. */
  lemma {:induction false} LexAt(a: seq<int>, b: seq<int>, k: nat)
    requires k < |a| && k < |b| && a[..k] == b[..k] && a[k] < b[k]
    ensures Lex(a, b) == -1 && Lex(b, a) == 1
  {
    if k > 0 {
      assert a[0] == a[..k][0] == b[0];
      assert a[1..][..k - 1] == a[..k][1..] == b[1..][..k - 1];
      LexAt(a[1..], b[1..], k - 1);
    }
  }

  lemma {:induction false} LexPrefix(a: seq<int>, b: seq<int>)
    requires a <= b && a != b
    ensures Lex(a, b) == -1 && Lex(b, a) == 1
  {
    if a != [] {
      LexPrefix(a[1..], b[1..]);
    }
  }

  /** Unless a is a prefix of b, extending a does not change how it compares with b. */
  lemma {:induction false} LexNotPrefix(a: seq<int>, s: seq<int>, b: seq<int>)
    requires !(a <= b)
    ensures Lex(a + s, b) == Lex(a, b) != 0
  {
    if b != [] && a[0] == b[0] {
      assert (a + s)[1..] == a[1..] + s;
      assert a == [a[0]] + a[1..] && b == [b[0]] + b[1..];
      LexNotPrefix(a[1..], s, b[1..]);
    }
  }
}
