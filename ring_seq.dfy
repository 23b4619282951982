/**
 * Sequences read as rings: index arithmetic that wraps around, and the
 * three edits the ring of co-owners undergoes (splice an element in after
 * a position, cut the element at a position out, put a new element in the
 * place of an old one).  Nothing here knows about handles or pointees.
 */
module RingSeq {

  /** The position after `i` on a ring of `n` positions. */
  function Succ(i: nat, n: nat): (j: nat)
    requires i < n
    ensures j < n
    ensures j == i <==> n == 1
  {
    if i + 1 == n then 0 else i + 1
  }

  /** The position before `i` on a ring of `n` positions. */
  function Pred(i: nat, n: nat): (j: nat)
    requires i < n
    ensures j < n && Succ(j, n) == i
  {
    if i == 0 then n - 1 else i - 1
  }

  ghost predicate Distinct<T>(s: seq<T>) {
    forall i, j :: 0 <= i < j < |s| ==> s[i] != s[j]
  }

  /** Where `x` first occurs in `s`. */
  function IndexOf<T(==)>(s: seq<T>, x: T): (k: nat)
    requires x in s
    ensures k < |s| && s[k] == x
    ensures forall i :: 0 <= i < k ==> s[i] != x
  {
    if s[0] == x then 0 else 1 + IndexOf(s[1..], x)
  }

  /** The ring `s` with `x` spliced in right after position `k`. */
  function Inserted<T>(s: seq<T>, k: nat, x: T): (r: seq<T>)
    requires k < |s|
    ensures |r| == |s| + 1
    ensures forall i :: 0 <= i <= k ==> r[i] == s[i]
    ensures r[k + 1] == x
    ensures forall i :: k + 1 < i < |r| ==> r[i] == s[i - 1]
  {
    s[..k + 1] + [x] + s[k + 1..]
  }

  /** The ring `s` with position `k` cut out. */
  function Without<T>(s: seq<T>, k: nat): (r: seq<T>)
    requires k < |s|
    ensures |r| == |s| - 1
    ensures forall i :: 0 <= i < k ==> r[i] == s[i]
    ensures forall i :: k <= i < |r| ==> r[i] == s[i + 1]
  {
    s[..k] + s[k + 1..]
  }

  /** In a sequence without repetitions, the first occurrence is the only one. */
  lemma IndexOfDistinct<T>(s: seq<T>, k: nat)
    requires Distinct(s) && k < |s|
    ensures IndexOf(s, s[k]) == k
  {
  }

  lemma InsertedDistinct<T>(s: seq<T>, k: nat, x: T)
    requires Distinct(s) && k < |s| && x !in s
    ensures Distinct(Inserted(s, k, x))
    ensures forall y :: y in Inserted(s, k, x) <==> y == x || y in s
  {
    var r := Inserted(s, k, x);
    forall y | y in s ensures y in r {
      var i :| 0 <= i < |s| && s[i] == y;
      if i <= k { assert r[i] == y; } else { assert r[i + 1] == y; }
    }
  }

  lemma WithoutDistinct<T>(s: seq<T>, k: nat)
    requires Distinct(s) && k < |s|
    ensures Distinct(Without(s, k))
    ensures forall y :: y in Without(s, k) <==> y in s && y != s[k]
  {
    var r := Without(s, k);
    forall y | y in s && y != s[k] ensures y in r {
      var i :| 0 <= i < |s| && s[i] == y;
      if i < k { assert r[i] == y; } else { assert r[i - 1] == y; }
    }
  }

  /**
   * Splicing `x` in after position `k` and then cutting out the element
   * that was at `k` leaves `x` in that element's place.
   */
  lemma InsertedThenWithout<T>(s: seq<T>, k: nat, x: T)
    requires Distinct(s) && k < |s| && x !in s
    ensures IndexOf(Inserted(s, k, x), s[k]) == k
    ensures Without(Inserted(s, k, x), k) == s[k := x]
  {
    InsertedDistinct(s, k, x);
    IndexOfDistinct(Inserted(s, k, x), k);
  }

  /** Stepping forward and then back returns to the same position. */
  lemma PredOfSucc(i: nat, n: nat)
    requires i < n
    ensures Pred(Succ(i, n), n) == i
  {
  }
}
