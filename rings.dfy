/**
 * The ring bookkeeping of the ring nodes (`details::super_linked_ptr`),
 * stated over plain maps: for every node, the ring it belongs to (its
 * members in `next` order, shared by all of them), and its two links.
 * Nothing here reads the heap; the handle layer keeps its `next` and
 * `prev` fields equal to the two link maps.
 */
module Rings {
  import opened RingSeq

  /** A set of ring nodes: each node's ring, and each node's two links. */
  datatype Net<T> = Net(ring: map<T, seq<T>>, next: map<T, T>, prev: map<T, T>)

  /**
   * `r` lists, in `next` order, a well-formed circular doubly-linked ring:
   * no node twice, every `next` is the following node and every `prev` the
   * preceding one, wrapping around at the ends.
   */
  ghost predicate IsRing<T>(r: seq<T>, nx: map<T, T>, pv: map<T, T>) {
    && |r| > 0
    && Distinct(r)
    && (forall i :: 0 <= i < |r| ==> r[i] in nx && r[i] in pv)
    && (forall i {:trigger nx[r[i]]} :: 0 <= i < |r| ==> nx[r[i]] == r[Succ(i, |r|)])
    && (forall i {:trigger pv[r[i]]} :: 0 <= i < |r| ==> pv[r[i]] == r[Pred(i, |r|)])
  }

  /** Every key lies on its own ring, and no ring lists a node twice. */
  ghost predicate OnOwnRing<T>(m: map<T, seq<T>>) {
    forall h :: h in m ==> h in m[h] && Distinct(m[h])
  }

  /** Every member of a ring is a key that has that very ring. */
  ghost predicate Closed<T>(m: map<T, seq<T>>) {
    forall h, y {:trigger y in m[h]} :: h in m && y in m[h] ==> y in m && m[y] == m[h]
  }

  /** The keys of `m` are partitioned into the rings `m` maps them to. */
  ghost predicate Partitioned<T>(m: map<T, seq<T>>) {
    OnOwnRing(m) && Closed(m)
  }

  /**
   * A well-formed set of nodes: the nodes are partitioned into rings, and
   * the links thread every ring (so every node has both links).
   */
  ghost predicate Ok<T>(n: Net<T>) {
    Partitioned(n.ring) && Threaded(n)
  }

  /** The links thread every ring. */
  ghost predicate Threaded<T>(n: Net<T>) {
    forall h :: h in n.ring ==> IsRing(n.ring[h], n.next, n.prev)
  }

  /** A node off the ring of `b` shares no member with it. */
  lemma Apart<T>(m: map<T, seq<T>>, a: T, b: T)
    requires Partitioned(m) && a in m && b in m && a !in m[b]
    ensures forall y :: y in m[a] ==> y !in m[b]
  {
    forall y | y in m[a] ensures y !in m[b] {
      assert m[y] == m[a] != m[b];
    }
  }

  // ---------------------------------------------------------------------
  // The operations on a set of nodes.
  // ---------------------------------------------------------------------

  /** `super_linked_ptr()`: a new node linked to itself, a ring of one. */
  ghost function Join<T>(n: Net<T>, x: T): (n': Net<T>)
    ensures n'.ring.Keys == n.ring.Keys + {x}
    ensures x in n'.next && x in n'.prev
    ensures n'.ring[x] == [x] && n'.next[x] == x && n'.prev[x] == x
  {
    Net(n.ring[x := [x]], n.next[x := x], n.prev[x := x])
  }

  /** A node that is a ring of its own is destroyed. */
  ghost function Leave<T>(n: Net<T>, x: T): (n': Net<T>)
    ensures n'.ring.Keys == n.ring.Keys - {x}
  {
    Net(n.ring - {x}, n.next - {x}, n.prev - {x})
  }

  /** The ring `m[y]` with `x` spliced in right after `y`. */
  ghost function Spliced<T>(m: map<T, seq<T>>, x: T, y: T): (m': map<T, seq<T>>)
    requires y in m && y in m[y]
    ensures m'.Keys == m.Keys
  {
    var r := m[y];
    var joined := Inserted(r, IndexOf(r, y), x);
    map h | h in m :: if h == x || h in r then joined else m[h]
  }

  /**
   * `insert`, called on `x` with `other` = `y`: `x` is linked in between
   * `y` and `y`'s old successor.  The four map updates are the four
   * assignments of `insert`, in order.
   */
  ghost function Splice<T>(n: Net<T>, x: T, y: T): (n': Net<T>)
    requires y in n.ring && y in n.ring[y] && y in n.next
    ensures n'.ring.Keys == n.ring.Keys
  {
    Net(Spliced(n.ring, x, y), SplicedNext(n.next, x, y), SplicedPrev(n.next, n.prev, x, y))
  }

  /** The successor links after `insert` on `x` with `other` = `y`. */
  ghost function SplicedNext<T>(nx: map<T, T>, x: T, y: T): map<T, T>
    requires y in nx
  {
    nx[x := nx[y]][y := x]
  }

  /** The predecessor links after `insert` on `x` with `other` = `y`. */
  ghost function SplicedPrev<T>(nx: map<T, T>, pv: map<T, T>, x: T, y: T): map<T, T>
    requires y in nx
  {
    pv[nx[y] := x][x := y]
  }

  /** The ring of `x` with `x` cut out, and `x` on a ring of its own. */
  ghost function Detached<T>(m: map<T, seq<T>>, x: T): (m': map<T, seq<T>>)
    requires x in m && x in m[x]
    ensures m'.Keys == m.Keys
  {
    var r := m[x];
    var rest := Without(r, IndexOf(r, x));
    map h | h in m :: if h == x then [x] else if h in r then rest else m[h]
  }

  /**
   * `remove`, called on `x`: its neighbours are linked to each other and
   * `x` is linked to itself.  The map updates are the assignments of
   * `remove`, in order.
   */
  ghost function Detach<T>(n: Net<T>, x: T): (n': Net<T>)
    requires x in n.ring && x in n.ring[x] && x in n.next && x in n.prev
    ensures n'.ring.Keys == n.ring.Keys
  {
    Net(Detached(n.ring, x), DetachedNext(n.next, n.prev, x), DetachedPrev(n.next, n.prev, x))
  }

  /** The successor links after `remove` on `x`. */
  ghost function DetachedNext<T>(nx: map<T, T>, pv: map<T, T>, x: T): map<T, T>
    requires x in nx && x in pv
  {
    nx[pv[x] := nx[x]][x := x]
  }

  /** The predecessor links after `remove` on `x`. */
  ghost function DetachedPrev<T>(nx: map<T, T>, pv: map<T, T>, x: T): map<T, T>
    requires x in nx && x in pv
  {
    pv[nx[x] := pv[x]][x := x]
  }

  /** The transposition of `a` and `b`. */
  function Tau<T(==)>(z: T, a: T, b: T): T {
    if z == a then b else if z == b then a else z
  }

  /** `r` with `a` and `b` exchanged wherever they occur. */
  ghost function TauSeq<T>(r: seq<T>, a: T, b: T): (s: seq<T>)
    ensures |s| == |r| && forall i :: 0 <= i < |r| ==> s[i] == Tau(r[i], a, b)
  {
    seq(|r|, i requires 0 <= i < |r| => Tau(r[i], a, b))
  }

  /** The link map `f` with the roles of `a` and `b` exchanged. */
  ghost function Conj<T>(f: map<T, T>, a: T, b: T): (g: map<T, T>)
    requires a in f && b in f
    ensures g.Keys == f.Keys
  {
    map z | z in f :: Tau(f[Tau(z, a, b)], a, b)
  }

  /** The rings with `a` and `b` exchanged, as keys and as members. */
  ghost function Exchanged<T>(m: map<T, seq<T>>, a: T, b: T): (m': map<T, seq<T>>)
    requires a in m && b in m
    ensures m'.Keys == m.Keys
  {
    map h | h in m :: TauSeq(m[Tau(h, a, b)], a, b)
  }

  /**
   * `a` and `b` trade places: each sits where the other sat, with the
   * other's neighbours, and everything else is as it was.
   */
  ghost function Exchange<T>(n: Net<T>, a: T, b: T): (n': Net<T>)
    requires a in n.ring && b in n.ring && a in n.next && b in n.next && a in n.prev && b in n.prev
    ensures n'.ring.Keys == n.ring.Keys
  {
    Net(Exchanged(n.ring, a, b), Conj(n.next, a, b), Conj(n.prev, a, b))
  }

  /** Exchanging `a` with `b` is exchanging `b` with `a`. */
  lemma ExchangeSymmetric<T>(n: Net<T>, a: T, b: T)
    requires a in n.ring && b in n.ring && a in n.next && b in n.next && a in n.prev && b in n.prev
    ensures Exchange(n, a, b) == Exchange(n, b, a)
  {
    forall h | h in n.ring ensures Exchanged(n.ring, a, b)[h] == Exchanged(n.ring, b, a)[h] {
      TauSymmetric(h, a, b);
      TauSeqSymmetric(n.ring[Tau(h, a, b)], a, b);
    }
    ConjSymmetric(n.next, a, b);
    ConjSymmetric(n.prev, a, b);
  }

  lemma TauSymmetric<T>(z: T, a: T, b: T)
    ensures Tau(z, a, b) == Tau(z, b, a)
  {
  }

  lemma TauSeqSymmetric<T>(r: seq<T>, a: T, b: T)
    ensures TauSeq(r, a, b) == TauSeq(r, b, a)
  {
    assert forall i :: 0 <= i < |r| ==> TauSeq(r, a, b)[i] == TauSeq(r, b, a)[i];
  }

  lemma ConjSymmetric<T>(f: map<T, T>, a: T, b: T)
    requires a in f && b in f
    ensures Conj(f, a, b) == Conj(f, b, a)
  {
    forall z | z in f ensures Conj(f, a, b)[z] == Conj(f, b, a)[z] {
      TauSymmetric(z, a, b);
      TauSymmetric(f[Tau(z, a, b)], a, b);
    }
  }

  // ---------------------------------------------------------------------
  // What a well-formed set of nodes guarantees.
  // ---------------------------------------------------------------------

  /**
   * The link invariant of the ring: a node's successor and predecessor are
   * nodes too, the successor's `prev` is the node and the predecessor's
   * `next` is the node; both neighbours lie on the node's ring.
   */
  lemma Links<T>(n: Net<T>, h: T)
    requires Ok(n) && h in n.ring
    ensures n.next[h] in n.ring && n.prev[h] in n.ring
    ensures n.next[h] in n.ring[h] && n.prev[h] in n.ring[h]
    ensures n.prev[n.next[h]] == h && n.next[n.prev[h]] == h
  {
    var r := n.ring[h];
    var k := IndexOf(r, h);
    var len := |r|;
    assert IsRing(r, n.next, n.prev);
    var s, p := Succ(k, len), Pred(k, len);
    assert n.next[h] == r[s] && n.prev[h] == r[p];
    assert r[s] in r && r[p] in r;
    PredOfSucc(k, len);
  }

  /**
   * A node is a ring of its own exactly when it is its own successor, and
   * exactly when it is its own predecessor: the test `is_unique` makes on
   * both links is equivalent to one on either.
   */
  lemma SoloIff<T>(n: Net<T>, x: T)
    requires Ok(n) && x in n.ring
    ensures n.ring[x] == [x] <==> n.next[x] == x
    ensures n.next[x] == x <==> n.prev[x] == x
  {
    var r := n.ring[x];
    var k := IndexOf(r, x);
    var len := |r|;
    assert IsRing(r, n.next, n.prev);
    assert n.next[x] == r[Succ(k, len)] && n.prev[x] == r[Pred(k, len)];
    if len == 1 {
      assert r == [x];
    } else {
      assert r != [x];
      assert Succ(k, len) != k && Pred(k, len) != k;
    }
  }

  /** A ring none of whose members had its links changed is still a ring. */
  lemma RingKept<T>(r: seq<T>, nx: map<T, T>, pv: map<T, T>, nx': map<T, T>, pv': map<T, T>)
    requires IsRing(r, nx, pv)
    requires forall y :: y in r ==> y in nx' && y in pv' && nx'[y] == nx[y] && pv'[y] == pv[y]
    ensures IsRing(r, nx', pv')
  {
    forall i | 0 <= i < |r| ensures r[i] in nx' && r[i] in pv' && nx'[r[i]] == nx[r[i]] && pv'[r[i]] == pv[r[i]] {
      assert r[i] in r;
    }
  }

  /** A new node joins as a ring of its own and leaves the rest untouched. */
  lemma JoinOk<T>(n: Net<T>, x: T)
    requires Ok(n) && x !in n.ring
    ensures Ok(Join(n, x))
  {
    JoinRings(n, x);
    JoinPartitioned(n, x);
  }

  lemma JoinRings<T>(n: Net<T>, x: T)
    requires Ok(n) && x !in n.ring
    ensures Threaded(Join(n, x))
  {
    var n' := Join(n, x);
    forall h | h in n'.ring ensures IsRing(n'.ring[h], n'.next, n'.prev) {
      if h != x {
        var r := n.ring[h];
        assert n'.ring[h] == r;
        RingKept(r, n.next, n.prev, n'.next, n'.prev);
      }
    }
  }

  lemma JoinPartitioned<T>(n: Net<T>, x: T)
    requires Partitioned(n.ring) && x !in n.ring
    ensures Partitioned(Join(n, x).ring)
  {
    var m' := Join(n, x).ring;
    forall h, y {:trigger y in m'[h]} | h in m' && y in m'[h]
      ensures y in m' && m'[y] == m'[h]
    {
      if h != x {
        assert y in n.ring[h];
        assert y != x;
      }
    }
  }

  /** A node that is a ring of its own can be dropped; the rest stays well formed. */
  lemma LeaveOk<T>(n: Net<T>, x: T)
    requires Ok(n) && x in n.ring && n.ring[x] == [x]
    ensures Ok(Leave(n, x))
  {
    var n' := Leave(n, x);
    forall h | h in n'.ring ensures IsRing(n'.ring[h], n'.next, n'.prev) {
      var r := n.ring[h];
      assert n'.ring[h] == r;
      assert forall y :: y in r ==> y != x;
      RingKept(r, n.next, n.prev, n'.next, n'.prev);
    }
    forall h, y {:trigger y in n'.ring[h]} | h in n'.ring && y in n'.ring[h]
      ensures y in n'.ring && n'.ring[y] == n'.ring[h]
    {
      assert y in n.ring[h];
    }
  }

  // ---------------------------------------------------------------------
  // The three edits of a ring keep it a ring.
  // ---------------------------------------------------------------------

  /** The links of one position of a ring. */
  lemma RingAt<T>(r: seq<T>, nx: map<T, T>, pv: map<T, T>, i: nat)
    requires IsRing(r, nx, pv) && i < |r|
    ensures r[i] in nx && r[i] in pv
    ensures nx[r[i]] == r[Succ(i, |r|)] && pv[r[i]] == r[Pred(i, |r|)]
  {
  }

  /** Splicing `x` in after position `k`, with the four link updates of `insert`. */
  lemma InsertedIsRing<T>(r: seq<T>, nx: map<T, T>, pv: map<T, T>, k: nat, x: T)
    requires IsRing(r, nx, pv) && x !in r && k < |r|
    ensures IsRing(Inserted(r, k, x), nx[x := nx[r[k]]][r[k] := x], pv[nx[r[k]] := x][x := r[k]])
  {
    InsertedDistinct(r, k, x);
    InsertedNext(r, nx, pv, k, x);
    InsertedPrev(r, nx, pv, k, x);
  }

  lemma InsertedNext<T>(r: seq<T>, nx: map<T, T>, pv: map<T, T>, k: nat, x: T)
    requires IsRing(r, nx, pv) && x !in r && k < |r|
    ensures var s, nx' := Inserted(r, k, x), nx[x := nx[r[k]]][r[k] := x];
      forall j :: 0 <= j < |s| ==> s[j] in nx' && nx'[s[j]] == s[Succ(j, |s|)]
  {
    var s, nx' := Inserted(r, k, x), nx[x := nx[r[k]]][r[k] := x];
    RingAt(r, nx, pv, k);
    forall j | 0 <= j < |s| ensures s[j] in nx' && nx'[s[j]] == s[Succ(j, |s|)] {
      RingAt(r, nx, pv, Spread(j, k));
      InsertedNextAt(r, nx, pv, k, x, j);
    }
  }

  lemma InsertedPrev<T>(r: seq<T>, nx: map<T, T>, pv: map<T, T>, k: nat, x: T)
    requires IsRing(r, nx, pv) && x !in r && k < |r|
    ensures var s, pv' := Inserted(r, k, x), pv[nx[r[k]] := x][x := r[k]];
      forall j :: 0 <= j < |s| ==> s[j] in pv' && pv'[s[j]] == s[Pred(j, |s|)]
  {
    var s, pv' := Inserted(r, k, x), pv[nx[r[k]] := x][x := r[k]];
    RingAt(r, nx, pv, k);
    forall j | 0 <= j < |s| ensures s[j] in pv' && pv'[s[j]] == s[Pred(j, |s|)] {
      RingAt(r, nx, pv, Spread(j, k));
      InsertedPrevAt(r, nx, pv, k, x, j);
    }
  }

  lemma InsertedNextAt<T>(r: seq<T>, nx: map<T, T>, pv: map<T, T>, k: nat, x: T, j: nat)
    requires Distinct(r) && x !in r && k < |r| && j <= |r|
    requires r[k] in nx && nx[r[k]] == r[Succ(k, |r|)]
    requires Spread(j, k) < |r| && r[Spread(j, k)] in nx && nx[r[Spread(j, k)]] == r[Succ(Spread(j, k), |r|)]
    ensures var s := Inserted(r, k, x);
      s[j] in nx[x := nx[r[k]]][r[k] := x] && nx[x := nx[r[k]]][r[k] := x][s[j]] == s[Succ(j, |s|)]
  {
    var s := Inserted(r, k, x);
    var nx' := nx[x := nx[r[k]]][r[k] := x];
    assert r[k] != x by { assert r[k] in r; }
    if j == k {
      assert s[j] == r[k] && Succ(j, |s|) == k + 1;
    } else {
      InsertedSucc(|r|, k, j);
      var i, q := Spread(j, k), Succ(j, |s|);
      assert s[q] == r[Spread(q, k)];
      if j == k + 1 {
        assert s[j] == x && nx'[x] == nx[r[k]];
      } else {
        assert s[j] == r[i] && i != k;
        assert r[i] != r[k] && r[i] != x by { assert r[i] in r; }
        assert nx'[r[i]] == nx[r[i]];
      }
    }
  }

  lemma InsertedPrevAt<T>(r: seq<T>, nx: map<T, T>, pv: map<T, T>, k: nat, x: T, j: nat)
    requires Distinct(r) && x !in r && k < |r| && j <= |r|
    requires r[k] in nx && nx[r[k]] == r[Succ(k, |r|)]
    requires Spread(j, k) < |r| && r[Spread(j, k)] in pv && pv[r[Spread(j, k)]] == r[Pred(Spread(j, k), |r|)]
    ensures var s := Inserted(r, k, x);
      s[j] in pv[nx[r[k]] := x][x := r[k]] && pv[nx[r[k]] := x][x := r[k]][s[j]] == s[Pred(j, |s|)]
  {
    var s := Inserted(r, k, x);
    var ny := nx[r[k]];
    var pv' := pv[ny := x][x := r[k]];
    var sk := Succ(k, |r|);
    if j == k + 1 {
      assert s[j] == x && Pred(j, |s|) == k;
    } else {
      var i, p := Spread(j, k), Pred(j, |s|);
      assert s[j] == r[i];
      assert r[i] != x by { assert r[i] in r; }
      InsertedPred(|r|, k, j);
      if i == sk {
        assert pv'[r[i]] == x && s[p] == x;
      } else {
        assert r[i] != ny;
        assert pv'[r[i]] == pv[r[i]];
        assert s[p] == r[Spread(p, k)];
      }
    }
  }

  /** The position in `r` of position `j` of `Inserted(r, k, x)`, the new node counting as `r[k]`. */
  function Spread(j: nat, k: nat): nat {
    if j <= k then j else j - 1
  }

  /** Stepping forward in the grown ring: every step but the one into the new node is a step of `r`. */
  lemma InsertedSucc(len: nat, k: nat, j: nat)
    requires k < len && j <= len && j != k
    ensures Succ(j, len + 1) != k + 1
    ensures Spread(Succ(j, len + 1), k) == Succ(Spread(j, k), len)
  {
  }

  /** Stepping back in the grown ring: from `r[succ k]` to the new node, otherwise a step of `r`. */
  lemma InsertedPred(len: nat, k: nat, j: nat)
    requires k < len && j <= len && j != k + 1
    ensures Spread(j, k) < len
    ensures Spread(j, k) == Succ(k, len) <==> Pred(j, len + 1) == k + 1
    ensures Pred(j, len + 1) != k + 1 ==> Spread(Pred(j, len + 1), k) == Pred(Spread(j, k), len)
  {
  }

  /** Cutting out position `k`, with the link updates of `remove`. */
  lemma WithoutIsRing<T>(r: seq<T>, nx: map<T, T>, pv: map<T, T>, k: nat)
    requires IsRing(r, nx, pv) && 2 <= |r| && k < |r|
    ensures IsRing(Without(r, k), nx[pv[r[k]] := nx[r[k]]][r[k] := r[k]], pv[nx[r[k]] := pv[r[k]]][r[k] := r[k]])
  {
    var s := Without(r, k);
    var nx', pv' := nx[pv[r[k]] := nx[r[k]]][r[k] := r[k]], pv[nx[r[k]] := pv[r[k]]][r[k] := r[k]];
    WithoutDistinct(r, k);
    RingAt(r, nx, pv, k);
    forall j | 0 <= j < |s| ensures s[j] in nx' && nx'[s[j]] == s[Succ(j, |s|)] {
      var i := Skipped(j, k);
      RingAt(r, nx, pv, i);
      WithoutNextAt(r, nx, pv, k, j);
    }
    forall j | 0 <= j < |s| ensures s[j] in pv' && pv'[s[j]] == s[Pred(j, |s|)] {
      var i := Skipped(j, k);
      RingAt(r, nx, pv, i);
      WithoutPrevAt(r, nx, pv, k, j);
    }
  }

  lemma WithoutNextAt<T>(r: seq<T>, nx: map<T, T>, pv: map<T, T>, k: nat, j: nat)
    requires Distinct(r) && 2 <= |r| && k < |r| && j < |r| - 1
    requires r[k] in nx && r[k] in pv && nx[r[k]] == r[Succ(k, |r|)] && pv[r[k]] == r[Pred(k, |r|)]
    requires Skipped(j, k) < |r| && r[Skipped(j, k)] in nx && nx[r[Skipped(j, k)]] == r[Succ(Skipped(j, k), |r|)]
    ensures var s := Without(r, k);
      s[j] in nx[pv[r[k]] := nx[r[k]]][r[k] := r[k]] && nx[pv[r[k]] := nx[r[k]]][r[k] := r[k]][s[j]] == s[Succ(j, |s|)]
  {
    var s := Without(r, k);
    var len := |r|;
    var px := pv[r[k]];
    var nx' := nx[px := nx[r[k]]][r[k] := r[k]];
    var pk, sk := Pred(k, len), Succ(k, len);
    assert px == r[pk] && nx[r[k]] == r[sk];
    var i, q := Skipped(j, k), Succ(j, |s|);
    assert s[j] == r[i] && i != k && s[q] == r[Skipped(q, k)];
    SkippedSucc(len, k, j);
    assert r[i] != r[k];
    if i == pk {
      assert nx'[r[i]] == r[sk];
    } else {
      assert r[i] != px;
      assert nx'[r[i]] == nx[r[i]];
    }
  }

  lemma WithoutPrevAt<T>(r: seq<T>, nx: map<T, T>, pv: map<T, T>, k: nat, j: nat)
    requires Distinct(r) && 2 <= |r| && k < |r| && j < |r| - 1
    requires r[k] in nx && r[k] in pv && nx[r[k]] == r[Succ(k, |r|)] && pv[r[k]] == r[Pred(k, |r|)]
    requires Skipped(j, k) < |r| && r[Skipped(j, k)] in pv && pv[r[Skipped(j, k)]] == r[Pred(Skipped(j, k), |r|)]
    ensures var s := Without(r, k);
      s[j] in pv[nx[r[k]] := pv[r[k]]][r[k] := r[k]] && pv[nx[r[k]] := pv[r[k]]][r[k] := r[k]][s[j]] == s[Pred(j, |s|)]
  {
    var s := Without(r, k);
    var len := |r|;
    var ny := nx[r[k]];
    var pv' := pv[ny := pv[r[k]]][r[k] := r[k]];
    var pk, sk := Pred(k, len), Succ(k, len);
    assert pv[r[k]] == r[pk] && ny == r[sk];
    var i, q := Skipped(j, k), Pred(j, |s|);
    assert s[j] == r[i] && i != k && s[q] == r[Skipped(q, k)];
    SkippedPred(len, k, j);
    assert r[i] != r[k];
    if i == sk {
      assert pv'[r[i]] == r[pk];
    } else {
      assert r[i] != ny;
      assert pv'[r[i]] == pv[r[i]];
    }
  }

  /** The position in `r` of position `j` of `Without(r, k)`. */
  function Skipped(j: nat, k: nat): nat {
    if j < k then j else j + 1
  }

  /** Stepping forward past the cut: from `r[pred k]` straight to `r[succ k]`. */
  lemma SkippedSucc(len: nat, k: nat, j: nat)
    requires 2 <= len && k < len && j < len - 1
    ensures Skipped(j, k) < len && Skipped(j, k) != k
    ensures Skipped(Succ(j, len - 1), k)
      == if Skipped(j, k) == Pred(k, len) then Succ(k, len) else Succ(Skipped(j, k), len)
  {
  }

  /** Stepping back past the cut: from `r[succ k]` straight to `r[pred k]`. */
  lemma SkippedPred(len: nat, k: nat, j: nat)
    requires 2 <= len && k < len && j < len - 1
    ensures Skipped(j, k) < len && Skipped(j, k) != k
    ensures Skipped(Pred(j, len - 1), k)
      == if Skipped(j, k) == Succ(k, len) then Pred(k, len) else Pred(Skipped(j, k), len)
  {
  }

  /** Exchanging `a` and `b` in a ring and in its links gives a ring again. */
  lemma TauRing<T>(r: seq<T>, nx: map<T, T>, pv: map<T, T>, a: T, b: T)
    requires IsRing(r, nx, pv) && a in nx && b in nx && a in pv && b in pv
    ensures IsRing(TauSeq(r, a, b), Conj(nx, a, b), Conj(pv, a, b))
  {
    var s := TauSeq(r, a, b);
    TauSeqDistinct(r, a, b);
    forall i | 0 <= i < |s|
      ensures s[i] in Conj(nx, a, b) && Conj(nx, a, b)[s[i]] == s[Succ(i, |s|)]
    {
      TauLinkAt(r, nx, pv, a, b, i);
    }
    forall i | 0 <= i < |s|
      ensures s[i] in Conj(pv, a, b) && Conj(pv, a, b)[s[i]] == s[Pred(i, |s|)]
    {
      TauLinkAt(r, nx, pv, a, b, i);
    }
  }

  lemma TauSeqDistinct<T>(r: seq<T>, a: T, b: T)
    requires Distinct(r)
    ensures Distinct(TauSeq(r, a, b))
  {
    var s := TauSeq(r, a, b);
    forall i, j | 0 <= i < j < |s| ensures s[i] != s[j] {
      assert r[i] != r[j];
    }
  }

  lemma TauLinkAt<T>(r: seq<T>, nx: map<T, T>, pv: map<T, T>, a: T, b: T, i: nat)
    requires IsRing(r, nx, pv) && a in nx && b in nx && a in pv && b in pv && i < |r|
    ensures var s := TauSeq(r, a, b);
      && s[i] in Conj(nx, a, b) && Conj(nx, a, b)[s[i]] == s[Succ(i, |s|)]
      && s[i] in Conj(pv, a, b) && Conj(pv, a, b)[s[i]] == s[Pred(i, |s|)]
  {
    TauStep(r, nx, a, b, i, Succ(i, |r|));
    TauStep(r, pv, a, b, i, Pred(i, |r|));
  }

  /** A link `r[i] -> r[j]` of `f` becomes the link `s[i] -> s[j]` of the conjugate. */
  lemma TauStep<T>(r: seq<T>, f: map<T, T>, a: T, b: T, i: nat, j: nat)
    requires a in f && b in f && i < |r| && j < |r| && r[i] in f && f[r[i]] == r[j]
    ensures var s := TauSeq(r, a, b); s[i] in Conj(f, a, b) && Conj(f, a, b)[s[i]] == s[j]
  {
    var s := TauSeq(r, a, b);
    var z := s[i];
    assert z == Tau(r[i], a, b) && Tau(z, a, b) == r[i];
    assert z in f;
    assert Conj(f, a, b)[z] == Tau(f[r[i]], a, b);
  }

  // ---------------------------------------------------------------------
  // The three edits keep the nodes partitioned into rings.
  // ---------------------------------------------------------------------

  /** Splicing a node alone on its ring in after another keeps the nodes partitioned into rings. */
  lemma SplicedPartitioned<T>(m: map<T, seq<T>>, x: T, y: T)
    requires Partitioned(m) && x in m && y in m && m[x] == [x] && x != y
    ensures x !in m[y]
    ensures Partitioned(Spliced(m, x, y))
  {
    SplicedOnOwnRing(m, x, y);
    SplicedClosed(m, x, y);
  }

  lemma SplicedOnOwnRing<T>(m: map<T, seq<T>>, x: T, y: T)
    requires OnOwnRing(m) && x in m && y in m && x !in m[y]
    ensures OnOwnRing(Spliced(m, x, y))
  {
    var r := m[y];
    var joined := Inserted(r, IndexOf(r, y), x);
    InsertedDistinct(r, IndexOf(r, y), x);
    var m' := Spliced(m, x, y);
    forall h | h in m' ensures h in m'[h] && Distinct(m'[h]) {
      if h == x || h in r { assert m'[h] == joined; } else { assert m'[h] == m[h]; }
    }
  }

  lemma SplicedClosed<T>(m: map<T, seq<T>>, x: T, y: T)
    requires Partitioned(m) && x in m && y in m && m[x] == [x] && x != y
    ensures x !in m[y]
    ensures Closed(Spliced(m, x, y))
  {
    var r := m[y];
    assert x !in r;
    var joined := Inserted(r, IndexOf(r, y), x);
    InsertedDistinct(r, IndexOf(r, y), x);
    var m' := Spliced(m, x, y);
    forall h, z {:trigger z in m'[h]} | h in m' && z in m'[h] ensures z in m' && m'[z] == m'[h] {
      if h == x || h in r {
        assert m'[h] == joined;
        assert z == x || z in r;
        assert m'[z] == joined;
      } else {
        assert m'[h] == m[h];
        assert m[z] == m[h];
        assert z != x && z !in r;
        assert m'[z] == m[z];
      }
    }
  }

  lemma DetachedPartitioned<T>(m: map<T, seq<T>>, x: T)
    requires Partitioned(m) && x in m
    ensures Partitioned(Detached(m, x))
  {
    DetachedOnOwnRing(m, x);
    DetachedClosed(m, x);
  }

  lemma DetachedOnOwnRing<T>(m: map<T, seq<T>>, x: T)
    requires OnOwnRing(m) && x in m
    ensures OnOwnRing(Detached(m, x))
  {
    var r := m[x];
    var rest := Without(r, IndexOf(r, x));
    WithoutDistinct(r, IndexOf(r, x));
    var m' := Detached(m, x);
    forall h | h in m' ensures h in m'[h] && Distinct(m'[h]) {
      if h == x { } else if h in r { assert m'[h] == rest; } else { assert m'[h] == m[h]; }
    }
  }

  lemma DetachedClosed<T>(m: map<T, seq<T>>, x: T)
    requires Partitioned(m) && x in m
    ensures Closed(Detached(m, x))
  {
    var r := m[x];
    var rest := Without(r, IndexOf(r, x));
    WithoutDistinct(r, IndexOf(r, x));
    var m' := Detached(m, x);
    forall h, z {:trigger z in m'[h]} | h in m' && z in m'[h] ensures z in m' && m'[z] == m'[h] {
      if h == x {
        assert m'[h] == [x];
      } else if h in r {
        assert m'[h] == rest;
        assert z in r && z != x;
        assert m'[z] == rest;
      } else {
        assert m'[h] == m[h];
        assert m[z] == m[h];
        assert z != x && z !in r;
        assert m'[z] == m[z];
      }
    }
  }

  /** Exchanging two nodes leaves every ring that holds neither of them as it was. */
  lemma {:induction false} ExchangedElsewhere<T>(m: map<T, seq<T>>, a: T, b: T, h: T)
    requires Partitioned(m) && a in m && b in m && h in m && h !in m[a] && h !in m[b]
    ensures Exchanged(m, a, b)[h] == m[h]
  {
    assert h != a && h != b;
    Apart(m, h, a);
    Apart(m, h, b);
    assert TauSeq(m[h], a, b) == m[h];
  }

  /** Exchanging two nodes keeps the nodes partitioned into rings. */
  lemma ExchangedPartitioned<T>(m: map<T, seq<T>>, a: T, b: T)
    requires Partitioned(m) && a in m && b in m
    ensures Partitioned(Exchanged(m, a, b))
  {
    var m' := Exchanged(m, a, b);
    forall h | h in m' ensures h in m'[h] && Distinct(m'[h]) {
      var r := m[Tau(h, a, b)];
      assert m'[h] == TauSeq(r, a, b);
      TauSeqDistinct(r, a, b);
      var k := IndexOf(r, Tau(h, a, b));
      assert TauSeq(r, a, b)[k] == h;
    }
    forall h, z {:trigger z in m'[h]} | h in m' && z in m'[h] ensures z in m' && m'[z] == m'[h] {
      var r := m[Tau(h, a, b)];
      assert m'[h] == TauSeq(r, a, b);
      var i :| 0 <= i < |r| && TauSeq(r, a, b)[i] == z;
      assert r[i] in r;
      assert Tau(z, a, b) == r[i];
      assert m'[z] == TauSeq(m[r[i]], a, b);
    }
  }

  // ---------------------------------------------------------------------
  // The three edits keep a set of nodes well formed.
  // ---------------------------------------------------------------------

  /**
   * Splicing a node that is a ring of its own in after another node keeps
   * the nodes well formed; the node joins the other's ring, which grows by
   * one, and every other ring is untouched.
   */
  lemma SpliceOk<T>(n: Net<T>, x: T, y: T)
    requires Ok(n) && x in n.ring && n.ring[x] == [x] && y in n.ring && x != y
    ensures Ok(Splice(n, x, y))
    ensures Splice(n, x, y).ring[x] == Splice(n, x, y).ring[y]
    ensures |Splice(n, x, y).ring[y]| == |n.ring[y]| + 1
    ensures forall h :: h in n.ring && h != x && h !in n.ring[y] ==> Splice(n, x, y).ring[h] == n.ring[h]
  {
    var r := n.ring[y];
    var k := IndexOf(r, y);
    SplicedPartitioned(n.ring, x, y);
    var n' := Splice(n, x, y);
    InsertedIsRing(r, n.next, n.prev, k, x);
    forall h | h in n'.ring ensures IsRing(n'.ring[h], n'.next, n'.prev) {
      if h != x && h !in r {
        SpliceUntouched(n, x, y, h);
      }
    }
  }

  lemma SpliceUntouched<T>(n: Net<T>, x: T, y: T, h: T)
    requires Ok(n) && x in n.ring && n.ring[x] == [x] && y in n.ring && x != y
    requires h in n.ring && h != x && h !in n.ring[y]
    ensures IsRing(n.ring[h], Splice(n, x, y).next, Splice(n, x, y).prev)
  {
    var n' := Splice(n, x, y);
    var r := n.ring[h];
    Links(n, y);
    Apart(n.ring, h, y);
    assert x !in r;
    RingKept(r, n.next, n.prev, n'.next, n'.prev);
  }

  /**
   * Unlinking a node keeps the nodes well formed, and leaves the node a
   * ring of its own.
   */
  lemma DetachOk<T>(n: Net<T>, x: T)
    requires Ok(n) && x in n.ring
    ensures Ok(Detach(n, x))
    ensures Detach(n, x).ring[x] == [x]
  {
    DetachedPartitioned(n.ring, x);
    var n' := Detach(n, x);
    forall h | h in n'.ring ensures IsRing(n'.ring[h], n'.next, n'.prev) {
      if h == x || h in n.ring[x] {
        DetachTouched(n, x, h);
      } else {
        DetachUntouched(n, x, h);
      }
    }
  }

  lemma DetachTouched<T>(n: Net<T>, x: T, h: T)
    requires Ok(n) && x in n.ring && h in n.ring && (h == x || h in n.ring[x])
    ensures IsRing(Detach(n, x).ring[h], Detach(n, x).next, Detach(n, x).prev)
  {
    if h == x {
      assert x in n.ring[x];
      DetachSelf(n, x);
    } else {
      DetachRest(n, x, h);
    }
  }

  lemma DetachSelf<T>(n: Net<T>, x: T)
    requires x in n.ring && x in n.ring[x] && x in n.next && x in n.prev
    ensures IsRing(Detach(n, x).ring[x], Detach(n, x).next, Detach(n, x).prev)
  {
    var n' := Detach(n, x);
    assert n'.ring[x] == [x] && n'.next[x] == x && n'.prev[x] == x;
  }

  lemma DetachRest<T>(n: Net<T>, x: T, h: T)
    requires Ok(n) && x in n.ring && h in n.ring[x] && h != x
    ensures IsRing(Detach(n, x).ring[h], Detach(n, x).next, Detach(n, x).prev)
  {
    var r := n.ring[x];
    var k := IndexOf(r, x);
    assert IsRing(r, n.next, n.prev) && r[k] == x && r[0] != r[|r| - 1];
    WithoutIsRing(r, n.next, n.prev, k);
    var n' := Detach(n, x);
    assert IsRing(Without(r, k), n'.next, n'.prev);
    assert n'.ring[h] == Without(r, k);
  }

  lemma DetachUntouched<T>(n: Net<T>, x: T, h: T)
    requires Ok(n) && x in n.ring && h in n.ring && h !in n.ring[x]
    ensures IsRing(n.ring[h], Detach(n, x).next, Detach(n, x).prev)
  {
    var n' := Detach(n, x);
    Links(n, x);
    Apart(n.ring, h, x);
    RingKept(n.ring[h], n.next, n.prev, n'.next, n'.prev);
  }

  /** Exchanging two nodes keeps the nodes well formed. */
  lemma ExchangeOk<T>(n: Net<T>, a: T, b: T)
    requires Ok(n) && a in n.ring && b in n.ring
    ensures Ok(Exchange(n, a, b))
  {
    ExchangedPartitioned(n.ring, a, b);
    var n' := Exchange(n, a, b);
    forall h | h in n'.ring ensures IsRing(n'.ring[h], n'.next, n'.prev) {
      ExchangeAt(n, a, b, h);
    }
  }

  lemma ExchangeAt<T>(n: Net<T>, a: T, b: T, h: T)
    requires Ok(n) && a in n.ring && b in n.ring && h in n.ring
    ensures IsRing(Exchange(n, a, b).ring[h], Exchange(n, a, b).next, Exchange(n, a, b).prev)
  {
    assert a in n.ring[a] && b in n.ring[b];
    var g := Tau(h, a, b);
    assert g in n.ring;
    assert Exchange(n, a, b).ring[h] == TauSeq(n.ring[g], a, b);
    TauRing(n.ring[g], n.next, n.prev, a, b);
  }

  // ---------------------------------------------------------------------
  // What the edits do to the rings, member by member.
  // ---------------------------------------------------------------------

  /** Every node of a well-formed set lies on its own ring and has both links. */
  lemma OnRing<T>(n: Net<T>, x: T)
    requires Ok(n) && x in n.ring
    ensures x in n.ring[x] && x in n.next && x in n.prev
  {
    assert IsRing(n.ring[x], n.next, n.prev);
    assert n.ring[x][IndexOf(n.ring[x], x)] == x;
  }

  /**
   * After splicing `x` in after `y`, the ring of `y` (shared by `x` and all
   * its old members) has exactly `x` and the old members; other rings stay.
   */
  lemma SplicedShape<T>(m: map<T, seq<T>>, x: T, y: T)
    requires Partitioned(m) && x in m && y in m && m[x] == [x] && x != y
    ensures x !in m[y]
    ensures forall h :: h in m && (h == x || h in m[y]) ==> Spliced(m, x, y)[h] == Spliced(m, x, y)[y]
    ensures forall z :: z in Spliced(m, x, y)[y] <==> z == x || z in m[y]
    ensures forall h :: h in m && h != x && h !in m[y] ==> Spliced(m, x, y)[h] == m[h]
  {
    var r := m[y];
    assert x !in r;
    InsertedDistinct(r, IndexOf(r, y), x);
  }

  /**
   * After unlinking `x`, `x` is alone on its ring, the other members of its
   * old ring share a ring of exactly themselves, and other rings stay.
   */
  lemma DetachedShape<T>(m: map<T, seq<T>>, x: T)
    requires Partitioned(m) && x in m
    ensures Detached(m, x)[x] == [x]
    ensures forall h :: h in m[x] && h != x ==> h in m
    ensures forall h, z :: h in m[x] && h != x ==> (z in Detached(m, x)[h] <==> z in m[x] && z != x)
    ensures forall h :: h in m && h !in m[x] ==> Detached(m, x)[h] == m[h]
  {
    var r := m[x];
    WithoutDistinct(r, IndexOf(r, x));
  }

  // ---------------------------------------------------------------------
  // The two primitives of the ring node, as the node sees them.
  // ---------------------------------------------------------------------

  /**
   * `insert(other)` on a node alone on its ring: afterwards `other.next` is
   * the node, the node's `prev` is `other`, its `next` is `other`'s old
   * successor, whose `prev` is the node; the ring invariant is kept, and
   * `other`'s ring has grown by exactly the node.
   */
  lemma InsertSpec<T>(n: Net<T>, x: T, y: T)
    requires Ok(n) && x in n.ring && n.ring[x] == [x] && y in n.ring && x != y
    ensures y in n.next
    ensures var n' := Splice(n, x, y);
      && Ok(n')
      && n'.next[y] == x && n'.prev[x] == y
      && n'.next[x] == n.next[y] && n'.prev[n.next[y]] == x
      && n'.ring[x] == n'.ring[y]
      && |n'.ring[y]| == |n.ring[y]| + 1
      && (forall z :: z in n'.ring[y] <==> z == x || z in n.ring[y])
  {
    OnRing(n, y);
    SpliceOk(n, x, y);
    SplicedShape(n.ring, x, y);
    Links(n, y);
    assert n.next[y] != x by { assert n.next[y] in n.ring[y]; }
  }

  /**
   * `remove()`: afterwards the node is alone on its ring and linked to
   * itself both ways, its old neighbours are linked to each other, and the
   * ring invariant is kept.  On a node already alone, nothing changes.
   */
  lemma RemoveSpec<T>(n: Net<T>, x: T)
    requires Ok(n) && x in n.ring
    ensures x in n.ring[x] && x in n.next && x in n.prev
    ensures var n' := Detach(n, x);
      && Ok(n')
      && n'.ring[x] == [x] && n'.next[x] == x && n'.prev[x] == x
      && n'.next[n.prev[x]] == n.next[x] && n'.prev[n.next[x]] == n.prev[x]
      && (n.ring[x] == [x] ==> n' == n)
  {
    OnRing(n, x);
    DetachOk(n, x);
    if n.ring[x] == [x] {
      SoloIff(n, x);
      DetachSolo(n, x);
    } else {
      SoloIff(n, x);
      Links(n, x);
    }
  }

  lemma DetachSolo<T>(n: Net<T>, x: T)
    requires x in n.ring && n.ring[x] == [x] && x in n.next && x in n.prev
    requires n.next[x] == x && n.prev[x] == x
    ensures Detach(n, x) == n
  {
    var m := n.ring;
    assert IndexOf(m[x], x) == 0;
    var m' := Detached(m, x);
    forall h | h in m ensures m'[h] == m[h] {
    }
    assert m'.Keys == m.Keys;
    assert m' == m;
    assert n.next[x := x][x := x] == n.next;
    assert n.prev[x := x][x := x] == n.prev;
  }

  /** After unlinking `x`, a former ring-mate's ring is the old ring less `x`. */
  lemma DetachedMate<T>(m: map<T, seq<T>>, x: T, y: T)
    requires Partitioned(m) && x in m && y in m[x] && y != x
    ensures y in m
    ensures forall z :: z in Detached(m, x)[y] <==> z in m[x] && z != x
  {
    DetachedShape(m, x);
  }

  /** The ring `r` in order, less `x` when `x` is on it. */
  ghost function Vacated<T>(r: seq<T>, x: T): seq<T> {
    if x in r then Without(r, IndexOf(r, x)) else r
  }

  /**
   * After unlinking `x`, every other node's ring is its old ring, in the
   * same order, less `x`.
   */
  lemma DetachedVacates<T>(m: map<T, seq<T>>, x: T, h: T)
    requires Partitioned(m) && x in m && h in m && h != x
    ensures Detached(m, x)[h] == Vacated(m[h], x)
    ensures h in Vacated(m[h], x) && Distinct(Vacated(m[h], x))
    ensures forall z :: z in Vacated(m[h], x) <==> z in m[h] && z != x
  {
    if x in m[h] {
      assert m[x] == m[h];
      WithoutDistinct(m[h], IndexOf(m[h], x));
    } else {
      assert h !in m[x];
    }
  }

  /**
   * After unlinking `x`, every other node's ring has the same members as
   * before, less `x`.
   */
  lemma DetachedOthers<T>(m: map<T, seq<T>>, x: T)
    requires Partitioned(m) && x in m
    ensures forall h, z :: h in m && h != x ==> (z in Detached(m, x)[h] <==> z in m[h] && z != x)
  {
    DetachedShape(m, x);
    forall h | h in m && h != x
      ensures forall z :: z in Detached(m, x)[h] <==> z in m[h] && z != x
    {
      if h in m[x] {
        assert m[h] == m[x];
      } else {
        assert Detached(m, x)[h] == m[h];
        assert x !in m[h];
      }
    }
  }

  /** Exchanging two nodes that are each alone on a ring changes no link of a node. */
  lemma ExchangeSolo<T>(n: Net<T>, a: T, b: T)
    requires Ok(n) && a in n.ring && b in n.ring && n.ring[a] == [a] && n.ring[b] == [b]
    ensures a in n.next && b in n.next && a in n.prev && b in n.prev
    ensures forall z :: z in n.ring ==>
      && z in n.next && z in n.prev
      && Exchange(n, a, b).next[z] == n.next[z] && Exchange(n, a, b).prev[z] == n.prev[z]
  {
    OnRing(n, a);
    OnRing(n, b);
    SoloIff(n, a);
    SoloIff(n, b);
    forall z | z in n.ring
      ensures z in n.next && z in n.prev
      ensures Exchange(n, a, b).next[z] == n.next[z] && Exchange(n, a, b).prev[z] == n.prev[z]
    {
      Links(n, z);
      OnRing(n, z);
      if z != a && z != b {
        assert n.next[z] != a && n.next[z] != b && n.prev[z] != a && n.prev[z] != b;
      }
    }
  }
  /**
   * The neighbours of a node that is not alone on its ring are other nodes
   * of that ring, never a node that is alone on its own.
   */
  lemma Neighbours<T>(n: Net<T>, a: T, b: T)
    requires Ok(n) && a in n.ring && b in n.ring && n.ring[b] != [b] && a !in n.ring[b]
    ensures a in n.next && a in n.prev && b in n.next && b in n.prev
    ensures n.next[b] != a && n.next[b] != b && n.prev[b] != a && n.prev[b] != b
    ensures n.next[b] in n.ring[b] && n.prev[b] in n.ring[b]
  {
    OnRing(n, a);
    OnRing(n, b);
    SoloIff(n, b);
    Links(n, b);
  }

  /** Each node's neighbours are nodes whose links lead back to it. */
  ghost predicate Mutual<T>(n: Net<T>) {
    forall z :: z in n.ring ==>
      && z in n.next && z in n.prev && n.next[z] in n.ring && n.prev[z] in n.ring
      && n.next[z] in n.prev && n.prev[z] in n.next
      && n.prev[n.next[z]] == z && n.next[n.prev[z]] == z
  }

  lemma OkMutual<T>(n: Net<T>)
    requires Ok(n)
    ensures Mutual(n)
  {
    forall z | z in n.ring
      ensures z in n.next && z in n.prev && n.next[z] in n.ring && n.prev[z] in n.ring
      ensures n.next[z] in n.prev && n.prev[z] in n.next
      ensures n.prev[n.next[z]] == z && n.next[n.prev[z]] == z
    {
      Links(n, z);
      OnRing(n, n.next[z]);
      OnRing(n, n.prev[z]);
    }
  }

  /** The links after the four assignments of the last branch of `swap` on `a` and `b`. */
  ghost function CrossedNext<T>(nx: map<T, T>, pv: map<T, T>, a: T, b: T): map<T, T>
    requires a in nx && b in nx && a in pv && b in pv
  {
    nx[pv[b] := a][pv[a] := b][a := nx[b]][b := nx[a]]
  }

  ghost function CrossedPrev<T>(nx: map<T, T>, pv: map<T, T>, a: T, b: T): map<T, T>
    requires a in nx && b in nx && a in pv && b in pv
  {
    pv[nx[b] := a][nx[a] := b][a := pv[b]][b := pv[a]]
  }

  /** One entry of a link map with the roles of `a` and `b` exchanged. */
  lemma ConjAt<T>(f: map<T, T>, a: T, b: T, z: T)
    requires a in f && b in f && z in f
    ensures Conj(f, a, b)[z] == Tau(f[Tau(z, a, b)], a, b)
  {
  }

  /**
   * The middle branch of `swap`: `a`, alone on its ring, is linked in
   * after `b` and `b` is then cut out.  Every node then has the links it
   * has after the exchange of `a` and `b`.
   */
  lemma SupplantIsExchange<T>(n: Net<T>, a: T, b: T)
    requires Mutual(n) && a in n.ring && b in n.ring && a != b
    requires n.next[a] == a && n.next[b] != b
    ensures a in n.next && b in n.next && a in n.prev && b in n.prev
    ensures forall z :: z in n.ring ==>
      && z in Conj(n.next, a, b) && z in Conj(n.prev, a, b)
      && z in DetachedNext(SplicedNext(n.next, a, b), SplicedPrev(n.next, n.prev, a, b), b)
      && z in DetachedPrev(SplicedNext(n.next, a, b), SplicedPrev(n.next, n.prev, a, b), b)
      && DetachedNext(SplicedNext(n.next, a, b), SplicedPrev(n.next, n.prev, a, b), b)[z] == Conj(n.next, a, b)[z]
      && DetachedPrev(SplicedNext(n.next, a, b), SplicedPrev(n.next, n.prev, a, b), b)[z] == Conj(n.prev, a, b)[z]
  {
    assert n.next[b] in n.ring && n.prev[b] in n.ring;
    forall z | z in n.ring
      ensures && z in Conj(n.next, a, b) && z in Conj(n.prev, a, b)
      && z in DetachedNext(SplicedNext(n.next, a, b), SplicedPrev(n.next, n.prev, a, b), b)
      && z in DetachedPrev(SplicedNext(n.next, a, b), SplicedPrev(n.next, n.prev, a, b), b)
      && DetachedNext(SplicedNext(n.next, a, b), SplicedPrev(n.next, n.prev, a, b), b)[z] == Conj(n.next, a, b)[z]
      && DetachedPrev(SplicedNext(n.next, a, b), SplicedPrev(n.next, n.prev, a, b), b)[z] == Conj(n.prev, a, b)[z]
    {
      assert n.prev[n.next[z]] == z && n.next[n.prev[z]] == z;
      SupplantAt(n.next, n.prev, a, b, z);
    }
  }

  lemma SupplantAt<T>(nx: map<T, T>, pv: map<T, T>, a: T, b: T, z: T)
    requires a in nx && b in nx && z in nx && a in pv && b in pv && z in pv && a != b
    requires nx[a] == a && pv[a] == a && nx[b] != b && nx[b] != a && pv[b] != b && pv[b] != a
    requires pv[b] in nx && nx[pv[b]] == b && nx[b] in pv && pv[nx[b]] == b
    requires nx[z] == a ==> z == a
    requires nx[z] == b ==> z == pv[b]
    requires pv[z] == a ==> z == a
    requires pv[z] == b ==> z == nx[b]
    ensures DetachedNext(SplicedNext(nx, a, b), SplicedPrev(nx, pv, a, b), b)[z] == Conj(nx, a, b)[z]
    ensures DetachedPrev(SplicedNext(nx, a, b), SplicedPrev(nx, pv, a, b), b)[z] == Conj(pv, a, b)[z]
  {
    ConjAt(nx, a, b, z);
    ConjAt(pv, a, b, z);
  }

  /**
   * The last branch of `swap`: `a` and `b`, each on a ring of at least two
   * and neither next to the other, trade their four neighbours' links and
   * their own.  Every node then has the links it has after the exchange of
   * `a` and `b`.
   */
  lemma CrossIsExchange<T>(n: Net<T>, a: T, b: T)
    requires Mutual(n) && a in n.ring && b in n.ring && a != b
    requires n.next[a] != a && n.next[b] != b && n.next[a] != b && n.next[b] != a
    ensures a in n.next && b in n.next && a in n.prev && b in n.prev
    ensures forall z :: z in n.ring ==>
      && z in Conj(n.next, a, b) && z in Conj(n.prev, a, b)
      && z in CrossedNext(n.next, n.prev, a, b) && z in CrossedPrev(n.next, n.prev, a, b)
      && CrossedNext(n.next, n.prev, a, b)[z] == Conj(n.next, a, b)[z]
      && CrossedPrev(n.next, n.prev, a, b)[z] == Conj(n.prev, a, b)[z]
  {
    assert n.prev[a] in n.ring && n.prev[b] in n.ring && n.next[a] in n.ring && n.next[b] in n.ring;
    forall z | z in n.ring
      ensures && z in Conj(n.next, a, b) && z in Conj(n.prev, a, b)
      && z in CrossedNext(n.next, n.prev, a, b) && z in CrossedPrev(n.next, n.prev, a, b)
      && CrossedNext(n.next, n.prev, a, b)[z] == Conj(n.next, a, b)[z]
      && CrossedPrev(n.next, n.prev, a, b)[z] == Conj(n.prev, a, b)[z]
    {
      assert n.prev[n.next[z]] == z && n.next[n.prev[z]] == z;
      CrossAt(n.next, n.prev, a, b, z);
    }
  }

  lemma CrossAt<T>(nx: map<T, T>, pv: map<T, T>, a: T, b: T, z: T)
    requires a in nx && b in nx && z in nx && a in pv && b in pv && z in pv && a != b
    requires nx[a] != a && nx[a] != b && nx[b] != b && nx[b] != a
    requires pv[a] != a && pv[a] != b && pv[b] != b && pv[b] != a
    requires pv[a] in nx && nx[pv[a]] == a && pv[b] in nx && nx[pv[b]] == b
    requires nx[a] in pv && pv[nx[a]] == a && nx[b] in pv && pv[nx[b]] == b
    requires nx[z] == a ==> z == pv[a]
    requires nx[z] == b ==> z == pv[b]
    requires pv[z] == a ==> z == nx[a]
    requires pv[z] == b ==> z == nx[b]
    ensures z in Conj(nx, a, b) && z in Conj(pv, a, b)
    ensures z in CrossedNext(nx, pv, a, b) && z in CrossedPrev(nx, pv, a, b)
    ensures CrossedNext(nx, pv, a, b)[z] == Conj(nx, a, b)[z]
    ensures CrossedPrev(nx, pv, a, b)[z] == Conj(pv, a, b)[z]
  {
    ConjAt(nx, a, b, z);
    ConjAt(pv, a, b, z);
  }
}
