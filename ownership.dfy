/**
 * Shared ownership, stated over values: every live `linked_ptr` is a node
 * of the ring bookkeeping, holds one pointee address (or null), and the
 * deletions made so far are kept in order.  Each operation of
 * `linked_ptr` is a function from the world before to the world after;
 * the handle layer is proved to perform exactly these functions.
 */
module Ownership {
  import opened RingSeq
  import opened Rings

  /** A pointee address; `Null` is the null pointer. */
  type Address = nat

  const Null: Address := 0

  /**
   * The live handles with their rings and links, the address each holds,
   * and the addresses deleted so far, oldest first.
   */
  datatype World<T> = World(net: Net<T>, held: map<T, Address>, freed: seq<Address>)

  // ---------------------------------------------------------------------
  // Who owns what.
  // ---------------------------------------------------------------------

  /** The non-null addresses held by the handles in `live`. */
  ghost function OwnedBy<T>(live: set<T>, held: map<T, Address>): (s: set<Address>)
    ensures Null !in s
    ensures forall h :: h in live && h in held && held[h] != Null ==> held[h] in s
  {
    set h | h in live && h in held && held[h] != Null :: held[h]
  }

  /** The single address `p` unless it is null. */
  function NonNull(p: Address): set<Address> {
    if p == Null then {} else {p}
  }

  /** `x` holds a non-null address no other handle of `live` holds. */
  ghost predicate LastOwner<T>(live: set<T>, held: map<T, Address>, x: T)
    requires x in held
  {
    held[x] != Null && forall g :: g in live && g in held && g != x ==> held[g] != held[x]
  }

  /** What `x` releases when it stops holding its address. */
  ghost function Released<T>(live: set<T>, held: map<T, Address>, x: T): set<Address>
    requires x in held
  {
    if LastOwner(live, held, x) then {held[x]} else {}
  }

  lemma OwnedByInsert<T>(live: set<T>, held: map<T, Address>, x: T, v: Address)
    requires x !in live
    ensures OwnedBy(live + {x}, held[x := v]) == OwnedBy(live, held) + NonNull(v)
  {
    var a, b := OwnedBy(live + {x}, held[x := v]), OwnedBy(live, held) + NonNull(v);
    forall p | p in a ensures p in b {
      var h :| h in live + {x} && h in held[x := v] && held[x := v][h] != Null && held[x := v][h] == p;
      if h != x { assert h in live && held[h] == p; }
    }
    forall p | p in b ensures p in a {
      if p in OwnedBy(live, held) {
        var h :| h in live && h in held && held[h] != Null && held[h] == p;
        assert h != x && held[x := v][h] == p;
      } else {
        assert held[x := v][x] == p;
      }
    }
  }

  lemma OwnedByRemove<T>(live: set<T>, held: map<T, Address>, x: T)
    requires x in live && x in held
    ensures OwnedBy(live - {x}, held) == OwnedBy(live, held) - Released(live, held, x)
  {
    var a, b := OwnedBy(live - {x}, held), OwnedBy(live, held) - Released(live, held, x);
    forall p | p in a ensures p in b {
      var h :| h in live - {x} && h in held && held[h] != Null && held[h] == p;
      assert h in live;
    }
    forall p | p in b ensures p in a {
      var h :| h in live && h in held && held[h] != Null && held[h] == p;
      if h == x {
        assert !LastOwner(live, held, x);
        var g :| g in live && g in held && g != x && held[g] == held[x];
        assert g in live - {x};
      } else {
        assert h in live - {x};
      }
    }
  }

  lemma OwnedByWrite<T>(live: set<T>, held: map<T, Address>, x: T, v: Address)
    requires x in live && x in held
    ensures OwnedBy(live, held[x := v]) == OwnedBy(live, held) - Released(live, held, x) + NonNull(v)
  {
    OwnedByRemove(live, held, x);
    OwnedByInsert(live - {x}, held, x, v);
    assert live - {x} + {x} == live;
    assert OwnedBy(live - {x}, held[x := v]) == OwnedBy(live - {x}, held) by {
      OwnedByFrame(live - {x}, held, held[x := v]);
    }
  }

  /** A handle that stops holding anything releases what it alone held. */
  lemma OwnedByClear<T>(live: set<T>, held: map<T, Address>, x: T)
    requires x in live && x in held
    ensures OwnedBy(live, held[x := Null]) == OwnedBy(live, held) - Released(live, held, x)
  {
    OwnedByWrite(live, held, x, Null);
    assert NonNull(Null) == {};
  }

  /** A handle whose address another handle also holds releases nothing. */
  lemma OwnedByShared<T>(live: set<T>, held: map<T, Address>, x: T, g: T)
    requires x in live && x in held && g in live && g in held && g != x && held[g] == held[x]
    ensures OwnedBy(live, held[x := Null]) == OwnedBy(live, held)
  {
    OwnedByClear(live, held, x);
    assert !LastOwner(live, held, x);
  }

  /** A new handle holding null adds no address. */
  lemma OwnedByJoinNull<T>(live: set<T>, held: map<T, Address>, x: T)
    requires x !in live
    ensures OwnedBy(live + {x}, held[x := Null]) == OwnedBy(live, held)
  {
    OwnedByInsert(live, held, x, Null);
    assert NonNull(Null) == {};
  }

  /** A handle holding null that takes the address of another live handle adds no address. */
  lemma OwnedByCopy<T>(live: set<T>, held: map<T, Address>, x: T, y: T)
    requires x in live && y in live && x in held && y in held && held[x] == Null
    ensures OwnedBy(live, held[x := held[y]]) == OwnedBy(live, held)
  {
    var held' := held[x := held[y]];
    forall p | p in OwnedBy(live, held') ensures p in OwnedBy(live, held) {
      var h :| h in live && h in held' && held'[h] != Null && held'[h] == p;
      if h == x { assert held[y] == p; }
    }
    forall p | p in OwnedBy(live, held) ensures p in OwnedBy(live, held') {
      var h :| h in live && h in held && held[h] != Null && held[h] == p;
      assert h != x && held'[h] == p;
    }
  }

  /** Only the addresses of the handles in `live` count. */
  lemma OwnedByFrame<T>(live: set<T>, held: map<T, Address>, held': map<T, Address>)
    requires forall h :: h in live ==> (h in held <==> h in held') && (h in held ==> held[h] == held'[h])
    ensures OwnedBy(live, held) == OwnedBy(live, held')
  {
    var a, b := OwnedBy(live, held), OwnedBy(live, held');
    forall p | p in a ensures p in b {
      var h :| h in live && h in held && held[h] != Null && held[h] == p;
    }
    forall p | p in b ensures p in a {
      var h :| h in live && h in held' && held'[h] != Null && held'[h] == p;
    }
  }

  // ---------------------------------------------------------------------
  // The invariant of shared ownership.
  // ---------------------------------------------------------------------

  /** Every live handle holds an address. */
  ghost predicate Holding<T>(w: World<T>) {
    forall h :: h in w.net.ring ==> h in w.held
  }

  /** The handles of one ring hold the same address. */
  ghost predicate Agree<T>(w: World<T>) {
    forall h, y {:trigger y in w.net.ring[h]} ::
      h in w.net.ring && y in w.net.ring[h] && h in w.held && y in w.held ==> w.held[y] == w.held[h]
  }

  /** Two live handles holding the same non-null address are on one ring. */
  ghost predicate Exclusive<T>(w: World<T>) {
    forall g, h {:trigger h in w.net.ring[g]} ::
      (g in w.net.ring && h in w.net.ring && g in w.held && h in w.held &&
       w.held[g] == w.held[h] && w.held[g] != Null) ==> h in w.net.ring[g]
  }

  /**
   * The invariant: well-formed rings, and the co-owners of an address are
   * exactly one ring, so that the ring knows when its last member goes.
   */
  ghost predicate Inv<T>(w: World<T>) {
    Ok(w.net) && Holding(w) && Agree(w) && Exclusive(w)
  }

  /** The addresses the live handles hold. */
  ghost function Owned<T>(w: World<T>): set<Address> {
    OwnedBy(w.net.ring.Keys, w.held)
  }

  /** `is_unique`: the handle is linked to itself both ways. */
  ghost predicate IsUnique<T>(w: World<T>, x: T)
    requires x in w.net.next && x in w.net.prev
  {
    w.net.next[x] == x && w.net.prev[x] == x
  }

  /** `unique`: the handle is alone on its ring and holds a non-null address. */
  ghost predicate Unique<T>(w: World<T>, x: T)
    requires x in w.net.next && x in w.net.prev && x in w.held
  {
    IsUnique(w, x) && w.held[x] != Null
  }

  /** `x` is a live handle on its own ring, with both links and an address. */
  ghost predicate Wired<T>(w: World<T>, x: T) {
    x in w.net.ring && x in w.net.ring[x] && x in w.net.next && x in w.net.prev && x in w.held
  }

  lemma Member<T>(w: World<T>, x: T)
    requires Inv(w) && x in w.net.ring
    ensures Wired(w, x)
  {
    OnRing(w.net, x);
  }

  /**
   * `unique()` is exactly "the last owner": the handle holds a non-null
   * address that no other live handle holds.
   */
  lemma UniqueIffLastOwner<T>(w: World<T>, x: T)
    requires Inv(w) && x in w.net.ring
    ensures x in w.net.next && x in w.net.prev && x in w.held
    ensures Unique(w, x) <==> LastOwner(w.net.ring.Keys, w.held, x)
  {
    Member(w, x);
    SoloIff(w.net, x);
    var r := w.net.ring[x];
    if Unique(w, x) {
      assert r == [x];
      forall g | g in w.net.ring && g in w.held && g != x ensures w.held[g] != w.held[x] {
        assert g !in r;
      }
    } else if w.held[x] != Null {
      assert r != [x];
      var g := OtherMember(r, x);
      assert g in w.net.ring && g in w.held && w.held[g] == w.held[x];
    }
  }

  /**
   * Two live handles share a ring exactly when they share an address,
   * as long as that address is not null: the rings are the groups of
   * co-owners.
   */
  lemma Sharing<T>(w: World<T>, a: T, b: T)
    requires Inv(w) && a in w.net.ring && b in w.net.ring
    ensures a in w.held && b in w.held
    ensures b in w.net.ring[a] ==> w.held[a] == w.held[b]
    ensures w.held[a] == w.held[b] && w.held[a] != Null ==> b in w.net.ring[a]
  {
    if b in w.net.ring[a] {
      assert w.held[b] == w.held[a];
    }
  }

  /** A ring that is not just `[x]`, yet holds `x` once, holds another member. */
  lemma OtherMember<T>(r: seq<T>, x: T) returns (g: T)
    requires x in r && r != [x] && Distinct(r)
    ensures g in r && g != x
  {
    if r[0] != x {
      g := r[0];
    } else {
      assert |r| > 1;
      g := r[1];
    }
  }

  /**
   * The guard of the converting assignment, `next != other.next && prev !=
   * other.prev`, is false exactly when the two handles are the same one: it
   * is the self-assignment test of the copy assignment in disguise.
   */
  lemma ConvertGuardIff<T>(w: World<T>, x: T, y: T)
    requires Inv(w) && x in w.net.ring && y in w.net.ring
    ensures x in w.net.next && y in w.net.next && x in w.net.prev && y in w.net.prev
    ensures (w.net.next[x] != w.net.next[y] && w.net.prev[x] != w.net.prev[y]) <==> x != y
  {
    Links(w.net, x);
    Links(w.net, y);
  }

  // ---------------------------------------------------------------------
  // The steps every operation is made of.
  // ---------------------------------------------------------------------

  /** `super_linked_ptr()` with `data(p)`: a new handle alone on its ring, holding `p`. */
  ghost function Fresh<T>(w: World<T>, x: T, p: Address): World<T>
    requires x !in w.net.ring
  {
    World(Join(w.net, x), w.held[x := p], w.freed)
  }

  /**
   * `data = other.data; insert(other)`: a handle takes the address of `y`
   * and is linked in right after `y`, on `y`'s ring.
   */
  ghost function Adjoin<T>(w: World<T>, x: T, y: T): World<T>
    requires Wired(w, y)
  {
    World(Splice(w.net, x, y), w.held[x := w.held[y]], w.freed)
  }

  /** `other.remove(); other.data = nullptr`: a handle leaves its ring, holding null. */
  ghost function Disown<T>(w: World<T>, y: T): World<T>
    requires Wired(w, y)
  {
    World(Detach(w.net, y), w.held[y := Null], w.freed)
  }

  /** `data = p`. */
  ghost function Assign<T>(w: World<T>, x: T, p: Address): World<T> {
    World(w.net, w.held[x := p], w.freed)
  }

  /** `delete_if_unique`: the last owner deletes its pointee and holds null. */
  ghost function DeleteIfUnique<T>(w: World<T>, x: T): (w': World<T>)
    requires Wired(w, x)
    ensures w'.net == w.net
  {
    if Unique(w, x) then World(w.net, w.held[x := Null], w.freed + [w.held[x]]) else w
  }

  /** A handle ceases to exist. */
  ghost function Drop<T>(w: World<T>, x: T): World<T> {
    World(Leave(w.net, x), w.held - {x}, w.freed)
  }

  /** Two handles trade places on their rings, and trade addresses. */
  ghost function Trade<T>(w: World<T>, a: T, b: T): World<T>
    requires Wired(w, a) && Wired(w, b)
  {
    World(Exchange(w.net, a, b), w.held[a := w.held[b]][b := w.held[a]], w.freed)
  }

  // ---------------------------------------------------------------------
  // Each step keeps the invariant.
  // ---------------------------------------------------------------------

  lemma FreshInv<T>(w: World<T>, x: T, p: Address)
    requires Inv(w) && x !in w.net.ring && p !in Owned(w)
    ensures Inv(Fresh(w, x, p))
    ensures Owned(Fresh(w, x, p)) == Owned(w) + NonNull(p)
  {
    var w' := Fresh(w, x, p);
    JoinOk(w.net, x);
    forall h, y {:trigger y in w'.net.ring[h]} | h in w'.net.ring && y in w'.net.ring[h]
      ensures y in w'.held && w'.held[y] == w'.held[h]
    {
      if h != x {
        assert y in w.net.ring[h] && y != x;
      }
    }
    forall g, h | g in w'.net.ring && h in w'.net.ring && w'.held[g] == w'.held[h] && w'.held[g] != Null
      ensures h in w'.net.ring[g]
    {
      if g != x && h != x {
        assert h in w.net.ring[g];
      }
    }
    assert w'.net.ring.Keys == w.net.ring.Keys + {x};
    OwnedByInsert(w.net.ring.Keys, w.held, x, p);
  }

  /** A handle alone on its ring is the last owner exactly when it holds non-null. */
  lemma SoloReleased<T>(w: World<T>, x: T)
    requires Exclusive(w) && x in w.net.ring && x in w.held && w.net.ring[x] == [x]
    ensures Released(w.net.ring.Keys, w.held, x) == NonNull(w.held[x])
  {
    if w.held[x] != Null {
      forall g | g in w.net.ring && g in w.held && g != x ensures w.held[g] != w.held[x] {
        assert g !in w.net.ring[x];
      }
    }
  }

  lemma AdjoinInv<T>(w: World<T>, x: T, y: T)
    requires Inv(w) && x in w.net.ring && y in w.net.ring && w.net.ring[x] == [x] && x != y
    ensures Wired(w, y)
    ensures Inv(Adjoin(w, x, y))
    ensures Adjoin(w, x, y).net.ring[x] == Adjoin(w, x, y).net.ring[y]
    ensures Adjoin(w, x, y).held[x] == w.held[y]
  {
    Member(w, y);
    SpliceOk(w.net, x, y);
    AdjoinAgree(w, x, y);
    forall g, h | g in w.net.ring && h in w.net.ring &&
        Adjoin(w, x, y).held[g] == Adjoin(w, x, y).held[h] && Adjoin(w, x, y).held[g] != Null
      ensures h in Adjoin(w, x, y).net.ring[g]
    {
      AdjoinExclusiveAt(w, x, y, g, h);
    }
  }

  /**
   * A handle alone on its ring and holding null joins the ring of `y`:
   * it takes `y`'s address, the ring gains exactly it, and nothing else
   * changes.
   */
  lemma AdjoinSpec<T>(v: World<T>, x: T, y: T)
    requires Inv(v) && x in v.net.ring && y in v.net.ring && x != y
    requires v.net.ring[x] == [x] && v.held[x] == Null
    ensures Wired(v, y)
    ensures var w' := Adjoin(v, x, y);
      && Inv(w')
      && w'.net.ring.Keys == v.net.ring.Keys
      && w'.held == v.held[x := v.held[y]]
      && w'.net.ring[x] == w'.net.ring[y]
      && |w'.net.ring[y]| == |v.net.ring[y]| + 1
      && w'.net.next[y] == x && w'.net.prev[x] == y
      && (forall z :: z in w'.net.ring[y] <==> z == x || z in v.net.ring[y])
      && (forall h :: h in v.net.ring && h != x && h !in v.net.ring[y] ==> w'.net.ring[h] == v.net.ring[h])
      && Owned(w') == Owned(v) && w'.freed == v.freed
  {
    AdjoinInv(v, x, y);
    OwnedByCopy(v.net.ring.Keys, v.held, x, y);
    InsertSpec(v.net, x, y);
    SplicedShape(v.net.ring, x, y);
  }

  lemma AdjoinAgree<T>(w: World<T>, x: T, y: T)
    requires Partitioned(w.net.ring) && Holding(w) && Agree(w) && Wired(w, y)
    requires x in w.net.ring && w.net.ring[x] == [x] && x != y
    ensures Agree(Adjoin(w, x, y))
  {
    var w' := Adjoin(w, x, y);
    var m, r := w.net.ring, w.net.ring[y];
    SplicedShape(m, x, y);
    forall h, z {:trigger z in w'.net.ring[h]} | h in w'.net.ring && z in w'.net.ring[h]
      ensures z in w'.held && w'.held[z] == w'.held[h]
    {
      if h == x || h in r {
        assert z == x || z in r;
        assert h != x ==> w.held[h] == w.held[y];
        assert z != x ==> w.held[z] == w.held[y];
      } else {
        assert z in m[h];
        assert z != x;
      }
    }
  }

  lemma AdjoinExclusiveAt<T>(w: World<T>, x: T, y: T, g: T, h: T)
    requires Partitioned(w.net.ring) && Holding(w) && Exclusive(w) && Wired(w, y)
    requires x in w.net.ring && w.net.ring[x] == [x] && x != y
    requires g in w.net.ring && h in w.net.ring
    requires Adjoin(w, x, y).held[g] == Adjoin(w, x, y).held[h] != Null
    ensures h in Adjoin(w, x, y).net.ring[g]
  {
    var m, r, m' := w.net.ring, w.net.ring[y], Adjoin(w, x, y).net.ring;
    var held' := Adjoin(w, x, y).held;
    SplicedShape(m, x, y);
    var g0 := if g == x then y else g;
    var h0 := if h == x then y else h;
    assert w.held[g0] == held'[g] && w.held[h0] == held'[h];
    assert h0 in m[g0];
    if g == x || g in r {
      assert m[g0] == r;
      assert h == x || h in r;
    } else {
      assert m'[g] == m[g];
      assert h != x;
    }
  }

  lemma DisownInv<T>(w: World<T>, y: T)
    requires Inv(w) && y in w.net.ring
    ensures Wired(w, y)
    ensures Inv(Disown(w, y))
    ensures Disown(w, y).net.ring[y] == [y]
    ensures Owned(Disown(w, y)) == Owned(w) - Released(w.net.ring.Keys, w.held, y)
  {
    Member(w, y);
    var w' := Disown(w, y);
    DetachOk(w.net, y);
    assert Holding(w');
    DisownAgree(w, y);
    DisownExclusive(w, y);
    OwnedByClear(w.net.ring.Keys, w.held, y);
    assert w'.net.ring.Keys == w.net.ring.Keys;
  }

  /**
   * A handle that shares its ring leaves it: its ring-mates keep the ring,
   * less it, and since they still hold its address nothing is released.
   */
  lemma DisownShared<T>(w: World<T>, y: T, x: T)
    requires Inv(w) && y in w.net.ring && x in w.net.ring[y] && x != y
    ensures Wired(w, y) && x in w.net.ring
    ensures var w' := Disown(w, y);
      && Inv(w')
      && w'.net.ring.Keys == w.net.ring.Keys
      && w'.net.ring[y] == [y] && w'.held == w.held[y := Null]
      && (forall z :: z in w'.net.ring[x] <==> z in w.net.ring[y] && z != y)
      && w'.freed == w.freed
  {
    Member(w, y);
    DisownInv(w, y);
    DetachedMate(w.net.ring, y, x);
  }

  /** Nothing is released when a handle that shares its ring leaves it. */
  lemma DisownSharedOwned<T>(w: World<T>, y: T, x: T)
    requires Inv(w) && y in w.net.ring && x in w.net.ring[y] && x != y
    ensures Wired(w, y)
    ensures Owned(Disown(w, y)) == Owned(w)
  {
    Member(w, y);
    assert x in w.net.ring && w.held[x] == w.held[y];
    OwnedByShared(w.net.ring.Keys, w.held, y, x);
    assert Disown(w, y).net.ring.Keys == w.net.ring.Keys;
  }


  lemma DisownAgree<T>(w: World<T>, y: T)
    requires Partitioned(w.net.ring) && Holding(w) && Agree(w) && Wired(w, y)
    ensures Agree(Disown(w, y))
  {
    var w' := Disown(w, y);
    var m := w.net.ring;
    DetachedShape(m, y);
    forall h, z {:trigger z in w'.net.ring[h]} | h in w'.net.ring && z in w'.net.ring[h]
      ensures z in w'.held && w'.held[z] == w'.held[h]
    {
      if h != y && h !in m[y] {
        assert z in m[h];
        assert z != y;
      }
    }
  }

  lemma DisownExclusive<T>(w: World<T>, y: T)
    requires Partitioned(w.net.ring) && Holding(w) && Exclusive(w) && Wired(w, y)
    ensures Exclusive(Disown(w, y))
  {
    var w' := Disown(w, y);
    var m := w.net.ring;
    DetachedShape(m, y);
    forall g, h | g in w'.net.ring && h in w'.net.ring && w'.held[g] == w'.held[h] && w'.held[g] != Null
      ensures h in w'.net.ring[g]
    {
      assert h in m[g];
      if g in m[y] {
        assert m[g] == m[y];
      }
    }
  }

  lemma AssignInv<T>(w: World<T>, x: T, p: Address)
    requires Inv(w) && x in w.net.ring && w.net.ring[x] == [x] && w.held[x] == Null && p !in Owned(w)
    ensures Inv(Assign(w, x, p))
    ensures Owned(Assign(w, x, p)) == Owned(w) + NonNull(p)
  {
    Member(w, x);
    assert Inv(Assign(w, x, p)) by {
      AssignAgree(w, x, p);
      AssignExclusive(w, x, p);
    }
    assert Owned(Assign(w, x, p)) == Owned(w) + NonNull(p) by {
      SoloReleased(w, x);
      OwnedByWrite(w.net.ring.Keys, w.held, x, p);
    }
  }

  lemma AssignAgree<T>(w: World<T>, x: T, p: Address)
    requires Partitioned(w.net.ring) && Holding(w) && Agree(w) && x in w.net.ring && w.net.ring[x] == [x]
    ensures Agree(Assign(w, x, p))
  {
    var w' := Assign(w, x, p);
    forall h, z {:trigger z in w'.net.ring[h]} | h in w'.net.ring && z in w'.net.ring[h]
      ensures z in w'.held && w'.held[z] == w'.held[h]
    {
      if z == x || h == x {
        assert w.net.ring[z] == w.net.ring[h];
      }
    }
  }

  lemma AssignExclusive<T>(w: World<T>, x: T, p: Address)
    requires Holding(w) && Exclusive(w) && Wired(w, x) && p !in Owned(w)
    ensures Exclusive(Assign(w, x, p))
  {
    var w' := Assign(w, x, p);
    forall g, h | g in w'.net.ring && h in w'.net.ring && w'.held[g] == w'.held[h] && w'.held[g] != Null
      ensures h in w'.net.ring[g]
    {
      if g != x && h != x {
        assert h in w.net.ring[g];
      }
    }
  }

  lemma DeleteIfUniqueInv<T>(w: World<T>, x: T)
    requires Inv(w) && x in w.net.ring
    ensures Wired(w, x)
    ensures Inv(DeleteIfUnique(w, x))
    ensures Owned(DeleteIfUnique(w, x)) == Owned(w) - Released(w.net.ring.Keys, w.held, x)
    ensures DeleteIfUnique(w, x).held == if LastOwner(w.net.ring.Keys, w.held, x) then w.held[x := Null] else w.held
    ensures DeleteIfUnique(w, x).freed ==
      if LastOwner(w.net.ring.Keys, w.held, x) then w.freed + [w.held[x]] else w.freed
  {
    Member(w, x);
    UniqueIffLastOwner(w, x);
    if Unique(w, x) {
      DeleteUniqueInv(w, x);
    } else {
      DeleteSharedKeeps(w, x);
    }
  }

  /** After `delete_if_unique`, the handle is never the last owner of anything. */
  lemma DeletedNotLast<T>(w: World<T>, x: T)
    requires Inv(w) && x in w.net.ring
    ensures Wired(w, x) && x in DeleteIfUnique(w, x).held
    ensures Released(DeleteIfUnique(w, x).net.ring.Keys, DeleteIfUnique(w, x).held, x) == {}
  {
    Member(w, x);
    UniqueIffLastOwner(w, x);
  }

  /** A handle that is not the last owner deletes nothing. */
  lemma DeleteSharedKeeps<T>(w: World<T>, x: T)
    requires Wired(w, x) && !Unique(w, x) && !LastOwner(w.net.ring.Keys, w.held, x)
    ensures DeleteIfUnique(w, x) == w
    ensures Released(w.net.ring.Keys, w.held, x) == {}
  {
  }

  /** Nulling the address of the last owner keeps the invariant and releases the address. */
  lemma DeleteUniqueInv<T>(w: World<T>, x: T)
    requires Inv(w) && Wired(w, x) && Unique(w, x) && LastOwner(w.net.ring.Keys, w.held, x)
    ensures Inv(DeleteIfUnique(w, x))
    ensures Released(w.net.ring.Keys, w.held, x) == {w.held[x]}
    ensures Owned(DeleteIfUnique(w, x)) == Owned(w) - {w.held[x]}
    ensures DeleteIfUnique(w, x).held == w.held[x := Null]
    ensures DeleteIfUnique(w, x).freed == w.freed + [w.held[x]]
  {
    var w' := Assign(w, x, Null);
    assert DeleteIfUnique(w, x) == World(w'.net, w'.held, w.freed + [w.held[x]]);
    SoloIff(w.net, x);
    AssignAgree(w, x, Null);
    AssignExclusive(w, x, Null);
    OwnedByClear(w.net.ring.Keys, w.held, x);
  }

  lemma DropInv<T>(w: World<T>, x: T)
    requires Inv(w) && x in w.net.ring && w.net.ring[x] == [x] && w.held[x] == Null
    ensures Inv(Drop(w, x))
    ensures Drop(w, x).net.ring.Keys == w.net.ring.Keys - {x}
    ensures Owned(Drop(w, x)) == Owned(w)
  {
    LeaveOk(w.net, x);
    DropKeeps(w, x);
    OwnedByRemove(w.net.ring.Keys, w.held, x);
    OwnedByFrame(w.net.ring.Keys - {x}, w.held, w.held - {x});
  }

  lemma DropKeeps<T>(w: World<T>, x: T)
    requires Partitioned(w.net.ring) && Holding(w) && Agree(w) && Exclusive(w)
    requires x in w.net.ring && w.net.ring[x] == [x]
    ensures Agree(Drop(w, x)) && Exclusive(Drop(w, x))
  {
    var w' := Drop(w, x);
    var m := w.net.ring;
    forall h, z {:trigger z in w'.net.ring[h]} | h in w'.net.ring && z in w'.net.ring[h]
      ensures z in w'.held && w'.held[z] == w'.held[h]
    {
      assert z in m[h];
      assert z != x;
    }
    forall g, h | g in w'.net.ring && h in w'.net.ring && w'.held[g] == w'.held[h] && w'.held[g] != Null
      ensures h in w'.net.ring[g]
    {
      assert h in m[g];
    }
  }

  lemma TradeInv<T>(w: World<T>, a: T, b: T)
    requires Inv(w) && a in w.net.ring && b in w.net.ring
    ensures Wired(w, a) && Wired(w, b)
    ensures Inv(Trade(w, a, b))
    ensures Owned(Trade(w, a, b)) == Owned(w)
  {
    Member(w, a);
    Member(w, b);
    ExchangeOk(w.net, a, b);
    TradeHeld(w, a, b);
    TradeAgree(w, a, b);
    TradeExclusive(w, a, b);
    TradeOwned(w, a, b);
  }

  /**
   * Two live handles trade addresses and places: each takes the other's
   * address and the other's ring, with the two exchanged wherever they
   * occur; when both were alone, no link changes.
   */
  lemma TradeSpec<T>(w: World<T>, a: T, b: T)
    requires Inv(w) && a in w.net.ring && b in w.net.ring
    ensures Wired(w, a) && Wired(w, b)
    ensures var w' := Trade(w, a, b);
      && Inv(w')
      && w'.net.ring.Keys == w.net.ring.Keys
      && w'.held[a] == w.held[b] && w'.held[b] == w.held[a]
      && (forall h :: h in w.net.ring && h != a && h != b ==> w'.held[h] == w.held[h])
      && Owned(w') == Owned(w) && w'.freed == w.freed
      && |w'.net.ring[a]| == |w.net.ring[b]| && |w'.net.ring[b]| == |w.net.ring[a]|
      && w'.net.ring[a] == TauSeq(w.net.ring[b], a, b)
      && w'.net.ring[b] == TauSeq(w.net.ring[a], a, b)
      && (w.net.ring[a] == [a] && w.net.ring[b] == [b] ==>
            forall z :: z in w.net.ring ==> w'.net.next[z] == w.net.next[z] && w'.net.prev[z] == w.net.prev[z])
  {
    TradeInv(w, a, b);
    if w.net.ring[a] == [a] && w.net.ring[b] == [b] {
      ExchangeSolo(w.net, a, b);
    }
  }

  /** `a` trading with `b` is `b` trading with `a`. */
  lemma TradeSymmetric<T>(w: World<T>, a: T, b: T)
    requires Wired(w, a) && Wired(w, b) && a != b
    ensures Trade(w, a, b) == Trade(w, b, a)
  {
    ExchangeSymmetric(w.net, a, b);
    TradedSymmetric(w.held, a, b);
  }

  lemma TradedSymmetric<T>(m: map<T, Address>, a: T, b: T)
    requires a in m && b in m && a != b
    ensures m[a := m[b]][b := m[a]] == m[b := m[a]][a := m[b]]
  {
  }

  /** After the trade, each handle holds what its image under the exchange held. */
  lemma TradeHeld<T>(w: World<T>, a: T, b: T)
    requires Holding(w) && Wired(w, a) && Wired(w, b)
    ensures forall z :: z in w.net.ring ==>
      Tau(z, a, b) in w.net.ring && z in Trade(w, a, b).held && Trade(w, a, b).held[z] == w.held[Tau(z, a, b)]
  {
    var held' := w.held[a := w.held[b]][b := w.held[a]];
    assert Trade(w, a, b).held == held';
    forall z | z in w.net.ring
      ensures Tau(z, a, b) in w.net.ring && z in held' && held'[z] == w.held[Tau(z, a, b)]
    {
      assert z in w.held;
    }
  }

  /** After two handles trade places and addresses, every ring still holds one address. */
  lemma TradeAgree<T>(w: World<T>, a: T, b: T)
    requires Partitioned(w.net.ring) && Holding(w) && Agree(w) && Wired(w, a) && Wired(w, b)
    ensures Agree(Trade(w, a, b))
  {
    var w' := Trade(w, a, b);
    forall h, z {:trigger z in w'.net.ring[h]} | h in w'.net.ring && z in w'.net.ring[h]
      ensures z in w'.held && w'.held[z] == w'.held[h]
    {
      TradeAgreeAt(w, a, b, h, z);
    }
  }

  lemma TradeAgreeAt<T>(w: World<T>, a: T, b: T, h: T, z: T)
    requires Partitioned(w.net.ring) && Holding(w) && Agree(w) && Wired(w, a) && Wired(w, b)
    requires h in w.net.ring && z in Trade(w, a, b).net.ring[h]
    ensures z in Trade(w, a, b).held && Trade(w, a, b).held[z] == Trade(w, a, b).held[h]
  {
    var h0 := Tau(h, a, b);
    var r := w.net.ring[h0];
    assert Trade(w, a, b).net.ring[h] == TauSeq(r, a, b);
    var i :| 0 <= i < |r| && TauSeq(r, a, b)[i] == z;
    var z0 := r[i];
    assert Tau(z, a, b) == z0 && z0 in r;
    assert w.held[z0] == w.held[h0];
    TradeHeld(w, a, b);
    assert z0 in w.net.ring;
  }

  /**
   * After two handles trade places and addresses, handles sharing a
   * non-null address still share a ring.
   */
  lemma TradeExclusive<T>(w: World<T>, a: T, b: T)
    requires Holding(w) && Exclusive(w) && Wired(w, a) && Wired(w, b)
    ensures Exclusive(Trade(w, a, b))
  {
    var w' := Trade(w, a, b);
    forall g, h | g in w'.net.ring && h in w'.net.ring && w'.held[g] == w'.held[h] && w'.held[g] != Null
      ensures h in w'.net.ring[g]
    {
      assert w'.held[g] == w.held[Tau(g, a, b)];
      assert w'.held[h] == w.held[Tau(h, a, b)];
      TradeExclusiveAt(w, a, b, g, h);
    }
  }

  lemma TradeExclusiveAt<T>(w: World<T>, a: T, b: T, g: T, h: T)
    requires Holding(w) && Exclusive(w) && Wired(w, a) && Wired(w, b)
    requires g in w.net.ring && h in w.net.ring
    requires w.held[Tau(g, a, b)] == w.held[Tau(h, a, b)] != Null
    ensures h in Trade(w, a, b).net.ring[g]
  {
    var g0, h0 := Tau(g, a, b), Tau(h, a, b);
    assert g0 in w.net.ring && h0 in w.net.ring;
    var r := w.net.ring[g0];
    assert h0 in r;
    var i := IndexOf(r, h0);
    assert Tau(h0, a, b) == h;
    assert TauSeq(r, a, b)[i] == h;
    assert Trade(w, a, b).net.ring[g] == TauSeq(r, a, b);
  }

  lemma TradeOwned<T>(w: World<T>, a: T, b: T)
    requires Holding(w) && Wired(w, a) && Wired(w, b)
    ensures Owned(Trade(w, a, b)) == Owned(w)
  {
    TradeHeld(w, a, b);
    OwnedByExchanged(w.net.ring.Keys, w.held, Trade(w, a, b).held, a, b);
  }

  /** Exchanging what two live handles hold changes no address held. */
  lemma OwnedByExchanged<T>(live: set<T>, held: map<T, Address>, held': map<T, Address>, a: T, b: T)
    requires a in live && b in live
    requires forall z :: z in live ==> z in held && z in held' && Tau(z, a, b) in held && held'[z] == held[Tau(z, a, b)]
    ensures OwnedBy(live, held') == OwnedBy(live, held)
  {
    forall p | p in OwnedBy(live, held) ensures p in OwnedBy(live, held') {
      var h :| h in live && h in held && held[h] != Null && held[h] == p;
      var g := Tau(h, a, b);
      assert Tau(g, a, b) == h && g in live;
    }
    forall p | p in OwnedBy(live, held') ensures p in OwnedBy(live, held) {
      var h :| h in live && h in held' && held'[h] != Null && held'[h] == p;
      var g := Tau(h, a, b);
      assert g in live;
    }
  }
}
