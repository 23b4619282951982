/**
 * The lifecycle operations of `linked_ptr`, each composed from the steps
 * of the ownership world in the order the source performs them, and what
 * each does to the rings, the addresses and the deletions.
 */
module Lifecycle {
  import opened RingSeq
  import opened Rings
  import opened Ownership

  // ---------------------------------------------------------------------
  // The operations.
  // ---------------------------------------------------------------------

  /**
   * `linked_ptr(const linked_ptr &other)` (and the converting copy
   * constructor): a new handle `x` holding `y`'s address, linked in right
   * after `y`.
   */
  ghost function CopyConstructed<T>(w: World<T>, x: T, y: T): World<T>
    requires Inv(w) && x !in w.net.ring && y in w.net.ring
  {
    Member(w, y);
    Adjoin(Fresh(w, x, Null), x, y)
  }

  /**
   * `linked_ptr(linked_ptr &&other)`: `x` is linked in after `y` holding its
   * address, then `y` leaves its ring and holds null.
   */
  ghost function MoveConstructed<T>(w: World<T>, x: T, y: T): World<T>
    requires Inv(w) && x !in w.net.ring && y in w.net.ring
  {
    CopyConstructedSpec(w, x, y);
    Member(CopyConstructed(w, x, y), y);
    Disown(CopyConstructed(w, x, y), y)
  }

  /**
   * The body of `~linked_ptr()`: `delete_if_unique()` then `remove()`.  The
   * handle is left alone on its ring; what its `data` then holds is dead
   * storage, recorded as null.
   */
  ghost function Destructed<T>(w: World<T>, x: T): World<T>
    requires Inv(w) && x in w.net.ring
  {
    DeleteIfUniqueInv(w, x);
    Member(DeleteIfUnique(w, x), x);
    Disown(DeleteIfUnique(w, x), x)
  }

  /** `~linked_ptr()`: the destructor body, after which the handle is gone. */
  ghost function Destroyed<T>(w: World<T>, x: T): World<T>
    requires Inv(w) && x in w.net.ring
  {
    Drop(Destructed(w, x), x)
  }

  /**
   * `operator=(const linked_ptr &other)`: unless `other` is `x` itself, the
   * destructor body runs on `x` and `x` is rebuilt as a copy of `y`.
   */
  ghost function CopyAssigned<T>(w: World<T>, x: T, y: T): World<T>
    requires Inv(w) && x in w.net.ring && y in w.net.ring
  {
    if x == y then w
    else
      DestructedSpec(w, x);
      Member(Destructed(w, x), y);
      Adjoin(Destructed(w, x), x, y)
  }

  /**
   * `operator=(linked_ptr &&other)`: the destructor body on `x`, a rebuild
   * of `x` as a copy of `y`, then `y` leaves its ring holding null.
   */
  ghost function MoveAssigned<T>(w: World<T>, x: T, y: T): World<T>
    requires Inv(w) && x in w.net.ring && y in w.net.ring && x != y
  {
    CopyAssignedSpec(w, x, y);
    Member(CopyAssigned(w, x, y), y);
    Disown(CopyAssigned(w, x, y), y)
  }

  /** The test of the converting assignment: `next != other.next && prev != other.prev`. */
  ghost predicate ConvertGuard<T>(w: World<T>, x: T, y: T)
    requires Wired(w, x) && Wired(w, y)
  {
    w.net.next[x] != w.net.next[y] && w.net.prev[x] != w.net.prev[y]
  }

  /**
   * The converting `operator=(linked_ptr<U> const &other)`, guarded as
   * written: when the guard holds, the destructor body runs on `x` and `x`
   * is rebuilt as a copy of `y`.
   */
  ghost function ConvertAssigned<T>(w: World<T>, x: T, y: T): World<T>
    requires Inv(w) && x in w.net.ring && y in w.net.ring
  {
    Member(w, x);
    Member(w, y);
    if ConvertGuard(w, x, y) then
      DestructedSpec(w, x);
      Member(Destructed(w, x), y);
      Adjoin(Destructed(w, x), x, y)
    else w
  }

  /** `reset(p)`: `delete_if_unique()`, `remove()`, then `data = p`. */
  ghost function ResetTo<T>(w: World<T>, x: T, p: Address): World<T>
    requires Inv(w) && x in w.net.ring
  {
    Assign(Destructed(w, x), x, p)
  }

  /**
   * `swap(other)`: nothing when the two addresses are equal; otherwise the
   * two handles trade addresses and trade places on their rings (all four
   * branches of the source end in this state).
   */
  ghost function Swapped<T>(w: World<T>, a: T, b: T): World<T>
    requires Inv(w) && a in w.net.ring && b in w.net.ring
  {
    Member(w, a);
    Member(w, b);
    if w.held[a] == w.held[b] then w else Trade(w, a, b)
  }

  // ---------------------------------------------------------------------
  // What each operation does.
  // ---------------------------------------------------------------------

  /**
   * Apart from `x`, every live handle keeps its address, and its ring keeps
   * the members it had, in the same order, less `x`.
   */
  ghost predicate OthersKept<T>(w: World<T>, w': World<T>, x: T) {
    forall h :: h in w.net.ring && h != x ==>
      && h in w.held && h in w'.held && w'.held[h] == w.held[h]
      && h in w'.net.ring
      && w'.net.ring[h] == Vacated(w.net.ring[h], x)
      && (forall z :: z in w'.net.ring[h] ==> z in w.net.ring[h] && z != x)
      && (forall z :: z in w.net.ring[h] && z != x ==> z in w'.net.ring[h])
  }

  /**
   * Away from `y`'s ring, every live handle but `x` keeps its ring, in the
   * same order, less `x`; a ring that held neither `x` nor `y` is
   * unchanged.
   */
  ghost predicate ElsewhereKept<T>(w: World<T>, w': World<T>, x: T, y: T)
    requires y in w.net.ring
  {
    forall h :: h in w.net.ring && h != x && h !in w.net.ring[y] ==>
      h in w'.net.ring && w'.net.ring[h] == Vacated(w.net.ring[h], x)
  }

  /**
   * The free log after `delete_if_unique` on `x`: one more entry, `x`'s
   * address, exactly when `x` was its last owner; otherwise as before.
   */
  ghost predicate Logged<T>(w: World<T>, w': World<T>, x: T)
    requires x in w.held
  {
    if LastOwner(w.net.ring.Keys, w.held, x) then w'.freed == w.freed + [w.held[x]] else w'.freed == w.freed
  }

  /**
   * Copy construction: the new handle holds `y`'s address and sits right
   * after `y` on `y`'s ring, which grows by exactly the new handle; no other
   * ring, no address and no deletion changes.
   */
  lemma CopyConstructedSpec<T>(w: World<T>, x: T, y: T)
    requires Inv(w) && x !in w.net.ring && y in w.net.ring
    ensures y in w.held
    ensures var w' := CopyConstructed(w, x, y);
      && Inv(w')
      && w'.net.ring.Keys == w.net.ring.Keys + {x}
      && w'.held[x] == w.held[y] && w'.held[y] == w.held[y]
      && w'.net.next[y] == x && w'.net.prev[x] == y
      && w'.net.ring[x] == w'.net.ring[y]
      && |w'.net.ring[y]| == |w.net.ring[y]| + 1
      && (forall z :: z in w'.net.ring[y] <==> z == x || z in w.net.ring[y])
      && (forall h :: h in w.net.ring ==> w'.held[h] == w.held[h])
      && (forall h :: h in w.net.ring && h !in w.net.ring[y] ==> w'.net.ring[h] == w.net.ring[h])
      && Owned(w') == Owned(w) && w'.freed == w.freed
  {
    Member(w, y);
    var v := Fresh(w, x, Null);
    FreshInv(w, x, Null);
    OwnedByJoinNull(w.net.ring.Keys, w.held, x);
    assert v.net.ring.Keys == w.net.ring.Keys + {x};
    assert v.held == w.held[x := Null];
    assert v.net.ring[x] == [x] && v.net.ring[y] == w.net.ring[y];
    AdjoinSpec(v, x, y);
    var w' := Adjoin(v, x, y);
    forall h | h in w.net.ring ensures w'.held[h] == w.held[h] {
      assert h != x;
    }
    forall h | h in w.net.ring && h !in w.net.ring[y] ensures w'.net.ring[h] == w.net.ring[h] {
      assert h != x && h !in v.net.ring[y] && v.net.ring[h] == w.net.ring[h];
    }
  }

  /**
   * Move construction: the new handle takes `y`'s address and `y`'s place
   * on its ring (the ring keeps its size); `y` is left alone on a ring of
   * its own, holding null; no address and no deletion changes.
   */
  lemma MoveConstructedSpec<T>(w: World<T>, x: T, y: T)
    requires Inv(w) && x !in w.net.ring && y in w.net.ring
    ensures y in w.held && y in w.net.ring[y]
    ensures var w' := MoveConstructed(w, x, y);
      && Inv(w')
      && w'.net.ring.Keys == w.net.ring.Keys + {x}
      && w'.held[x] == w.held[y] && w'.held[y] == Null
      && w'.net.ring[y] == [y]
      && w'.net.ring[x] == w.net.ring[y][IndexOf(w.net.ring[y], y) := x]
      && (forall h :: h in w.net.ring && h != y ==> w'.held[h] == w.held[h])
      && (forall h :: h in w.net.ring && h !in w.net.ring[y] ==> w'.net.ring[h] == w.net.ring[h])
      && Owned(w') == Owned(w) && w'.freed == w.freed
  {
    Member(w, y);
    CopyConstructedSpec(w, x, y);
    var v := CopyConstructed(w, x, y);
    DisownShared(v, y, x);
    DisownSharedOwned(v, y, x);
    var r := w.net.ring[y];
    var k := IndexOf(r, y);
    assert x !in r;
    InsertedThenWithout(r, k, x);
    assert v.net.ring[x] == Inserted(r, k, x);
    assert IndexOf(v.net.ring[y], y) == k;
    DetachedShape(v.net.ring, y);
  }

  /**
   * The destructor body: `x` is left alone on its ring holding null; its
   * address is deleted exactly when `x` was its last owner; every other
   * handle keeps its address and its ring, less `x`.
   */
  lemma DestructedSpec<T>(w: World<T>, x: T)
    requires Inv(w) && x in w.net.ring
    ensures x in w.held
    ensures var w' := Destructed(w, x);
      && Inv(w')
      && w'.net.ring.Keys == w.net.ring.Keys
      && w'.net.ring[x] == [x] && w'.held[x] == Null
      && Logged(w, w', x)
      && Owned(w') == Owned(w) - Released(w.net.ring.Keys, w.held, x)
      && OthersKept(w, w', x)
  {
    DestructedSolo(w, x);
    DestructedOwned(w, x);
    DestructedOthers(w, x);
  }

  /** The shape of the world after the destructor body: `x` is alone on its ring and holds null. */
  lemma DestructedSolo<T>(w: World<T>, x: T)
    requires Inv(w) && x in w.net.ring
    ensures var w' := Destructed(w, x);
      && Inv(w') && w'.net.ring.Keys == w.net.ring.Keys && w'.net.ring[x] == [x] && w'.held[x] == Null
  {
    DeleteIfUniqueInv(w, x);
    var v := DeleteIfUnique(w, x);
    Member(v, x);
    DisownInv(v, x);
  }

  /** The destructor body deletes `x`'s address exactly when `x` was its last owner. */
  lemma DestructedOwned<T>(w: World<T>, x: T)
    requires Inv(w) && x in w.net.ring
    ensures x in w.held
    ensures var w' := Destructed(w, x);
      && Logged(w, w', x)
      && Owned(w') == Owned(w) - Released(w.net.ring.Keys, w.held, x)
  {
    Member(w, x);
    DeleteIfUniqueInv(w, x);
    DeletedNotLast(w, x);
    var v := DeleteIfUnique(w, x);
    Member(v, x);
    DisownInv(v, x);
  }

  /** The destructor body leaves every other handle its address and its ring, less `x`. */
  lemma DestructedOthers<T>(w: World<T>, x: T)
    requires Inv(w) && x in w.net.ring
    ensures OthersKept(w, Destructed(w, x), x)
  {
    Member(w, x);
    DeleteIfUniqueInv(w, x);
    var v := DeleteIfUnique(w, x);
    Member(v, x);
    var w' := Disown(v, x);
    assert w'.net.ring == Detached(w.net.ring, x);
    assert forall h :: h in w.net.ring && h != x ==> h in w.held && h in w'.held && w'.held[h] == w.held[h];
    DetachedKept(w, w', x);
  }

  /** Detaching `x` from its ring, with every other address kept, keeps the others. */
  lemma DetachedKept<T>(w: World<T>, w': World<T>, x: T)
    requires Partitioned(w.net.ring) && x in w.net.ring && x in w.net.ring[x]
    requires w'.net.ring == Detached(w.net.ring, x)
    requires forall h :: h in w.net.ring && h != x ==> h in w.held && h in w'.held && w'.held[h] == w.held[h]
    ensures OthersKept(w, w', x)
  {
    DetachedOthers(w.net.ring, x);
    forall h | h in w.net.ring && h != x
      ensures w'.net.ring[h] == Vacated(w.net.ring[h], x)
    {
      DetachedVacates(w.net.ring, x, h);
    }
  }


  /**
   * The destructor: `x` is gone; its address is deleted exactly when `x` was
   * its last owner; every other handle keeps its address and its ring,
   * less `x`.
   */
  lemma DestroyedSpec<T>(w: World<T>, x: T)
    requires Inv(w) && x in w.net.ring
    ensures x in w.held
    ensures var w' := Destroyed(w, x);
      && Inv(w')
      && w'.net.ring.Keys == w.net.ring.Keys - {x}
      && Logged(w, w', x)
      && Owned(w') == Owned(w) - Released(w.net.ring.Keys, w.held, x)
      && OthersKept(w, w', x)
  {
    DestructedSpec(w, x);
    var v := Destructed(w, x);
    DropInv(v, x);
    DropOthersKept(w, v, x);
  }

  /** Dropping `x` touches nothing `OthersKept` speaks about. */
  lemma DropOthersKept<T>(w: World<T>, v: World<T>, x: T)
    requires OthersKept(w, v, x) && x in v.net.ring && v.net.ring[x] == [x]
    ensures OthersKept(w, Drop(v, x), x)
  {
  }

  /**
   * `reset(p)`: `x` ends alone on its ring holding `p`; the old address is
   * deleted exactly when `x` was its last owner; the rest of its old ring
   * stays linked together, each member keeping its address.
   */
  lemma ResetSpec<T>(w: World<T>, x: T, p: Address)
    requires Inv(w) && x in w.net.ring && p !in Owned(w)
    ensures x in w.held
    ensures var w' := ResetTo(w, x, p);
      && Inv(w')
      && w'.net.ring.Keys == w.net.ring.Keys
      && w'.net.ring[x] == [x] && w'.held[x] == p
      && Logged(w, w', x)
      && Owned(w') == Owned(w) - Released(w.net.ring.Keys, w.held, x) + NonNull(p)
      && OthersKept(w, w', x)
  {
    DestructedSpec(w, x);
    var v := Destructed(w, x);
    AssignInv(v, x, p);
  }

  /**
   * Copy assignment: from `x` itself, nothing changes.  From another
   * handle, the destructor body runs on `x`, and `x` then holds `y`'s
   * address on `y`'s ring, which has exactly its old members and `x`.
   */
  lemma CopyAssignedSpec<T>(w: World<T>, x: T, y: T)
    requires Inv(w) && x in w.net.ring && y in w.net.ring
    ensures x in w.held && y in w.held
    ensures x == y ==> CopyAssigned(w, x, y) == w
    ensures x != y ==> var w' := CopyAssigned(w, x, y);
      && Inv(w')
      && w'.net.ring.Keys == w.net.ring.Keys
      && w'.held[x] == w.held[y]
      && w'.net.ring[x] == w'.net.ring[y]
      && (forall z :: z in w'.net.ring[y] <==> z == x || z in w.net.ring[y])
      && (forall h :: h in w.net.ring && h != x ==> w'.held[h] == w.held[h])
      && w'.net.next[y] == x && w'.net.prev[x] == y
      && y in Vacated(w.net.ring[y], x)
      && w'.net.ring[y] == Inserted(Vacated(w.net.ring[y], x), IndexOf(Vacated(w.net.ring[y], x), y), x)
      && ElsewhereKept(w, w', x, y)
      && Logged(w, w', x)
      && Owned(w') == Owned(w) - Released(w.net.ring.Keys, w.held, x)
  {
    Member(w, x);
    Member(w, y);
    if x != y {
      DestructedSpec(w, x);
      var v := Destructed(w, x);
      AdjoinSpec(v, x, y);
      CopyAssignedPlace(w, x, y);
      CopyAssignedElsewhere(w, x, y);
    }
  }

  /**
   * After copy assignment from another handle, `y`'s ring is its old ring,
   * less `x` if `x` was on it, with `x` spliced in right after `y`.
   */
  lemma CopyAssignedPlace<T>(w: World<T>, x: T, y: T)
    requires Inv(w) && x in w.net.ring && y in w.net.ring && x != y
    ensures y in Vacated(w.net.ring[y], x) && x !in Vacated(w.net.ring[y], x)
    ensures CopyAssigned(w, x, y).net.ring[y] ==
      Inserted(Vacated(w.net.ring[y], x), IndexOf(Vacated(w.net.ring[y], x), y), x)
  {
    Member(w, x);
    DestructedSolo(w, x);
    var v := Destructed(w, x);
    assert v.net.ring == Detached(w.net.ring, x);
    DetachedVacates(w.net.ring, x, y);
    Member(v, y);
  }

  /** Copy assignment leaves every ring away from `y`'s as it was, less `x`. */
  lemma CopyAssignedElsewhere<T>(w: World<T>, x: T, y: T)
    requires Inv(w) && x in w.net.ring && y in w.net.ring && x != y
    ensures ElsewhereKept(w, CopyAssigned(w, x, y), x, y)
  {
    Member(w, x);
    DestructedSolo(w, x);
    var m := w.net.ring;
    var v := Destructed(w, x);
    assert v.net.ring == Detached(m, x);
    DetachedVacates(m, x, y);
    SplicedShape(v.net.ring, x, y);
    forall h | h in m && h != x && h !in m[y]
      ensures h in CopyAssigned(w, x, y).net.ring && CopyAssigned(w, x, y).net.ring[h] == Vacated(m[h], x)
    {
      DetachedVacates(m, x, h);
      assert h !in v.net.ring[y];
    }
  }

  /**
   * Move assignment from another handle: `x` holds `y`'s address on `y`'s
   * old ring, in place of `y`; `y` is left alone holding null; `x`'s old
   * address is deleted exactly when `x` was its last owner.
   */
  lemma MoveAssignedSpec<T>(w: World<T>, x: T, y: T)
    requires Inv(w) && x in w.net.ring && y in w.net.ring && x != y
    ensures x in w.held && y in w.held
    ensures var w' := MoveAssigned(w, x, y);
      && Inv(w')
      && w'.net.ring.Keys == w.net.ring.Keys
      && w'.held[x] == w.held[y] && w'.held[y] == Null
      && w'.net.ring[y] == [y]
      && (forall z :: z in w'.net.ring[x] <==> z == x || (z in w.net.ring[y] && z != y))
      && (forall h :: h in w.net.ring && h != x && h != y ==> w'.held[h] == w.held[h])
      && y in Vacated(w.net.ring[y], x)
      && w'.net.ring[x] == Vacated(w.net.ring[y], x)[IndexOf(Vacated(w.net.ring[y], x), y) := x]
      && ElsewhereKept(w, w', x, y)
      && Logged(w, w', x)
      && Owned(w') == Owned(w) - Released(w.net.ring.Keys, w.held, x)
  {
    CopyAssignedSpec(w, x, y);
    var v := CopyAssigned(w, x, y);
    DisownShared(v, y, x);
    DisownSharedOwned(v, y, x);
    MoveAssignedPlace(w, x, y);
  }

  /**
   * After move assignment from another handle, `x` sits in `y`'s old place
   * on `y`'s old ring (less `x`, if `x` was on it), and every ring away from
   * `y`'s is as it was, less `x`.
   */
  lemma MoveAssignedPlace<T>(w: World<T>, x: T, y: T)
    requires Inv(w) && x in w.net.ring && y in w.net.ring && x != y
    ensures y in Vacated(w.net.ring[y], x)
    ensures MoveAssigned(w, x, y).net.ring[x] ==
      Vacated(w.net.ring[y], x)[IndexOf(Vacated(w.net.ring[y], x), y) := x]
    ensures ElsewhereKept(w, MoveAssigned(w, x, y), x, y)
  {
    CopyAssignedSpec(w, x, y);
    var m := w.net.ring;
    var v := CopyAssigned(w, x, y);
    var r := Vacated(m[y], x);
    var k := IndexOf(r, y);
    DetachedVacates(m, x, y);
    InsertedThenWithout(r, k, x);
    Member(v, y);
    DetachedShape(v.net.ring, y);
    assert v.net.ring[x] == v.net.ring[y] == Inserted(r, k, x);
    assert IndexOf(v.net.ring[y], y) == k;
    forall h | h in m && h != x && h !in m[y]
      ensures h in MoveAssigned(w, x, y).net.ring && MoveAssigned(w, x, y).net.ring[h] == Vacated(m[h], x)
    {
      assert h !in v.net.ring[y];
    }
  }

  /**
   * The guard of the converting assignment, `next != other.next && prev !=
   * other.prev`, fails exactly when the two handles are one: on well-formed
   * rings it is an exact self-assignment test, and the converting
   * assignment does what the copy assignment does.
   */
  lemma ConvertAssignedIsCopy<T>(w: World<T>, x: T, y: T)
    requires Inv(w) && x in w.net.ring && y in w.net.ring
    ensures Wired(w, x) && Wired(w, y)
    ensures ConvertGuard(w, x, y) <==> x != y
    ensures ConvertAssigned(w, x, y) == CopyAssigned(w, x, y)
  {
    Member(w, x);
    Member(w, y);
    ConvertGuardIff(w, x, y);
  }

  /**
   * `swap`: the two handles end up holding each other's address, each in
   * the other's former place, so every ring keeps its size and all rings
   * still hold exactly the handles sharing one address; a ring holding
   * neither handle is unchanged; when both handles are alone on their
   * rings, no link changes; when the addresses are already equal, nothing
   * changes.
   */
  lemma SwappedSpec<T>(w: World<T>, a: T, b: T)
    requires Inv(w) && a in w.net.ring && b in w.net.ring
    ensures a in w.held && b in w.held
    ensures w.held[a] == w.held[b] ==> Swapped(w, a, b) == w
    ensures var w' := Swapped(w, a, b);
      && Inv(w')
      && w'.net.ring.Keys == w.net.ring.Keys
      && w'.held[a] == w.held[b] && w'.held[b] == w.held[a]
      && (forall h :: h in w.net.ring && h != a && h != b ==> w'.held[h] == w.held[h])
      && Owned(w') == Owned(w) && w'.freed == w.freed
    ensures w.held[a] != w.held[b] ==> var w' := Swapped(w, a, b);
      && |w'.net.ring[a]| == |w.net.ring[b]| && |w'.net.ring[b]| == |w.net.ring[a]|
      && w'.net.ring[a] == TauSeq(w.net.ring[b], a, b)
      && w'.net.ring[b] == TauSeq(w.net.ring[a], a, b)
      && (w.net.ring[a] == [a] && w.net.ring[b] == [b] ==>
            forall z :: z in w.net.ring ==> w'.net.next[z] == w.net.next[z] && w'.net.prev[z] == w.net.prev[z])
    ensures var w' := Swapped(w, a, b);
      forall h :: h in w.net.ring && h !in w.net.ring[a] && h !in w.net.ring[b] ==>
        h in w'.net.ring && w'.net.ring[h] == w.net.ring[h]
  {
    Member(w, a);
    Member(w, b);
    if w.held[a] != w.held[b] {
      TradeSpec(w, a, b);
      SwappedElsewhere(w, a, b);
    }
  }

  /** Trading two handles with different addresses leaves every ring that holds neither of them as it was. */
  lemma SwappedElsewhere<T>(w: World<T>, a: T, b: T)
    requires Inv(w) && a in w.net.ring && b in w.net.ring && a in w.held && b in w.held
    requires w.held[a] != w.held[b]
    ensures forall h :: h in w.net.ring && h !in w.net.ring[a] && h !in w.net.ring[b] ==>
      h in Swapped(w, a, b).net.ring && Swapped(w, a, b).net.ring[h] == w.net.ring[h]
  {
    Member(w, a);
    Member(w, b);
    forall h | h in w.net.ring && h !in w.net.ring[a] && h !in w.net.ring[b]
      ensures Swapped(w, a, b).net.ring[h] == w.net.ring[h]
    {
      ExchangedElsewhere(w.net.ring, a, b, h);
    }
  }

  /** `a.swap(b)` and `b.swap(a)` do the same thing. */
  lemma SwappedSymmetric<T>(w: World<T>, a: T, b: T)
    requires Inv(w) && a in w.net.ring && b in w.net.ring
    ensures Swapped(w, a, b) == Swapped(w, b, a)
  {
    Member(w, a);
    Member(w, b);
    if w.held[a] != w.held[b] {
      TradeSymmetric(w, a, b);
    }
  }

  // ---------------------------------------------------------------------
  // Deleted once, by the last owner.
  // ---------------------------------------------------------------------

  /**
   * A new handle `x` takes `p`, and a copy `y` of it is made.  Destroying
   * the copy deletes nothing, since `x` still owns `p`; destroying `x`
   * afterwards deletes `p`, and only `p`.  This is one worked scenario;
   * the general promise, for any ring and any order of destruction, is
   * `Logged` in `DestroyedSpec`.
   */
  lemma LastOwnerDeletes<T>(w: World<T>, x: T, y: T, p: Address)
    requires Inv(w) && x !in w.net.ring && y !in w.net.ring && x != y && p != Null && p !in Owned(w)
    ensures Inv(Fresh(w, x, p)) && x in Fresh(w, x, p).net.ring && y !in Fresh(w, x, p).net.ring
    ensures Inv(CopyConstructed(Fresh(w, x, p), y, x)) && x in CopyConstructed(Fresh(w, x, p), y, x).net.ring
    ensures y in CopyConstructed(Fresh(w, x, p), y, x).net.ring
    ensures Destroyed(CopyConstructed(Fresh(w, x, p), y, x), y).freed == w.freed
    ensures Inv(Destroyed(CopyConstructed(Fresh(w, x, p), y, x), y))
    ensures x in Destroyed(CopyConstructed(Fresh(w, x, p), y, x), y).net.ring
    ensures Destroyed(Destroyed(CopyConstructed(Fresh(w, x, p), y, x), y), x).freed == w.freed + [p]
  {
    FreshInv(w, x, p);
    var w1 := Fresh(w, x, p);
    assert w1.net.ring.Keys == w.net.ring.Keys + {x};
    forall g | g in w1.net.ring.Keys && g in w1.held && g != x
      ensures w1.held[g] != p
    {
      assert g in w.net.ring && w1.held[g] == w.held[g];
    }
    CopyDestroyedKeeps(w1, x, y);
    var w3 := Destroyed(CopyConstructed(w1, y, x), y);
    DestroyedSpec(w3, x);
  }

  /**
   * Copying the last owner `x` and destroying the copy deletes nothing,
   * and leaves `x` the last owner.
   */
  lemma CopyDestroyedKeeps<T>(w: World<T>, x: T, y: T)
    requires Inv(w) && x in w.net.ring && y !in w.net.ring && x in w.held
    requires LastOwner(w.net.ring.Keys, w.held, x)
    ensures Inv(CopyConstructed(w, y, x)) && y in CopyConstructed(w, y, x).net.ring
    ensures var w' := Destroyed(CopyConstructed(w, y, x), y);
      && Inv(w') && x in w'.net.ring && x in w'.held && w'.held[x] == w.held[x]
      && w'.freed == w.freed
      && LastOwner(w'.net.ring.Keys, w'.held, x)
  {
    CopyConstructedSpec(w, y, x);
    var w2 := CopyConstructed(w, y, x);
    assert x in w2.net.ring && y != x && w2.held[x] == w.held[x];
    DestroyedSpec(w2, y);
    var w3 := Destroyed(w2, y);
    assert !LastOwner(w2.net.ring.Keys, w2.held, y);
    forall g | g in w3.net.ring.Keys && g in w3.held && g != x
      ensures w3.held[g] != w3.held[x]
    {
      assert g in w.net.ring && g != y;
      assert w3.held[g] == w2.held[g] == w.held[g];
    }
  }

}

