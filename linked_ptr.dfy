/**
 * The handles themselves: `linked_ptr` objects with their `next`, `prev`
 * and `data` fields, updated in place exactly as the C++ members do.  The
 * ownership world of the live handles is ghost: every method takes the
 * world before it and is proved to leave the fields agreeing with the
 * world that the value-level operation computes from it.
 */
module LinkedPtr {
  import opened RingSeq
  import opened Rings
  import opened Ownership
  import opened Lifecycle

  // ---------------------------------------------------------------------
  // Fields that agree with a world.
  // ---------------------------------------------------------------------

  /** The `next` and `prev` fields of the handles in `s` are the links `nx` and `pv`. */
  ghost predicate Mirrors(s: set<Handle>, nx: map<Handle, Handle>, pv: map<Handle, Handle>)
    reads s`next, s`prev
  {
    forall h :: h in s ==> h in nx && h in pv && h.next == nx[h] && h.prev == pv[h]
  }

  /** The `data` field of every handle in `s` is the address `held` gives it. */
  ghost predicate Holds(s: set<Handle>, held: map<Handle, Address>)
    reads s`data
  {
    forall h :: h in s ==> h in held && h.data == held[h]
  }

  /** The links of every live handle are the links of the world. */
  ghost predicate Linked(w: World<Handle>)
    reads w.net.ring.Keys`next, w.net.ring.Keys`prev
  {
    Mirrors(w.net.ring.Keys, w.net.next, w.net.prev)
  }

  /**
   * The fields agree with a world that keeps the ownership invariant,
   * except for the `data` of `x`, which is dead storage.
   */
  ghost predicate ValidExcept(w: World<Handle>, x: Handle)
    reads w.net.ring.Keys`next, w.net.ring.Keys`prev, (w.net.ring.Keys - {x})`data
  {
    Linked(w) && Inv(w) && Holds(w.net.ring.Keys - {x}, w.held)
  }

  /** The fields of every live handle agree with a world that keeps the ownership invariant. */
  ghost predicate Valid(w: World<Handle>)
    reads w.net.ring.Keys`next, w.net.ring.Keys`prev, w.net.ring.Keys`data
  {
    Linked(w) && Inv(w) && Holds(w.net.ring.Keys, w.held)
  }

  // ---------------------------------------------------------------------
  // Each step of the world, taken by the fields.
  // ---------------------------------------------------------------------

  /** A new handle linked to itself and holding `p` agrees with the world it joins. */
  lemma FreshValid(w: World<Handle>, x: Handle, p: Address)
    requires Valid(w) && x !in w.net.ring && p !in Owned(w)
    requires x.next == x && x.prev == x && x.data == p
    ensures Valid(Fresh(w, x, p))
  {
    FreshInv(w, x, p);
    FreshFields(w, x, p);
    HoldsAt(Fresh(w, x, p).net.ring.Keys, Fresh(w, x, p).held, x);
  }

  /** A new handle linked to itself agrees with the world it joins holding null, whatever its `data`. */
  lemma FreshLinked(w: World<Handle>, x: Handle)
    requires Valid(w) && x !in w.net.ring
    requires x.next == x && x.prev == x
    ensures ValidExcept(Fresh(w, x, Null), x)
    ensures Fresh(w, x, Null).net.ring[x] == [x] && Fresh(w, x, Null).held[x] == Null
  {
    FreshInv(w, x, Null);
    FreshFields(w, x, Null);
  }

  lemma FreshFields(w: World<Handle>, x: Handle, p: Address)
    requires Linked(w) && Holds(w.net.ring.Keys, w.held)
    requires x !in w.net.ring && x.next == x && x.prev == x
    ensures Linked(Fresh(w, x, p)) && Holds(Fresh(w, x, p).net.ring.Keys - {x}, Fresh(w, x, p).held)
  {
    assert Fresh(w, x, p).net.ring.Keys - {x} == w.net.ring.Keys;
  }

  /**
   * Once `insert` has run and `data` holds `y`'s address, the fields agree
   * with the world in which `x` has joined `y`'s ring.
   */
  lemma AdjoinValid(v: World<Handle>, x: Handle, y: Handle)
    requires Inv(v) && x in v.net.ring && y in v.net.ring && x != y && Wired(v, y)
    requires v.net.ring[x] == [x] && v.held[x] == Null
    requires Mirrors(v.net.ring.Keys, Splice(v.net, x, y).next, Splice(v.net, x, y).prev)
    requires Holds(v.net.ring.Keys - {x}, v.held) && x.data == v.held[y]
    ensures Valid(Adjoin(v, x, y))
  {
    AdjoinSpec(v, x, y);
    HoldsOff(v.net.ring.Keys, v.held, x, v.held[y]);
    HoldsAt(v.net.ring.Keys, v.held[x := v.held[y]], x);
  }

  /**
   * Once `remove` has run on `y`, the fields agree with the world in which
   * `y` has left its ring, except for `y`'s `data`.
   */
  lemma DisownValid(v: World<Handle>, y: Handle)
    requires Inv(v) && Wired(v, y)
    requires Mirrors(v.net.ring.Keys, Detach(v.net, y).next, Detach(v.net, y).prev)
    requires Holds(v.net.ring.Keys - {y}, v.held)
    ensures ValidExcept(Disown(v, y), y)
  {
    DisownInv(v, y);
    HoldsOff(v.net.ring.Keys, v.held, y, Null);
  }

  /** Once `delete_if_unique` has run, the fields agree with the world it computes. */
  lemma DeleteValid(w: World<Handle>, x: Handle)
    requires Inv(w) && x in w.net.ring && Linked(w) && Holds(w.net.ring.Keys - {x}, w.held)
    requires Wired(w, x) && x.data == DeleteIfUnique(w, x).held[x]
    ensures Valid(DeleteIfUnique(w, x))
  {
    DeleteIfUniqueInv(w, x);
    var v := DeleteIfUnique(w, x);
    HoldsOff(w.net.ring.Keys, w.held, x, v.held[x]);
    HoldsAt(w.net.ring.Keys, v.held, x);
  }

  /** A handle alone on its ring and holding null that is dropped leaves agreeing fields. */
  lemma DropValid(v: World<Handle>, x: Handle)
    requires ValidExcept(v, x) && x in v.net.ring && v.net.ring[x] == [x] && v.held[x] == Null
    ensures Valid(Drop(v, x))
  {
    DropInv(v, x);
    MirrorsDrop(v.net.ring.Keys, v.net.next, v.net.prev, x);
    HoldsDrop(v.net.ring.Keys, v.held, x);
  }

  /** Once `data = p` has run on a handle alone and holding null, the fields agree with the world. */
  lemma AssignValid(v: World<Handle>, x: Handle, p: Address)
    requires ValidExcept(v, x) && x in v.net.ring && v.net.ring[x] == [x] && v.held[x] == Null
    requires p !in Owned(v) && x.data == p
    ensures Valid(Assign(v, x, p))
  {
    AssignInv(v, x, p);
    HoldsOff(v.net.ring.Keys, v.held, x, p);
    HoldsAt(v.net.ring.Keys, v.held[x := p], x);
  }

  /** Once the dead `data` of `x` is given the world's address, all the fields agree. */
  lemma ValidAt(w: World<Handle>, x: Handle)
    requires ValidExcept(w, x) && x in w.held && x.data == w.held[x]
    ensures Valid(w)
  {
    HoldsAt(w.net.ring.Keys, w.held, x);
  }

  /** Agreeing fields, looked at without the `data` of `x`. */
  lemma ValidLess(w: World<Handle>, x: Handle)
    requires Valid(w)
    ensures ValidExcept(w, x)
  {
    HoldsLess(w.net.ring.Keys, w.held, x);
  }

  lemma HoldsLess(s: set<Handle>, held: map<Handle, Address>, x: Handle)
    requires Holds(s, held)
    ensures Holds(s - {x}, held)
  {
  }

  lemma HoldsOff(s: set<Handle>, held: map<Handle, Address>, x: Handle, p: Address)
    requires Holds(s - {x}, held)
    ensures Holds(s - {x}, held[x := p])
  {
  }

  lemma HoldsAt(s: set<Handle>, held: map<Handle, Address>, x: Handle)
    requires Holds(s - {x}, held) && x in held && x.data == held[x]
    ensures Holds(s, held)
  {
  }

  lemma HoldsDrop(s: set<Handle>, held: map<Handle, Address>, x: Handle)
    requires Holds(s - {x}, held)
    ensures Holds(s - {x}, held - {x})
  {
  }

  lemma HoldsLessPair(s: set<Handle>, held: map<Handle, Address>, a: Handle, b: Handle)
    requires Holds(s, held)
    ensures Holds(s - {a, b}, held)
  {
  }

  lemma HoldsPair(s: set<Handle>, held: map<Handle, Address>, a: Handle, b: Handle)
    requires Holds(s - {a, b}, held) && a in held && b in held && a.data == held[a] && b.data == held[b]
    ensures Holds(s, held)
  {
  }

  /** With the addresses of `a` and `b` exchanged in the fields, the fields hold the traded addresses. */
  lemma HoldsTraded(s: set<Handle>, held: map<Handle, Address>, a: Handle, b: Handle)
    requires Holds(s - {a, b}, held) && a in held && b in held && a != b
    requires a.data == held[b] && b.data == held[a]
    ensures Holds(s, Traded(held, a, b))
  {
  }

  lemma MirrorsDrop(s: set<Handle>, nx: map<Handle, Handle>, pv: map<Handle, Handle>, x: Handle)
    requires Mirrors(s, nx, pv)
    ensures Mirrors(s - {x}, nx - {x}, pv - {x})
  {
  }

  lemma MirrorsAt(s: set<Handle>, nx: map<Handle, Handle>, pv: map<Handle, Handle>, x: Handle)
    requires Mirrors(s - {x}, nx, pv) && x in nx && x in pv && x.next == nx[x] && x.prev == pv[x]
    ensures Mirrors(s, nx, pv)
  {
  }

  /** Links that agree, on `s`, with links the fields of `s` mirror are mirrored too. */
  lemma MirrorsAgree(s: set<Handle>, nx: map<Handle, Handle>, pv: map<Handle, Handle>,
                     nx': map<Handle, Handle>, pv': map<Handle, Handle>)
    requires Mirrors(s, nx, pv)
    requires forall z :: z in s ==> z in nx && z in pv && z in nx' && z in pv' && nx'[z] == nx[z] && pv'[z] == pv[z]
    ensures Mirrors(s, nx', pv')
  {
  }

  /** The addresses of `a` and `b` traded. */
  ghost function Traded(held: map<Handle, Address>, a: Handle, b: Handle): map<Handle, Address>
    requires a in held && b in held
  {
    held[a := held[b]][b := held[a]]
  }

  /**
   * `swap` between two handles that are each alone on their rings: once
   * the addresses are traded, the fields agree with the swapped world.
   */
  lemma SwapSoloValid(w: World<Handle>, a: Handle, b: Handle)
    requires Inv(w) && Linked(w) && a in w.net.ring && b in w.net.ring
    requires w.net.ring[a] == [a] && w.net.ring[b] == [b]
    requires a in w.held && b in w.held && w.held[a] != w.held[b]
    requires Holds(w.net.ring.Keys, Traded(w.held, a, b))
    ensures Valid(Swapped(w, a, b))
  {
    SwappedSpec(w, a, b);
    ExchangeSolo(w.net, a, b);
    MirrorsAgree(w.net.ring.Keys, w.net.next, w.net.prev, Conj(w.net.next, a, b), Conj(w.net.prev, a, b));
  }

  /**
   * Fields that mirror the exchange of `a` and `b` and hold the traded
   * addresses agree with the swapped world.
   */
  lemma TradeValid(w: World<Handle>, a: Handle, b: Handle)
    requires Inv(w) && a in w.net.ring && b in w.net.ring
    requires a in w.net.next && b in w.net.next && a in w.net.prev && b in w.net.prev
    requires a in w.held && b in w.held && w.held[a] != w.held[b]
    requires Mirrors(w.net.ring.Keys, Conj(w.net.next, a, b), Conj(w.net.prev, a, b))
    requires Holds(w.net.ring.Keys, Traded(w.held, a, b))
    ensures Valid(Swapped(w, a, b))
  {
    SwappedSpec(w, a, b);
  }

  /**
   * Linking `a`, alone on its ring, in after `b` and then cutting `b` out
   * leaves every node with the links of the exchange of `a` and `b`.
   */
  lemma SupplantMirrors(n: Net<Handle>, a: Handle, b: Handle)
    requires Mutual(n) && a in n.ring && b in n.ring && a != b
    requires a in n.next && b in n.next && b in n.prev && n.next[a] == a && n.next[b] != b
    requires Mirrors(n.ring.Keys,
      DetachedNext(SplicedNext(n.next, a, b), SplicedPrev(n.next, n.prev, a, b), b),
      DetachedPrev(SplicedNext(n.next, a, b), SplicedPrev(n.next, n.prev, a, b), b))
    ensures a in n.prev && Mirrors(n.ring.Keys, Conj(n.next, a, b), Conj(n.prev, a, b))
  {
    SupplantIsExchange(n, a, b);
    var nx := SplicedNext(n.next, a, b);
    var pv := SplicedPrev(n.next, n.prev, a, b);
    MirrorsAgree(n.ring.Keys, DetachedNext(nx, pv, b), DetachedPrev(nx, pv, b), Conj(n.next, a, b), Conj(n.prev, a, b));
  }

  /**
   * `swap` from a handle `a` alone on its ring to a handle `b` that is not:
   * once the addresses are traded, `a` is linked in after `b` and `b` is
   * cut out, the fields agree with the swapped world.
   */
  lemma SupplantValid(w: World<Handle>, a: Handle, b: Handle)
    requires Inv(w) && a in w.net.ring && b in w.net.ring
    requires w.net.ring[a] == [a] && w.net.ring[b] != [b]
    requires a in w.held && b in w.held && w.held[a] != w.held[b]
    requires a in w.net.next && b in w.net.next && b in w.net.prev
    requires Mirrors(w.net.ring.Keys,
      DetachedNext(SplicedNext(w.net.next, a, b), SplicedPrev(w.net.next, w.net.prev, a, b), b),
      DetachedPrev(SplicedNext(w.net.next, a, b), SplicedPrev(w.net.next, w.net.prev, a, b), b))
    requires Holds(w.net.ring.Keys, Traded(w.held, a, b))
    ensures Valid(Swapped(w, a, b))
  {
    SupplantReady(w.net, a, b);
    SupplantMirrors(w.net, a, b);
    TradeValid(w, a, b);
  }

  /** The link facts the middle branch of `swap` relies on. */
  lemma SupplantReady(n: Net<Handle>, a: Handle, b: Handle)
    requires Ok(n) && a in n.ring && b in n.ring && n.ring[a] == [a] && n.ring[b] != [b]
    ensures Mutual(n) && a != b && a in n.next && b in n.next && a in n.prev && b in n.prev
    ensures n.next[a] == a && n.next[b] != b
  {
    OkMutual(n);
    SoloIff(n, a);
    SoloIff(n, b);
  }

  /**
   * The facts the last branch of `swap` relies on: two handles holding
   * different addresses, neither alone on its ring, are distinct, and
   * neither is linked to the other.
   */
  lemma CrossReady(w: World<Handle>, a: Handle, b: Handle)
    requires Inv(w) && a in w.net.ring && b in w.net.ring
    requires w.net.ring[a] != [a] && w.net.ring[b] != [b]
    requires a in w.held && b in w.held && w.held[a] != w.held[b]
    ensures a != b && a in w.net.next && b in w.net.next && a in w.net.prev && b in w.net.prev
    ensures w.net.next[a] != a && w.net.next[b] != b && w.net.prev[a] != a && w.net.prev[b] != b
    ensures w.net.next[a] != b && w.net.next[b] != a && w.net.prev[a] != b && w.net.prev[b] != a
    ensures w.net.prev[a] != w.net.prev[b] && w.net.next[a] != w.net.next[b]
  {
    Sharing(w, a, b);
    Sharing(w, b, a);
    Neighbours(w.net, a, b);
    Neighbours(w.net, b, a);
    Apart(w.net.ring, a, b);
  }

  /** The neighbours of `a` are live handles whose links lead back to `a`. */
  lemma LinksBack(n: Net<Handle>, a: Handle)
    requires Ok(n) && a in n.ring
    ensures a in n.next && a in n.prev && n.next[a] in n.ring && n.prev[a] in n.ring
    ensures n.next[a] in n.prev && n.prev[a] in n.next
    ensures n.prev[n.next[a]] == a && n.next[n.prev[a]] == a
  {
    OkMutual(n);
  }

  /**
   * Trading the four neighbours' links and the two handles' own links
   * leaves every node with the links of the exchange of `a` and `b`.
   */
  lemma CrossMirrors(n: Net<Handle>, a: Handle, b: Handle)
    requires Mutual(n) && a in n.ring && b in n.ring && a != b
    requires a in n.next && b in n.next && a in n.prev && b in n.prev
    requires n.next[a] != a && n.next[b] != b && n.next[a] != b && n.next[b] != a
    requires Mirrors(n.ring.Keys, CrossedNext(n.next, n.prev, a, b), CrossedPrev(n.next, n.prev, a, b))
    ensures Mirrors(n.ring.Keys, Conj(n.next, a, b), Conj(n.prev, a, b))
  {
    CrossIsExchange(n, a, b);
    MirrorsAgree(n.ring.Keys, CrossedNext(n.next, n.prev, a, b), CrossedPrev(n.next, n.prev, a, b),
      Conj(n.next, a, b), Conj(n.prev, a, b));
  }

  /**
   * `swap` between two handles neither of which is alone on its ring: once
   * the addresses and the eight links are traded, the fields agree with the
   * swapped world.
   */
  lemma CrossValid(w: World<Handle>, a: Handle, b: Handle)
    requires Inv(w) && a in w.net.ring && b in w.net.ring
    requires w.net.ring[a] != [a] && w.net.ring[b] != [b]
    requires a in w.held && b in w.held && w.held[a] != w.held[b]
    requires a in w.net.next && b in w.net.next && a in w.net.prev && b in w.net.prev
    requires Mirrors(w.net.ring.Keys, CrossedNext(w.net.next, w.net.prev, a, b), CrossedPrev(w.net.next, w.net.prev, a, b))
    requires Holds(w.net.ring.Keys, Traded(w.held, a, b))
    ensures Valid(Swapped(w, a, b))
  {
    CrossReady(w, a, b);
    OkMutual(w.net);
    CrossMirrors(w.net, a, b);
    TradeValid(w, a, b);
  }

  /** `linked_ptr<T>` with its `super_linked_ptr` base: the two links and the pointee address. */
  class Handle {
    var next: Handle
    var prev: Handle
    var data: Address

    // -------------------------------------------------------------------
    // super_linked_ptr: the link edits, on links given as maps
    // -------------------------------------------------------------------

    /**
     * `insert(other)`: link this handle in right after `other`.  The
     * handles of `s` mirrored `nx` and `pv` before and mirror the links
     * `insert` computes from them after; no `data` changes.
     */
    method Insert(ghost s: set<Handle>, ghost nx: map<Handle, Handle>, ghost pv: map<Handle, Handle>,
                  ghost d: set<Handle>, ghost held: map<Handle, Address>, other: Handle)
      requires Mirrors(s, nx, pv) && this in s && other in s && other != this && Holds(d, held)
      modifies this`next, this`prev, other`next, other.next`prev
      ensures Mirrors(s, SplicedNext(nx, this, other), SplicedPrev(nx, pv, this, other))
      ensures Holds(d, held)
      ensures other.next == this && prev == other && next == old(other.next)
      ensures data == old(data) && other.data == old(other.data)
    {
      var ny := other.next;
      other.next.prev := this;
      next := other.next;
      prev := other;
      other.next := this;
      forall h | h in s
        ensures h in SplicedNext(nx, this, other) && h.next == SplicedNext(nx, this, other)[h]
      {
        if h != this && h != other { assert h.next == old(h.next); }
      }
      forall h | h in s
        ensures h in SplicedPrev(nx, pv, this, other) && h.prev == SplicedPrev(nx, pv, this, other)[h]
      {
        if h != this && h != ny { assert h.prev == old(h.prev); }
      }
      forall h | h in d ensures h in held && h.data == held[h] {
        assert h.data == old(h.data);
      }
    }

    /**
     * `remove()`: link the neighbours of this handle to each other and
     * leave it linked to itself; no `data` changes.
     */
    method Remove(ghost s: set<Handle>, ghost nx: map<Handle, Handle>, ghost pv: map<Handle, Handle>,
                  ghost d: set<Handle>, ghost held: map<Handle, Address>)
      requires Mirrors(s, nx, pv) && this in s && Holds(d, held)
      modifies this`next, this`prev, next`prev, prev`next
      ensures Mirrors(s, DetachedNext(nx, pv, this), DetachedPrev(nx, pv, this))
      ensures Holds(d, held)
      ensures next == this && prev == this && data == old(data)
    {
      var nx0, px0 := next, prev;
      next.prev := prev;
      prev.next := next;
      next, prev := this, this;
      forall h | h in s
        ensures h in DetachedNext(nx, pv, this) && h.next == DetachedNext(nx, pv, this)[h]
      {
        if h != this && h != px0 { assert h.next == old(h.next); }
      }
      forall h | h in s
        ensures h in DetachedPrev(nx, pv, this) && h.prev == DetachedPrev(nx, pv, this)[h]
      {
        if h != this && h != nx0 { assert h.prev == old(h.prev); }
      }
      forall h | h in d ensures h in held && h.data == held[h] {
        assert h.data == old(h.data);
      }
    }

    /**
     * `data = p`: no link changes, and the handles of `d`, which do not
     * include this one, keep their addresses.
     */
    method SetData(ghost s: set<Handle>, ghost nx: map<Handle, Handle>, ghost pv: map<Handle, Handle>,
                   ghost d: set<Handle>, ghost held: map<Handle, Address>, p: Address)
      requires Mirrors(s, nx, pv) && Holds(d, held) && this !in d
      modifies this`data
      ensures Mirrors(s, nx, pv) && Holds(d, held) && data == p
      ensures next == old(next) && prev == old(prev)
    {
      data := p;
      forall h | h in d ensures h in held && h.data == held[h] {
        assert h.data == old(h.data);
      }
    }

    /**
     * `super_linked_ptr()` followed by `data(p)` on a handle already linked
     * to itself, as placement `new` runs them: no link changes, and the
     * handles of `d`, which do not include this one, keep their addresses.
     */
    method Init(ghost s: set<Handle>, ghost nx: map<Handle, Handle>, ghost pv: map<Handle, Handle>,
                ghost d: set<Handle>, ghost held: map<Handle, Address>, p: Address)
      requires Mirrors(s, nx, pv) && Holds(d, held) && this !in d
      requires this in nx && this in pv && nx[this] == this && pv[this] == this
      modifies this`next, this`prev, this`data
      ensures Mirrors(s, nx, pv) && Holds(d, held)
      ensures next == this && prev == this && data == p
    {
      next := this;
      prev := this;
      data := p;
      forall h | h in s ensures h in nx && h in pv && h.next == nx[h] && h.prev == pv[h] {
        if h != this { assert h.next == old(h.next) && h.prev == old(h.prev); }
      }
      forall h | h in d ensures h in held && h.data == held[h] {
        assert h.data == old(h.data);
      }
    }

    /** `swap(data, other.data)`: no link changes, and the handles of `d` keep their addresses. */
    method SwapData(ghost s: set<Handle>, ghost nx: map<Handle, Handle>, ghost pv: map<Handle, Handle>,
                    ghost d: set<Handle>, ghost held: map<Handle, Address>, other: Handle)
      requires Mirrors(s, nx, pv) && Holds(d, held) && this !in d && other !in d
      modifies this`data, other`data
      ensures Mirrors(s, nx, pv) && Holds(d, held)
      ensures data == old(other.data) && other.data == old(data)
    {
      var t := data;
      data := other.data;
      other.data := t;
      forall h | h in d ensures h in held && h.data == held[h] {
        assert h.data == old(h.data);
      }
    }

    /**
     * The last branch of `swap`: the four `std::swap`s of the links of two
     * handles, neither alone on its ring and neither linked to the other,
     * after which each sits where the other sat.
     */
    method Cross(ghost s: set<Handle>, ghost nx: map<Handle, Handle>, ghost pv: map<Handle, Handle>,
                 ghost d: set<Handle>, ghost held: map<Handle, Address>, other: Handle)
      requires Mirrors(s, nx, pv) && Holds(d, held) && this in s && other in s && this != other
      requires this in nx && other in nx && this in pv && other in pv
      requires nx[this] in s && nx[other] in s && pv[this] in s && pv[other] in s
      requires pv[nx[this]] == this && pv[nx[other]] == other && nx[pv[this]] == this && nx[pv[other]] == other
      requires nx[this] != this && nx[other] != other && pv[this] != this && pv[other] != other
      requires nx[this] != other && nx[other] != this && pv[this] != other && pv[other] != this
      requires nx[this] != nx[other] && pv[this] != pv[other]
      modifies this`next, this`prev, other`next, other`prev, next`prev, other.next`prev, prev`next, other.prev`next
      ensures Mirrors(s, CrossedNext(nx, pv, this, other), CrossedPrev(nx, pv, this, other))
      ensures Holds(d, held)
    {
      CrossNeighbours(s, nx, pv, d, held, other);
      ghost var nx', pv' := nx[pv[other] := this][pv[this] := other], pv[nx[other] := this][nx[this] := other];
      CrossOwn(s, nx', pv', d, held, other);
      assert nx'[this] == nx[this] && nx'[other] == nx[other] && pv'[this] == pv[this] && pv'[other] == pv[other];
    }

    /**
     * The first two `std::swap`s of `swap`'s last branch: the neighbours of
     * the two handles trade the links that point back at them.
     */
    method CrossNeighbours(ghost s: set<Handle>, ghost nx: map<Handle, Handle>, ghost pv: map<Handle, Handle>,
                           ghost d: set<Handle>, ghost held: map<Handle, Address>, other: Handle)
      requires Mirrors(s, nx, pv) && Holds(d, held) && this in s && other in s && this != other
      requires this in nx && other in nx && this in pv && other in pv
      requires nx[this] in s && nx[other] in s && pv[this] in s && pv[other] in s
      requires pv[nx[this]] == this && pv[nx[other]] == other && nx[pv[this]] == this && nx[pv[other]] == other
      requires nx[this] != this && nx[other] != other && pv[this] != this && pv[other] != other
      requires nx[this] != other && nx[other] != this && pv[this] != other && pv[other] != this
      requires nx[this] != nx[other] && pv[this] != pv[other]
      modifies next`prev, other.next`prev, prev`next, other.prev`next
      ensures Mirrors(s, nx[pv[other] := this][pv[this] := other], pv[nx[other] := this][nx[this] := other])
      ensures Holds(d, held)
    {
      var n0, p0, n1, p1 := next, prev, other.next, other.prev;
      var t := other.next.prev;
      other.next.prev := next.prev;
      next.prev := t;
      t := other.prev.next;
      other.prev.next := prev.next;
      prev.next := t;
      forall h | h in s
        ensures h in nx[pv[other] := this][pv[this] := other] && h.next == nx[pv[other] := this][pv[this] := other][h]
      {
        if h != p0 && h != p1 { assert h.next == old(h.next); }
      }
      forall h | h in s
        ensures h in pv[nx[other] := this][nx[this] := other] && h.prev == pv[nx[other] := this][nx[this] := other][h]
      {
        if h != n0 && h != n1 { assert h.prev == old(h.prev); }
      }
      forall h | h in d ensures h in held && h.data == held[h] {
        assert h.data == old(h.data);
      }
    }

    /**
     * The last two `std::swap`s of `swap`'s last branch: the two handles
     * trade their own links.
     */
    method CrossOwn(ghost s: set<Handle>, ghost nx: map<Handle, Handle>, ghost pv: map<Handle, Handle>,
                    ghost d: set<Handle>, ghost held: map<Handle, Address>, other: Handle)
      requires Mirrors(s, nx, pv) && Holds(d, held) && this in s && other in s && this != other
      modifies this`next, this`prev, other`next, other`prev
      ensures Mirrors(s, nx[this := nx[other]][other := nx[this]], pv[this := pv[other]][other := pv[this]])
      ensures Holds(d, held)
    {
      var t := other.next;
      other.next := next;
      next := t;
      t := other.prev;
      other.prev := prev;
      prev := t;
      forall h | h in s
        ensures h in nx[this := nx[other]][other := nx[this]] && h.next == nx[this := nx[other]][other := nx[this]][h]
      {
        if h != this && h != other { assert h.next == old(h.next); }
      }
      forall h | h in s
        ensures h in pv[this := pv[other]][other := pv[this]] && h.prev == pv[this := pv[other]][other := pv[this]][h]
      {
        if h != this && h != other { assert h.prev == old(h.prev); }
      }
      forall h | h in d ensures h in held && h.data == held[h] {
        assert h.data == old(h.data);
      }
    }

    // -------------------------------------------------------------------
    // Construction
    // -------------------------------------------------------------------

    /**
     * `super_linked_ptr()` with `data(ptr)`: a handle linked to itself,
     * holding `ptr`.  This is all of `linked_ptr(T *ptr)` and of the
     * converting `linked_ptr(U *other)`.
     */
    constructor (ptr: Address)
      ensures next == this && prev == this && data == ptr
    {
      next := this;
      prev := this;
      data := ptr;
    }

    /**
     * `linked_ptr(T *ptr)` in a world of handles: a new handle alone on its
     * ring holding `ptr`, which no live handle may already own.
     */
    static method Make(ghost w: World<Handle>, ptr: Address) returns (x: Handle)
      requires Valid(w) && ptr !in Owned(w)
      ensures x !in w.net.ring
      ensures fresh(x)
      ensures Valid(Fresh(w, x, ptr))
    {
      x := new Handle(ptr);
      FreshValid(w, x, ptr);
    }

    /**
     * `linked_ptr(const linked_ptr &other)` (and the converting copy
     * constructor): a new handle holding `other`'s address, linked in right
     * after `other`.
     */
    static method CopyOf(ghost w: World<Handle>, other: Handle) returns (x: Handle)
      requires Valid(w) && other in w.net.ring
      modifies other`next, other.next`prev
      ensures x !in w.net.ring
      ensures fresh(x)
      ensures Valid(CopyConstructed(w, x, other))
    {
      x := new Handle(other.data);
      x.Attach(w, other);
    }

    /**
     * `insert(other)` on a new handle linked to itself that already holds
     * `other`'s address: the fields then agree with the copy-constructed
     * world.
     */
    method Attach(ghost w: World<Handle>, other: Handle)
      requires Valid(w) && other in w.net.ring && this !in w.net.ring
      requires next == this && prev == this && data == other.data
      modifies this`next, this`prev, other`next, other.next`prev
      ensures this !in w.net.ring
      ensures Valid(CopyConstructed(w, this, other))
    {
      Member(w, other);
      FreshLinked(w, this);
      Join(Fresh(w, this, Null), other);
    }

    /**
     * `insert(other)` on a handle alone on its ring that already holds
     * `other`'s address: the fields then agree with the world in which it
     * has joined `other`'s ring.
     */
    method Join(ghost v: World<Handle>, other: Handle)
      requires ValidExcept(v, this) && this in v.net.ring && v.net.ring[this] == [this] && v.held[this] == Null
      requires other in v.net.ring && other != this && other in v.held && data == v.held[other]
      modifies this`next, this`prev, other`next, other.next`prev
      ensures Wired(v, other) && Valid(Adjoin(v, this, other))
    {
      Member(v, other);
      Insert(v.net.ring.Keys, v.net.next, v.net.prev, v.net.ring.Keys - {this}, v.held, other);
      AdjoinValid(v, this, other);
    }

    /**
     * `insert(other); data = other.data` on a handle alone on its ring: the
     * fields then agree with the world in which it has joined `other`'s
     * ring.
     */
    method Adopt(ghost v: World<Handle>, other: Handle)
      requires ValidExcept(v, this) && this in v.net.ring && v.net.ring[this] == [this] && v.held[this] == Null
      requires other in v.net.ring && other != this && other in v.held && other.data == v.held[other]
      modifies this`next, this`prev, this`data, other`next, other.next`prev
      ensures Wired(v, other) && Valid(Adjoin(v, this, other))
    {
      Member(v, other);
      Insert(v.net.ring.Keys, v.net.next, v.net.prev, v.net.ring.Keys - {this}, v.held, other);
      ghost var n := Splice(v.net, this, other);
      SetData(v.net.ring.Keys, n.next, n.prev, v.net.ring.Keys - {this}, v.held, other.data);
      AdjoinValid(v, this, other);
    }

    /**
     * `remove(); data = nullptr` on the handle moved from: the fields then
     * agree with the world in which it has left its ring holding null.
     */
    method Vacate(ghost u: World<Handle>)
      requires Valid(u) && this in u.net.ring
      modifies this`next, this`prev, this`data, next`prev, prev`next
      ensures Wired(u, this) && Valid(Disown(u, this))
    {
      Member(u, this);
      ValidLess(u, this);
      Remove(u.net.ring.Keys, u.net.next, u.net.prev, u.net.ring.Keys - {this}, u.held);
      DisownValid(u, this);
      ghost var v := Disown(u, this);
      SetData(v.net.ring.Keys, v.net.next, v.net.prev, v.net.ring.Keys - {this}, v.held, Null);
      ValidAt(Disown(u, this), this);
    }

    /**
     * `linked_ptr(linked_ptr &&other)`: a new handle linked in after
     * `other` takes its address; `other` then leaves its ring and holds
     * null.  The new handle's `data`, uninitialised until it is assigned,
     * starts as null.
     */
    static method MoveFrom(ghost w: World<Handle>, other: Handle) returns (x: Handle)
      requires Valid(w) && other in w.net.ring
      modifies other`next, other`prev, other`data, other.next`prev, other.prev`next
      ensures x !in w.net.ring
      ensures fresh(x)
      ensures Valid(MoveConstructed(w, x, other))
    {
      x := new Handle(Null);
      x.Enlist(w, other);
      other.Vacate(CopyConstructed(w, x, other));
    }

    /**
     * `insert(other); data = other.data` on a new handle linked to itself:
     * the fields then agree with the world in which it has joined `other`'s
     * ring holding `other`'s address.
     */
    method Enlist(ghost w: World<Handle>, other: Handle)
      requires Valid(w) && other in w.net.ring && this !in w.net.ring
      requires next == this && prev == this
      modifies this`next, this`prev, this`data, other`next, other.next`prev
      ensures this !in w.net.ring
      ensures Valid(CopyConstructed(w, this, other)) && other in CopyConstructed(w, this, other).net.ring
    {
      Member(w, other);
      FreshLinked(w, this);
      Adopt(Fresh(w, this, Null), other);
    }

    // -------------------------------------------------------------------
    // Queries
    // -------------------------------------------------------------------

    /** `is_unique()`: linked to itself both ways, that is, alone on its ring. */
    function IsUnique(ghost w: World<Handle>): (b: bool)
      reads this`next, this`prev, w.net.ring.Keys`next, w.net.ring.Keys`prev
      requires Linked(w) && Ok(w.net) && this in w.net.ring
      ensures b <==> w.net.ring[this] == [this]
    {
      SoloIff(w.net, this);
      next == this && prev == this
    }

    /**
     * `unique()`: alone on its ring and non-null, which is exactly being the
     * last live owner of its address.
     */
    function Unique(ghost w: World<Handle>): (b: bool)
      reads this, w.net.ring.Keys
      requires Valid(w) && this in w.net.ring
      ensures this in w.held
      ensures b <==> LastOwner(w.net.ring.Keys, w.held, this)
    {
      UniqueIffLastOwner(w, this);
      next == this && prev == this && data != Null
    }

    /** `get()`: the address held, which the live handles own unless it is null. */
    function Get(ghost w: World<Handle>): (p: Address)
      reads this, w.net.ring.Keys
      requires Valid(w) && this in w.net.ring
      ensures this in w.held && p == w.held[this]
      ensures p == Null || p in Owned(w)
    {
      data
    }

    /** `operator bool`: whether the handle owns an address. */
    function Bool(ghost w: World<Handle>): (b: bool)
      reads this, w.net.ring.Keys
      requires Valid(w) && this in w.net.ring
      ensures this in w.held
      ensures b <==> w.held[this] in Owned(w)
    {
      data != Null
    }

    /**
     * `operator==`: equal addresses.  Two handles on one ring are always
     * equal, and two equal non-null handles are always on one ring.
     */
    function Equals(ghost w: World<Handle>, rhs: Handle): (b: bool)
      reads this, rhs, w.net.ring.Keys
      requires Valid(w) && this in w.net.ring && rhs in w.net.ring
      ensures this in w.held && rhs in w.held
      ensures b <==> w.held[this] == w.held[rhs]
      ensures rhs in w.net.ring[this] ==> b
      ensures b && w.held[this] != Null ==> rhs in w.net.ring[this]
    {
      Sharing(w, this, rhs);
      data == rhs.data
    }

    /** `operator!=`: different addresses, so never two handles of one ring. */
    function NotEquals(ghost w: World<Handle>, rhs: Handle): (b: bool)
      reads this, rhs, w.net.ring.Keys
      requires Valid(w) && this in w.net.ring && rhs in w.net.ring
      ensures this in w.held && rhs in w.held
      ensures b <==> w.held[this] != w.held[rhs]
      ensures b ==> rhs !in w.net.ring[this]
      ensures !b && w.held[this] != Null ==> rhs in w.net.ring[this]
    {
      Sharing(w, this, rhs);
      data != rhs.data
    }

    /**
     * `operator<`: the addresses in order.  A handle is never less than a
     * handle of its own ring, and never less than a null one.
     */
    function Less(ghost w: World<Handle>, rhs: Handle): (b: bool)
      reads this, rhs, w.net.ring.Keys
      requires Valid(w) && this in w.net.ring && rhs in w.net.ring
      ensures this in w.held && rhs in w.held
      ensures b <==> w.held[this] < w.held[rhs]
      ensures b ==> rhs !in w.net.ring[this] && w.held[rhs] != Null
    {
      Sharing(w, this, rhs);
      data < rhs.data
    }

    // -------------------------------------------------------------------
    // Destruction
    // -------------------------------------------------------------------

    /**
     * `delete_if_unique()`: the last owner deletes its pointee (recorded in
     * the world's log of deletions) and holds null.
     */
    method DeleteIfUnique(ghost w: World<Handle>)
      requires Valid(w) && this in w.net.ring
      modifies this`data
      ensures Valid(Ownership.DeleteIfUnique(w, this))
    {
      Member(w, this);
      ValidLess(w, this);
      if Unique(w) {
        SetData(w.net.ring.Keys, w.net.next, w.net.prev, w.net.ring.Keys - {this}, w.held, Null);
      }
      DeleteValid(w, this);
    }

    /**
     * The body of `~linked_ptr()`: `delete_if_unique()` then `remove()`.
     * Afterwards the `data` of this handle is dead storage.
     */
    method Destruct(ghost w: World<Handle>)
      requires Valid(w) && this in w.net.ring
      modifies this`data, this`next, this`prev, next`prev, prev`next
      ensures ValidExcept(Destructed(w, this), this)
    {
      DeleteIfUnique(w);
      ghost var v := Ownership.DeleteIfUnique(w, this);
      DeleteIfUniqueInv(w, this);
      Member(v, this);
      ValidLess(v, this);
      Remove(v.net.ring.Keys, v.net.next, v.net.prev, v.net.ring.Keys - {this}, v.held);
      DisownValid(v, this);
    }

    /** `~linked_ptr()`: the destructor body, after which the handle is gone. */
    method Destroy(ghost w: World<Handle>)
      requires Valid(w) && this in w.net.ring
      modifies this`data, this`next, this`prev, next`prev, prev`next
      ensures Valid(Destroyed(w, this))
    {
      Destruct(w);
      DestructedSolo(w, this);
      DropValid(Destructed(w, this), this);
    }

    // -------------------------------------------------------------------
    // Assignment and reset
    // -------------------------------------------------------------------

    /**
     * `new (this) linked_ptr(other)` on a handle the destructor body has
     * left alone on its ring: the fields then agree with the world in which
     * it has joined `other`'s ring holding `other`'s address.
     */
    method Rebuild(ghost v: World<Handle>, other: Handle)
      requires ValidExcept(v, this) && this in v.net.ring && v.net.ring[this] == [this] && v.held[this] == Null
      requires other in v.net.ring && other != this
      modifies this`next, this`prev, this`data, other`next, other.next`prev
      ensures Wired(v, other) && Valid(Adjoin(v, this, other))
    {
      Member(v, this);
      Member(v, other);
      SoloIff(v.net, this);
      Init(v.net.ring.Keys, v.net.next, v.net.prev, v.net.ring.Keys - {this}, v.held, other.data);
      Join(v, other);
    }

    /**
     * `this->~linked_ptr(); new (this) linked_ptr(other)`, the body shared
     * by the three assignments: the destructor body, then a rebuild as a
     * copy of `other`.
     */
    method Reseat(ghost w: World<Handle>, other: Handle)
      requires Valid(w) && this in w.net.ring && other in w.net.ring && other != this
      modifies w.net.ring.Keys`next, w.net.ring.Keys`prev, this`data
      ensures Valid(CopyAssigned(w, this, other))
    {
      Member(w, this);
      Links(w.net, this);
      Destruct(w);
      Renew(w, other);
    }

    /** The placement-new half of `Reseat`, once the destructor body has run. */
    method Renew(ghost w: World<Handle>, other: Handle)
      requires Inv(w) && this in w.net.ring && other in w.net.ring && other != this
      requires ValidExcept(Destructed(w, this), this)
      modifies w.net.ring.Keys`next, w.net.ring.Keys`prev, this`data
      ensures Valid(CopyAssigned(w, this, other))
    {
      DestructedSolo(w, this);
      ghost var v := Destructed(w, this);
      Links(v.net, other);
      Rebuild(v, other);
    }

    /**
     * `operator=(const linked_ptr &other)`: unless `other` is this handle,
     * the destructor body, then a rebuild as a copy of `other`.
     */
    method CopyAssign(ghost w: World<Handle>, other: Handle)
      requires Valid(w) && this in w.net.ring && other in w.net.ring
      modifies w.net.ring.Keys`next, w.net.ring.Keys`prev, this`data
      ensures Valid(CopyAssigned(w, this, other))
    {
      if other != this {
        Reseat(w, other);
      }
    }

    /**
     * `operator=(linked_ptr &&other)` from another handle: the destructor
     * body, a rebuild as a copy of `other`, then `other.remove()` and
     * `other.data = nullptr`.
     */
    method MoveAssign(ghost w: World<Handle>, other: Handle)
      requires Valid(w) && this in w.net.ring && other in w.net.ring && other != this
      modifies w.net.ring.Keys`next, w.net.ring.Keys`prev, this`data, other`data
      ensures Valid(MoveAssigned(w, this, other))
    {
      Reseat(w, other);
      CopyAssignedSpec(w, this, other);
      ghost var u := CopyAssigned(w, this, other);
      Member(u, other);
      Links(u.net, other);
      other.Vacate(u);
    }

    /**
     * The converting `operator=(linked_ptr<U> const &other)`, guarded as
     * written by `next != other.next && prev != other.prev`.
     */
    method ConvertAssign(ghost w: World<Handle>, other: Handle)
      requires Valid(w) && this in w.net.ring && other in w.net.ring
      modifies w.net.ring.Keys`next, w.net.ring.Keys`prev, this`data
      ensures Valid(ConvertAssigned(w, this, other))
    {
      ConvertAssignedIsCopy(w, this, other);
      assert next == w.net.next[this] && prev == w.net.prev[this];
      assert other.next == w.net.next[other] && other.prev == w.net.prev[other];
      if next != other.next && prev != other.prev {
        Reseat(w, other);
      }
    }

    /**
     * `reset(ptr)`: `delete_if_unique()`, `remove()`, then `data = ptr`;
     * `ptr` must not be owned by any live handle.
     */
    method Reset(ghost w: World<Handle>, ptr: Address)
      requires Valid(w) && this in w.net.ring && ptr !in Owned(w)
      modifies this`data, this`next, this`prev, next`prev, prev`next
      ensures Valid(ResetTo(w, this, ptr))
    {
      Destruct(w);
      DestructedSolo(w, this);
      ghost var v := Destructed(w, this);
      SetData(v.net.ring.Keys, v.net.next, v.net.prev, v.net.ring.Keys - {this}, v.held, ptr);
      AssignValid(v, this, ptr);
    }

    // -------------------------------------------------------------------
    // Swap
    // -------------------------------------------------------------------

    /**
     * `swap(other)`: nothing when the addresses are equal; otherwise the
     * addresses are traded, and then, by the cases of the source, the
     * handles trade places on their rings: nothing more when both are alone;
     * this one linked in after `other` and `other` removed when only this
     * one is alone; the roles reversed when only `other` is; the four link
     * swaps when neither is.
     */
    method Swap(ghost w: World<Handle>, other: Handle)
      requires Valid(w) && this in w.net.ring && other in w.net.ring
      modifies w.net.ring.Keys`next, w.net.ring.Keys`prev, this`data, other`data
      ensures Valid(Swapped(w, this, other))
      decreases if w.net.ring[this] == [this] then 0 else 1
    {
      Member(w, this);
      Member(w, other);
      SwappedSpec(w, this, other);
      if other.data == data {
        return;
      }
      ghost var s := w.net.ring.Keys;
      ghost var traded := Traded(w.held, this, other);
      HoldsLessPair(s, w.held, this, other);
      SwapData(s, w.net.next, w.net.prev, s - {this, other}, w.held, other);
      HoldsTraded(s, w.held, this, other);
      if IsUnique(w) {
        if other.IsUnique(w) {
          SwapSoloValid(w, this, other);
          return;
        }
        TakePlace(w, other);
        return;
      }
      if other.IsUnique(w) {
        SwapData(s, w.net.next, w.net.prev, s - {this, other}, w.held, other);
        HoldsPair(s, w.held, this, other);
        other.Swap(w, this);
        SwappedSymmetric(w, this, other);
        return;
      }
      TradePlaces(w, other);
    }

    /**
     * The middle branch of `swap`, once the addresses are traded: this
     * handle, alone on its ring, is linked in after `other` by the four
     * writes of `insert`, and `other` is removed from its ring.
     */
    method TakePlace(ghost w: World<Handle>, other: Handle)
      requires Inv(w) && Linked(w) && this in w.net.ring && other in w.net.ring
      requires w.net.ring[this] == [this] && w.net.ring[other] != [other]
      requires this in w.held && other in w.held && w.held[this] != w.held[other]
      requires Holds(w.net.ring.Keys, Traded(w.held, this, other))
      modifies w.net.ring.Keys`next, w.net.ring.Keys`prev
      ensures Valid(Swapped(w, this, other))
    {
      ghost var s := w.net.ring.Keys;
      ghost var traded := Traded(w.held, this, other);
      Member(w, this);
      Member(w, other);
      Links(w.net, other);
      Insert(s, w.net.next, w.net.prev, s, traded, other);
      ghost var nx, pv := SplicedNext(w.net.next, this, other), SplicedPrev(w.net.next, w.net.prev, this, other);
      assert other.next == this && other.prev == w.net.prev[other];
      other.Remove(s, nx, pv, s, traded);
      SupplantValid(w, this, other);
    }

    /**
     * The last branch of `swap`, once the addresses are traded: neither
     * handle is alone on its ring, and the four link swaps put each where
     * the other was.
     */
    method TradePlaces(ghost w: World<Handle>, other: Handle)
      requires Inv(w) && Linked(w) && this in w.net.ring && other in w.net.ring
      requires w.net.ring[this] != [this] && w.net.ring[other] != [other]
      requires this in w.held && other in w.held && w.held[this] != w.held[other]
      requires Holds(w.net.ring.Keys, Traded(w.held, this, other))
      modifies w.net.ring.Keys`next, w.net.ring.Keys`prev
      ensures Valid(Swapped(w, this, other))
    {
      CrossReady(w, this, other);
      LinksBack(w.net, this);
      LinksBack(w.net, other);
      Cross(w.net.ring.Keys, w.net.next, w.net.prev, w.net.ring.Keys, Traded(w.held, this, other), other);
      CrossValid(w, this, other);
    }
  }
}
