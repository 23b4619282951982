# linked_ptr: an intrusive shared-ownership pointer, modelled in Dafny

`smart_ptr::linked_ptr<T>` (`linked_ptr.hpp`) is a shared-ownership smart
pointer with no reference counter. Every handle is also a node
(`details::super_linked_ptr`) with `next` and `prev` links. All handles
that own the same pointee are threaded into one circular doubly-linked
ring. A handle knows it is the last owner when it is linked to itself.

The model has two layers.

* **Values.** A ghost `World` records three things:
  * the rings, as a map from each live handle to the sequence of its ring
    in `next` order, with the `next` and `prev` links as maps;
  * the address each handle holds, with `0` standing for `nullptr`;
  * the log of addresses `delete` has been applied to, oldest first.

  Every operation of the source is a function from the world before to
  the world after. The constructors, assignments, `reset` and the
  destructor are composed of the same steps, in the same order, as the
  C++ code. For `swap` the world function is the exchange of the two
  handles (`Ownership.Trade`). The branches of `Handle.Swap` are proved
  to compute it (`Rings.SupplantIsExchange`, `Rings.CrossIsExchange`).
  Lemmas state what each operation does and prove that
  it keeps the ownership invariant `Inv`:
  * the rings are well-formed circular lists with `n.next.prev == n` and
    `n.prev.next == n`;
  * they partition the live handles;
  * all members of a ring hold the same address;
  * two handles holding the same non-null address are on one ring.
* **Handles.** `class Handle` has mutable `next`, `prev` and `data` fields.
  Its methods perform the field writes of the C++ members, statement by
  statement:
  * `insert` and `remove`;
  * the four `std::swap`s of `swap`;
  * the destructor body followed by re-construction in the assignments.

  Each method takes the ghost world before the call. It is proved to leave
  the fields of every live handle agreeing with the world that the
  value-level operation computes (`Valid(F(w, ...))`).

Modules, one per file:

| module | contents |
|---|---|
| `RingSeq` (`ring_seq.dfy`) | index arithmetic on sequences used as rings |
| `Rings` (`rings.dfy`) | rings of nodes and the link edits: `insert` (`Splice`), `remove` (`Detach`), and the exchange of two nodes performed by `swap` (`Exchange`) |
| `Ownership` (`ownership.dfy`) | the world, the ownership invariant, and the elementary steps |
| `Lifecycle` (`lifecycle.dfy`) | each constructor, assignment, `reset`, `swap` and the destructor as a function on worlds, with its specification lemma |
| `LinkedPtr` (`linked_ptr.dfy`) | the `Handle` class and its methods on the fields |

Two behaviours of the code, as the model states them:

- The converting assignment's guard `next != other.next && prev != other.prev` (linked_ptr.hpp:68) is not a same-ring test. On well-formed rings it fails only when `other` is `*this` (`Ownership.ConvertGuardIff`). So a distinct handle on the same ring is destroyed and rebuilt.
- In the last `swap` branch (linked_ptr.hpp:117-120) each handle takes the other's former place on its ring (`Rings.CrossIsExchange`). It does not keep its own ring.

## Model

| member | source | states |
|---|---|---|
| Rings.InsertSpec | linked_ptr.hpp:17-22 | `insert(other)` on a node alone on its ring: afterwards `other.next` is the node and the node's `prev` is `other`. The node's `next` is `other`'s old successor, whose `prev` is the node. The rings stay well formed, and `other`'s ring grows by exactly the node. |
| Rings.SplicedPartitioned | linked_ptr.hpp:17-22 | `insert` of a node alone on its ring keeps the nodes partitioned into rings. The node was not on `other`'s ring before. |
| LinkedPtr.Handle.Insert | linked_ptr.hpp:17-22 | The four field writes of `insert` leave every handle's `next`/`prev` equal to the spliced links. No `data` field changes. |
| Rings.RemoveSpec | linked_ptr.hpp:24-28 | After `remove()` the node is alone on its ring and linked to itself both ways. Its old neighbours are linked to each other, and the rings stay well formed. On a node already alone, nothing changes. |
| Rings.DetachedVacates | linked_ptr.hpp:24-28 | After `remove()` on a node, every other node's ring is its old ring in the same order, less that node. |
| LinkedPtr.Handle.Remove | linked_ptr.hpp:24-28 | The three writes of `remove` leave every handle's links equal to the detached links, with the node linked to itself. No `data` field changes. |
| LinkedPtr.Handle.constructor | linked_ptr.hpp:36 | `super_linked_ptr()` with `data(ptr)`: the new handle is linked to itself and holds `ptr`. |
| LinkedPtr.Handle.Make | linked_ptr.hpp:75-78 | The raw-pointer constructors, same-type and converting: the new handle is not yet live, and the fields agree with the world in which it is alone on a new ring holding `ptr`. |
| Ownership.FreshInv | linked_ptr.hpp:36 | A new handle alone on its ring, holding an address no live handle owns, keeps the invariant. The owned addresses grow by that address unless it is null. |
| LinkedPtr.Handle.CopyOf | linked_ptr.hpp:38-40 | Copy construction on the fields: the new handle holds `other`'s address and is linked in after `other`, and the fields agree with the copy-constructed world. The converting copy constructor (lines 80-85) is the same method: it assigns `data` before `insert`, and the two steps touch different fields. |
| LinkedPtr.Handle.Attach | linked_ptr.hpp:39 | `insert(other)` on a new handle linked to itself that already holds `other`'s address: the fields agree with the copy-constructed world. |
| LinkedPtr.Handle.Join | linked_ptr.hpp:39 | `insert(other)` on a handle alone on its ring, holding `other`'s address: the fields agree with the world in which it has joined `other`'s ring. |
| Lifecycle.CopyConstructedSpec | linked_ptr.hpp:38-40 | The copy holds `other`'s address and sits right after `other`. `other`'s ring grows by exactly the copy. No other ring, no address and no deletion changes. |
| LinkedPtr.Handle.MoveFrom | linked_ptr.hpp:42-47 | Move construction on the fields: `insert(other)`, `data = other.data`, `other.remove()`, `other.data = nullptr`. The fields agree with the move-constructed world. |
| Lifecycle.MoveConstructedSpec | linked_ptr.hpp:42-47 | The new handle takes `other`'s address and `other`'s place in its ring, so the ring keeps its size. `other` is left alone holding null. Nothing is deleted. |
| LinkedPtr.Handle.Enlist | linked_ptr.hpp:43-44 | `insert(other); data = other.data` on a new handle linked to itself gives the copy-constructed world, with `other` still live. |
| LinkedPtr.Handle.Adopt | linked_ptr.hpp:43-44 | `insert(other); data = other.data` on a handle alone on its ring: the fields agree with the world in which it has joined `other`'s ring holding `other`'s address. |
| LinkedPtr.Handle.Vacate | linked_ptr.hpp:45-46 | `other.remove(); other.data = nullptr` on the fields gives the world in which `other` has left its ring holding null. |
| LinkedPtr.Handle.CopyAssign | linked_ptr.hpp:49-55 | Copy assignment on the fields, guarded by `&other != this`. The fields agree with the copy-assigned world. |
| Lifecycle.CopyAssignedSpec | linked_ptr.hpp:49-55 | Self-assignment changes nothing. Assignment from another handle: `this` holds `other`'s address and sits right after `other`. `other`'s ring is exactly its old ring, in order, less `this` if it was there, with `this` spliced in after `other`. Every other handle keeps its address. Every ring away from `other`'s keeps its members in order, less `this`, so `this`'s old ring-mates stay together and rings touching neither handle are unchanged. The old address is deleted exactly when `this` was its last owner. |
| Lifecycle.CopyAssignedPlace | linked_ptr.hpp:49-55 | After assignment from another handle, `other`'s ring is its old ring, less `this` if it was there, with `this` spliced in right after `other`. |
| Lifecycle.CopyAssignedElsewhere | linked_ptr.hpp:49-55 | After assignment from another handle, every handle off `other`'s ring, other than `this`, keeps its ring in order, less `this`. |
| LinkedPtr.Handle.Reseat | linked_ptr.hpp:51-52 | `this->~linked_ptr(); new (this) linked_ptr(other)` as two ordered steps on the fields gives the copy-assigned world. |
| LinkedPtr.Handle.Rebuild | linked_ptr.hpp:52 | `new (this) linked_ptr(other)` on a handle the destructor body left alone and null: the fields agree with the world in which it has joined `other`'s ring holding `other`'s address. |
| LinkedPtr.Handle.Init | linked_ptr.hpp:38 | `super_linked_ptr()` and `data(p)`, run again by placement `new` on a handle already linked to itself: no link changes, `data` becomes `p`, and no other handle's address changes. |
| LinkedPtr.Handle.Renew | linked_ptr.hpp:52 | The placement `new` of the assignments, once the destructor body has run: the fields agree with the copy-assigned world. |
| LinkedPtr.Handle.MoveAssign | linked_ptr.hpp:57-63 | Move assignment from another handle on the fields: the destructor body, re-construction as a copy, then `other.remove()` and `other.data = nullptr`. |
| Lifecycle.MoveAssignedSpec | linked_ptr.hpp:57-63 | `this` holds `other`'s address in `other`'s old place on `other`'s old ring (less `this`, if it was there), so that ring keeps its order. `other` is left alone holding null. Every other handle keeps its address. Every ring away from `other`'s keeps its members in order, less `this`. The old address of `this` is deleted exactly when `this` was its last owner. |
| Lifecycle.MoveAssignedPlace | linked_ptr.hpp:57-63 | After move assignment, `this` sits in `other`'s old place on `other`'s old ring, less `this`. Every ring away from `other`'s is as it was, less `this`. |
| LinkedPtr.Handle.ConvertAssign | linked_ptr.hpp:65-73 | The converting assignment on the fields, guarded as written by `next != other.next && prev != other.prev`. |
| Lifecycle.ConvertAssignedIsCopy | linked_ptr.hpp:68 | On well-formed rings the guard fails exactly when `other` is `this`, so the converting assignment does what the copy assignment does. |
| Ownership.ConvertGuardIff | linked_ptr.hpp:68 | `next != other.next && prev != other.prev` holds exactly when the two handles differ, because the links are injective. |
| LinkedPtr.Handle.Reset | linked_ptr.hpp:87-91 | `delete_if_unique(); remove(); data = ptr` on the fields gives the reset world. |
| LinkedPtr.Handle.SetData | linked_ptr.hpp:90 | `data = p`: no link changes, and no other handle's address changes. |
| Lifecycle.ResetSpec | linked_ptr.hpp:87-91 | After `reset(p)` the handle is alone on its ring holding `p`. Its old address is deleted exactly when it was the last owner. Every other handle keeps its address and its ring, in the same order, less the handle. |
| LinkedPtr.Handle.Bool | linked_ptr.hpp:93-95 | `operator bool` is true exactly when the handle holds an address the live handles own, that is, a non-null one. |
| LinkedPtr.Handle.Swap | linked_ptr.hpp:97-121 | `swap` on the fields, by the four branches of the source, including the recursive `other.swap(*this)`. The fields agree with the swapped world. |
| Lifecycle.SwappedSpec | linked_ptr.hpp:97-121 | Equal addresses: nothing changes. Otherwise the two handles trade addresses and ring positions, so each ring keeps its size. Every ring still holds exactly the handles sharing one address, and nothing is deleted. Every ring holding neither handle is unchanged. When both handles are alone, no link changes. |
| Lifecycle.SwappedSymmetric | linked_ptr.hpp:112-116 | `a.swap(b)` and `b.swap(a)` give the same world. This justifies the third branch handing over to `other.swap(*this)`. |
| Rings.ExchangeSolo | linked_ptr.hpp:101-104 | Exchanging two nodes that are each alone on a ring changes no link. |
| LinkedPtr.Handle.TakePlace | linked_ptr.hpp:105-109 | The second branch on the fields: link this solitary handle in after `other`, then `other.remove()`. The fields agree with the swapped world. |
| Rings.SupplantIsExchange | linked_ptr.hpp:105-109 | Linking a solitary `a` in after `b` and then removing `b` gives every node exactly the links of the exchange of `a` and `b`. |
| LinkedPtr.Handle.SwapData | linked_ptr.hpp:100 | `swap(data, other.data)` exchanges the two addresses and changes no link. |
| LinkedPtr.Handle.CrossNeighbours | linked_ptr.hpp:117-118 | The first two `std::swap`s: the neighbours of the two handles trade the links that point back at them, and nothing else changes. |
| LinkedPtr.Handle.CrossOwn | linked_ptr.hpp:119-120 | The last two `std::swap`s: the two handles trade their own `next` and `prev`, and nothing else changes. |
| LinkedPtr.Handle.Cross | linked_ptr.hpp:117-120 | The four `std::swap`s of the last branch leave every handle's links equal to the crossed links. |
| LinkedPtr.Handle.TradePlaces | linked_ptr.hpp:117-120 | The last `swap` branch, once the addresses are traded: neither handle alone, the four link swaps leave the fields agreeing with the swapped world. |
| Rings.CrossIsExchange | linked_ptr.hpp:117-120 | For two nodes neither alone nor adjacent, the four swaps give every node exactly the links of the exchange of the two nodes. |
| Rings.ExchangedElsewhere | linked_ptr.hpp:117-120 | Exchanging two nodes leaves every ring that holds neither of them exactly as it was. |
| Lifecycle.SwappedElsewhere | linked_ptr.hpp:97-121 | When the addresses differ, `swap` leaves every ring that holds neither handle exactly as it was. |
| Rings.ExchangedPartitioned | linked_ptr.hpp:117-120 | Exchanging two nodes, as the last two `swap` branches do, keeps the nodes partitioned into rings, each node on its own ring. |
| Ownership.TradeAgree | linked_ptr.hpp:97-121 | After `swap` trades the two handles' places and addresses, all members of each ring still hold one address. |
| Ownership.TradeExclusive | linked_ptr.hpp:97-121 | After `swap` trades places and addresses, two handles sharing a non-null address are still on one ring. |
| LinkedPtr.CrossReady | linked_ptr.hpp:117-120 | Two handles with different addresses, neither alone, are distinct, not adjacent, and have distinct neighbours, so the four swaps do not overlap. |
| LinkedPtr.Handle.Unique | linked_ptr.hpp:123-125 | `unique()` is true exactly when the handle is the last live owner of a non-null address. |
| Ownership.UniqueIffLastOwner | linked_ptr.hpp:123-125 | Being alone on one's ring with a non-null address is exactly holding an address no other live handle holds. |
| LinkedPtr.Handle.Get | linked_ptr.hpp:127-129 | `get()` is the address the world gives the handle, and it is null or owned by the live handles. |
| LinkedPtr.Handle.Equals | linked_ptr.hpp:139-142 | `==` is true exactly when the addresses are equal. Two handles of one ring are always equal, and two equal non-null handles are on one ring. |
| LinkedPtr.Handle.Less | linked_ptr.hpp:144-147 | `<` compares the addresses. A handle is never less than a handle of its own ring, nor than a null one. |
| LinkedPtr.Handle.NotEquals | linked_ptr.hpp:149-152 | `!=` is true exactly when the addresses differ, and then the handles are on different rings. |
| Ownership.Sharing | linked_ptr.hpp:139-152 | Handles on one ring hold one address. Handles holding one non-null address are on one ring. |
| LinkedPtr.Handle.Destroy | linked_ptr.hpp:154-157 | The destructor on the fields: `delete_if_unique(); remove()`, after which the handle is no longer live. |
| LinkedPtr.Handle.Destruct | linked_ptr.hpp:155-156 | The destructor body on the fields: every live handle but this one agrees with the destructed world, in which this handle is alone. |
| Lifecycle.DestroyedSpec | linked_ptr.hpp:154-157 | After the destructor the handle is gone and the invariant holds. Its address is deleted exactly when it was the last owner. Every other handle keeps its address and its ring, in the same order, less the handle. |
| Lifecycle.DestructedSpec | linked_ptr.hpp:154-157 | The destructor body leaves the handle alone on its ring, with the deletion and the other handles as for `DestroyedSpec`. |
| LinkedPtr.Handle.DeleteIfUnique | linked_ptr.hpp:162-168 | `delete_if_unique()` on the fields gives the world in which the last owner has deleted its address and holds null. |
| Ownership.DeleteIfUniqueInv | linked_ptr.hpp:162-168 | The invariant is kept. The address is logged as deleted, and set to null, exactly when the handle is the last owner of a non-null address. The owned addresses lose exactly what is deleted. |
| Ownership.SoloReleased | linked_ptr.hpp:162-172 | A handle alone on its ring is the last owner exactly of its own address, unless that address is null: that is what `delete_if_unique` deletes. |
| Lifecycle.LastOwnerDeletes | linked_ptr.hpp:162-168 | For a handle and one copy of it: destroying the copy deletes nothing, and destroying the original afterwards deletes the address exactly once. |
| LinkedPtr.Handle.IsUnique | linked_ptr.hpp:170-172 | `is_unique()`, linked to itself both ways, is true exactly when the handle is alone on its ring. |
| Rings.SoloIff | linked_ptr.hpp:170-172 | A node is alone on its ring exactly when it is its own successor, and exactly when it is its own predecessor. |

## Left out

- Dereference (`operator*`, `operator->`, linked_ptr.hpp:131-137): it reads the pointee, which the model does not have. Dereferencing null is undefined behaviour with no check in the source.
- `make_linked` (linked_ptr.hpp:175-178): it only allocates and forwards constructor arguments, then calls the raw-pointer constructor, which is modelled.
- Converting construction and assignment: the model assumes that `static_cast<T*>(other.data)` (linked_ptr.hpp:83) yields the same address. A cast that adjusts the address, such as derived-to-base under multiple inheritance, would put on `other`'s ring a handle holding a different address. `Ownership.Sharing` and `LinkedPtr.Handle.Equals` would then not hold, and `delete` would run through the adjusted pointer.
- Type machinery: template conversions, `static_assert(std::is_convertible_v<...>)` and `static_assert(sizeof(T) != 0)` (lines 67, 77, 82, 164) are compile-time. One address type stands for every `T*`, so the converting constructors and the converting assignment act on the same `Handle` class.
- Deallocation: `delete data` is modelled as appending the address to the world's `freed` log. The pointee's destructor and the heap are not modelled.
- Placement new and the explicit destructor call: the assignments are modelled as their two ordered steps, the destructor body then the constructor body, on the same object.
- Return values: the `*this` returned by the assignment operators is not modelled.
- Concurrency: the source is single-threaded and has no atomics.
- LinkedPtr.Handle.Less: addresses are natural numbers, so `<` is a total order on them. Built-in `<` on unrelated C++ pointers has an unspecified result; the model fixes one ordering.
- LinkedPtr.Handle.MoveAssign: requires `other != this`. Self-move-assignment is unguarded in the source (lines 57-63), and its outcome is left unspecified rather than guessed.
- LinkedPtr.Handle.Make: requires that `ptr` is not already owned by a live handle. Two rings owning one pointee would both delete it; that misuse is a caller obligation.
- LinkedPtr.Handle.Reset: requires that `ptr` is not already owned by a live handle (for example `p.reset(p.get())` by the last owner), for the same reason.
- LinkedPtr.Handle.MoveFrom: the new handle's `data`, uninitialised until `data = other.data`, starts as null in the model.
- LinkedPtr.Handle.constructor: construction is split in two. A world-free `constructor` performs `super_linked_ptr()` and `data(ptr)`. Static methods (`Make`, `CopyOf`, `MoveFrom`) take the ghost world, allocate with it, and run the rest of the constructor body.
- LinkedPtr.Handle.Destruct: after the destructor body the handle's `data` is dead storage. The model does not constrain it, and the world records null for it.
- LinkedPtr.Handle.CopyAssign: the `modifies` frame names the links of every live handle rather than the four to eight fields actually written. `MoveAssign`, `ConvertAssign`, `Reseat` and `Swap` have the same coarse frame.
- LinkedPtr.Handle.TakePlace: the four writes of the second `swap` branch (lines 105-108) are modelled by `Insert`. `Insert` makes the same writes, with `other.next = this` and `this->prev = &other` in the opposite order; these two writes go to different objects.
