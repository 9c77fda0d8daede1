/**
 * The pending-transfer list of src/libusb.c: a doubly linked list whose head is a
 * sentinel node allocated on the first registration. Nodes are only ever appended;
 * nothing is removed and nothing is de-duplicated.
 */
module Registry {

  /** The identity of a `struct libusb_transfer` (its address). */
  type TransferId = nat

  /**
   * `Unallocated` while the global head pointer is still NULL; `Allocated(entries)`
   * once the sentinel exists, `entries` being the transfers of the nodes after the
   * sentinel in link order.
   */
  datatype Registry = Unallocated | Allocated(entries: seq<TransferId>)

  /** The registered transfers in link order (none before the sentinel exists). */
  function Entries(r: Registry): seq<TransferId> {
    if r.Unallocated? then [] else r.entries
  }

  /** `add_pending_transfer`: create the sentinel if needed, walk to the tail, link a new node. */
  function Register(r: Registry, id: TransferId): (r': Registry)
    ensures r'.Allocated?
    ensures Entries(r') == Entries(r) + [id]
    ensures |Entries(r')| == |Entries(r)| + 1
  {
    match r
    case Unallocated => Allocated([id])
    case Allocated(entries) => Allocated(entries + [id])
  }

  /** The sequence holding `id` exactly `k` times. */
  function Repeat(id: TransferId, k: nat): (s: seq<TransferId>)
    ensures |s| == k
    decreases k
  {
    if k == 0 then [] else [id] + Repeat(id, k - 1)
  }

  /** Successive registrations of `ids`, in order. */
  function RegisterAll(r: Registry, ids: seq<TransferId>): Registry
    decreases |ids|
  {
    if ids == [] then r else RegisterAll(Register(r, ids[0]), ids[1..])
  }

  /**
   * Registering a sequence of transfers appends exactly that sequence after the
   * existing entries: nothing is removed, reordered or de-duplicated.
   */
  lemma {:induction false} RegisterAllAppends(r: Registry, ids: seq<TransferId>)
    ensures Entries(RegisterAll(r, ids)) == Entries(r) + ids
    decreases |ids|
  {
    if ids != [] {
      RegisterAllAppends(Register(r, ids[0]), ids[1..]);
      assert Entries(r) + ids == (Entries(r) + [ids[0]]) + ids[1..];
    }
  }

  /** `k` successive registrations of the same transfer. */
  function RegisterTimes(r: Registry, id: TransferId, k: nat): Registry {
    RegisterAll(r, Repeat(id, k))
  }

  /** After k registrations the transfer has exactly k more entries; every other count is unchanged. */
  lemma RegisterTimesCounts(r: Registry, id: TransferId, k: nat)
    ensures multiset(Entries(RegisterTimes(r, id, k)))[id] == multiset(Entries(r))[id] + k
    ensures forall other :: other != id ==>
              multiset(Entries(RegisterTimes(r, id, k)))[other] == multiset(Entries(r))[other]
  {
    RegisterAllAppends(r, Repeat(id, k));
    assert multiset(Entries(RegisterTimes(r, id, k))) == multiset(Entries(r)) + multiset(Repeat(id, k));
    RepeatCounts(id, k);
  }

  /** `Repeat(id, k)` holds `id` k times and nothing else. */
  lemma {:induction false} RepeatCounts(id: TransferId, k: nat)
    ensures multiset(Repeat(id, k)) == multiset{}[id := k]
    decreases k
  {
    if k > 0 {
      RepeatCounts(id, k - 1);
      assert multiset(Repeat(id, k)) == multiset([id]) + multiset(Repeat(id, k - 1));
    }
  }
}
