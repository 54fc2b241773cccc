/** The value-level vocabulary of a skin: attachment handles, the composite
    (slot index, name) key, and the specification functions over a skin's
    key-to-attachment table that the Skin class and the transition algorithm
    are stated against. */
module SkinTable {

  /** A reference to an attachment (region, mesh, bounding box, ...). Its
      contents are owned elsewhere; a skin only stores and returns references,
      and references are compared by identity, which is all that this type
      offers. */
  type Attachment(==, !new)

  /** A nullable reference: `None` is the null pointer. */
  datatype Option<T> = None | Some(value: T)

  /** The key of a skin entry: a slot index and the attachment's name within
      that slot. Both fields are fixed at construction. */
  datatype AttachmentKey = AttachmentKey(slotIndex: int, name: string)
  {
    /** The key's `operator==`: field-wise comparison, which is exactly
        structural equality of keys. */
    function Equals(other: AttachmentKey): (r: bool)
      ensures r <==> this == other
    {
      slotIndex == other.slotIndex && name == other.name
    }
  }

  /** A skin's table. Being a map, it holds at most one attachment per key. */
  type Table = map<AttachmentKey, Attachment>

  /** The names under which `t` stores an attachment for slot `slot`. */
  function SlotNames(t: Table, slot: int): (r: set<string>)
    ensures forall n :: n in r <==> AttachmentKey(slot, n) in t
  {
    set k | k in t && k.slotIndex == slot :: k.name
  }

  /** The part of `t` whose keys refer to slot `slot`. */
  function SlotEntries(t: Table, slot: int): Table
  {
    map k | k in t && k.slotIndex == slot :: t[k]
  }

  /** The keys of slot `slot` under which `t` stores attachment `a`. */
  function SlotKeysHolding(t: Table, slot: int, a: Attachment): set<AttachmentKey>
  {
    set k | k in t && k.slotIndex == slot && t[k] == a
  }

  /** Visiting one more key `k` of the unvisited keys `remaining` adds one to
      the visited part of `s` exactly when `k` belongs to `s`. */
  lemma VisitedCount(s: set<AttachmentKey>, remaining: set<AttachmentKey>, k: AttachmentKey)
    requires k in remaining
    ensures |s - (remaining - {k})| == |s - remaining| + (if k in s then 1 else 0)
  {
    if k in s {
      assert s - (remaining - {k}) == (s - remaining) + {k};
    } else {
      assert s - (remaining - {k}) == s - remaining;
    }
  }

  /** `appended` holds the attachments of the entries of slot `slot` whose
      keys are not in `remaining`: one per entry, in some order. */
  ghost predicate AppendedEntries(t: Table, slot: int, remaining: set<AttachmentKey>, appended: seq<Attachment>)
  {
    && |appended| == |SlotEntries(t, slot).Keys - remaining|
    && forall a :: multiset(appended)[a] == |SlotKeysHolding(t, slot, a) - remaining|
  }

  /** One step of enumerating the entries of slot `slot`: visiting key `k`
      appends its attachment exactly when `k` belongs to the slot. */
  lemma VisitEntry(t: Table, slot: int, remaining: set<AttachmentKey>, k: AttachmentKey, before: seq<Attachment>, after: seq<Attachment>)
    requires k in remaining && k in t
    requires AppendedEntries(t, slot, remaining, before)
    requires after == if k.slotIndex == slot then before + [t[k]] else before
    ensures AppendedEntries(t, slot, remaining - {k}, after)
  {
    VisitedCount(SlotEntries(t, slot).Keys, remaining, k);
    forall a ensures multiset(after)[a] == |SlotKeysHolding(t, slot, a) - (remaining - {k})| {
      VisitedCount(SlotKeysHolding(t, slot, a), remaining, k);
    }
  }

  /** Once every key is visited, the appended attachments are those of the
      slot's entries. */
  lemma AppendedAllEntries(t: Table, slot: int, appended: seq<Attachment>)
    requires AppendedEntries(t, slot, {}, appended)
    ensures |appended| == |SlotEntries(t, slot)|
    ensures forall a :: multiset(appended)[a] == |SlotKeysHolding(t, slot, a)|
  {
  }

  /** Before any key is visited, nothing is appended. */
  lemma AppendedNoEntries(t: Table, slot: int)
    ensures AppendedEntries(t, slot, t.Keys, [])
  {
  }
}
