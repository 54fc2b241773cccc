/** `Spine::Skin`: a named table of attachments keyed by slot index and
    attachment name, and the step that reconciles a skeleton's slots when its
    skin is swapped. */
module Spine {
  import opened SkinTable
  import opened SkinTransition

  class Skin {
    /** The skin's name, fixed at construction. */
    const name: string
    /** The skin's entries. */
    var attachments: Table

    constructor (name: string)
      ensures this.name == name
      ensures attachments == map[]
    {
      this.name := name;
      attachments := map[];
    }

    /** Stores `attachment` for the key (`slotIndex`, `name`), replacing the
        attachment previously stored for that key, if any. */
    method AddAttachment(slotIndex: int, name: string, attachment: Attachment)
      modifies this
      ensures attachments == old(attachments)[AttachmentKey(slotIndex, name) := attachment]
      ensures GetAttachment(slotIndex, name) == Some(attachment)
      ensures forall k :: k != AttachmentKey(slotIndex, name) ==>
        (k in attachments <==> k in old(attachments)) && (k in attachments ==> attachments[k] == old(attachments)[k])
    {
      attachments := attachments[AttachmentKey(slotIndex, name) := attachment];
    }

    /** The attachment stored for (`slotIndex`, `name`), or null (`None`). */
    function GetAttachment(slotIndex: int, name: string): (r: Option<Attachment>)
      reads this
      ensures r == None <==> AttachmentKey(slotIndex, name) !in attachments
      ensures r.Some? ==> r.value == attachments[AttachmentKey(slotIndex, name)]
    {
      var key := AttachmentKey(slotIndex, name);
      if key in attachments then Some(attachments[key]) else None
    }

    /** Appends to `names` the name of every entry for slot `slotIndex`, each
        once, in no particular order. */
    method FindNamesForSlot(slotIndex: int, names: seq<string>) returns (result: seq<string>)
      ensures |names| <= |result| && result[..|names|] == names
      ensures (set n | n in result[|names|..]) == SlotNames(attachments, slotIndex)
      ensures forall i, j :: |names| <= i < j < |result| ==> result[i] != result[j]
      ensures |result| - |names| == |SlotNames(attachments, slotIndex)|
    {
      result := names;
      var remaining := attachments.Keys;
      while remaining != {}
        invariant remaining <= attachments.Keys
        invariant |names| <= |result| && result[..|names|] == names
        invariant forall n :: n in result[|names|..] <==> AttachmentKey(slotIndex, n) in attachments.Keys - remaining
        invariant forall i, j :: |names| <= i < j < |result| ==> result[i] != result[j]
        invariant |result| - |names| == |(set n | n in result[|names|..])|
        decreases remaining
      {
        var key :| key in remaining;
        if key.slotIndex == slotIndex {
          assert key == AttachmentKey(slotIndex, key.name);
          ghost var seen := set n | n in result[|names|..];
          assert key.name !in seen;
          assert (result + [key.name])[|names|..] == result[|names|..] + [key.name];
          result := result + [key.name];
          assert (set n | n in result[|names|..]) == seen + {key.name};
        }
        remaining := remaining - {key};
      }
    }

    /** Appends to `found` the attachment of every entry for slot
        `slotIndex`, in no particular order: each attachment as many times as
        there are names under which the slot stores it. */
    method FindAttachmentsForSlot(slotIndex: int, found: seq<Attachment>) returns (result: seq<Attachment>)
      ensures |found| <= |result| && result[..|found|] == found
      ensures |result| - |found| == |SlotEntries(attachments, slotIndex)|
      ensures forall a :: multiset(result[|found|..])[a] == |SlotKeysHolding(attachments, slotIndex, a)|
    {
      result := found;
      var remaining := attachments.Keys;
      AppendedNoEntries(attachments, slotIndex);
      while remaining != {}
        invariant remaining <= attachments.Keys
        invariant |found| <= |result| && result[..|found|] == found
        invariant AppendedEntries(attachments, slotIndex, remaining, result[|found|..])
        decreases remaining
      {
        var key :| key in remaining;
        ghost var before := result[|found|..];
        if key.slotIndex == slotIndex {
          result := result + [attachments[key]];
          assert result[|found|..] == before + [attachments[key]];
        }
        VisitEntry(attachments, slotIndex, remaining, key, before, result[|found|..]);
        remaining := remaining - {key};
      }
      AppendedAllEntries(attachments, slotIndex, result[|found|..]);
    }

    /** The skin's name. */
    function GetName(): (r: string)
      ensures r == name
    {
      name
    }

    /** The whole table, as the orchestration code iterates it; it agrees
        with `GetAttachment` on every key. */
    function GetAttachments(): (r: Table)
      reads this
      ensures forall k :: k in r <==> GetAttachment(k.slotIndex, k.name).Some?
      ensures forall k :: k in r ==> GetAttachment(k.slotIndex, k.name) == Some(r[k])
    {
      attachments
    }

    /** Called when a skeleton's skin changes from `oldSkin` to this skin: for
        every entry of `oldSkin` whose attachment is currently shown in its
        slot, shows this skin's attachment for the same key instead, if there
        is one. `slots[i]` is the attachment slot `i` shows, if any. The entries of
        `oldSkin` are visited in an unspecified order, returned as `order`. */
    method AttachAll(slots: array<Option<Attachment>>, oldSkin: Skin) returns (ghost order: seq<AttachmentKey>)
      requires forall k :: k in oldSkin.attachments ==> 0 <= k.slotIndex < slots.Length
      modifies slots
      ensures Enumerates(order, oldSkin.attachments.Keys)
      ensures slots[..] == Reconcile(old(slots[..]), order, oldSkin.attachments, attachments)
      ensures forall i :: 0 <= i < slots.Length && NoKeyForSlot(oldSkin.attachments.Keys, i) ==> slots[i] == old(slots[i])
      ensures forall i :: 0 <= i < slots.Length && slots[i] != old(slots[i]) ==>
        exists n :: && AttachmentKey(i, n) in oldSkin.attachments && AttachmentKey(i, n) in attachments
                    && old(slots[i]) == Some(oldSkin.attachments[AttachmentKey(i, n)])
      ensures forall i :: 0 <= i < slots.Length && slots[i] != old(slots[i]) ==>
        exists n :: && AttachmentKey(i, n) in oldSkin.attachments && AttachmentKey(i, n) in attachments
                    && slots[i] == Some(attachments[AttachmentKey(i, n)])
      ensures forall i :: (&& 0 <= i < slots.Length
                           && exists n :: && AttachmentKey(i, n) in oldSkin.attachments && AttachmentKey(i, n) in attachments
                                          && old(slots[i]) == Some(oldSkin.attachments[AttachmentKey(i, n)])) ==>
        exists n :: && AttachmentKey(i, n) in oldSkin.attachments && AttachmentKey(i, n) in attachments
                    && slots[i] == Some(attachments[AttachmentKey(i, n)])
      ensures oldSkin.attachments == attachments ==> slots[..] == old(slots[..])
      ensures NonInterfering(oldSkin.attachments, attachments) ==>
        AppliedOnce(old(slots[..]), slots[..], oldSkin.attachments.Keys, oldSkin.attachments, attachments)
    {
      ghost var s0 := slots[..];
      var remaining := oldSkin.attachments.Keys;
      order := [];
      while remaining != {}
        invariant remaining <= oldSkin.attachments.Keys
        invariant forall i, j :: 0 <= i < j < |order| ==> order[i] != order[j]
        invariant forall k :: k in order <==> k in oldSkin.attachments.Keys - remaining
        invariant slots[..] == Reconcile(s0, order, oldSkin.attachments, attachments)
        decreases remaining
      {
        var key :| key in remaining;
        var slotIndex := key.slotIndex;
        if slots[slotIndex] == Some(oldSkin.attachments[key]) {
          var attachment := GetAttachment(slotIndex, key.name);
          if attachment.Some? {
            slots[slotIndex] := attachment;
          }
        }
        assert key !in order;
        assert (order + [key])[..|order|] == order;
        order := order + [key];
        remaining := remaining - {key};
      }
      forall i | 0 <= i < slots.Length {
        ReconcileSlot(s0, order, oldSkin.attachments, attachments, i);
      }
      if oldSkin.attachments == attachments {
        ReconcileSameSkin(s0, order, attachments);
      }
      if NonInterfering(oldSkin.attachments, attachments) {
        ReconcileAppliesOnce(s0, order, oldSkin.attachments, attachments);
        assert (set k | k in order) == oldSkin.attachments.Keys;
      }
    }
  }
}
