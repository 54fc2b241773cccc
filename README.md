# Spine skin registry

A model of `Spine::Skin` from the Spine C++ runtime. A skin is a named table
that maps a key (slot index, attachment name) to an attachment. The skeleton
uses it to choose the attachment a slot shows. When the skeleton's skin
changes, `attachAll` visits the old skin's entries. When a slot shows the old
skin's attachment for a key and the new skin also has that key, the slot
switches to the new skin's attachment. A slot changes only through such a
match on its attachment at the time of the call, although a chain of matches
can carry it on to another key's attachment (see below).

Files:

- `skin_table.dfy`, module `SkinTable`: attachment references, the
  `AttachmentKey` record, the table type, and the specification functions
  about a table (the names and the attachments a slot has).
- `skin_transition.dfy`, module `SkinTransition`: the skin swap as a pure
  function. `Step` is one visit of an old-skin entry. `Reconcile` folds `Step`
  over an order of keys. The lemmas say what the fold does and when the visit
  order does not matter.
- `skin.dfy`, module `Spine`: the class `Skin` with its operations. The
  methods that loop (`FindNamesForSlot`, `FindAttachmentsForSlot`,
  `AttachAll`) go through the table's keys one at a time. Each step picks an
  arbitrary key not yet visited, because the source's `unordered_map` has no
  fixed iteration order.

The model follows the declarations and doc comments of
`spine-cpp/spine-cpp/include/spine/Skin.h`; the bodies in `Skin.cpp` are not
modelled. `attachAll` follows the comment at
Skin.h:77. It visits every entry ((i, n) → a) of the old skin. If slot i
currently shows a, it looks up (i, n) in this skin. If this skin has an
attachment there, slot i now shows it; if not, slot i is not touched. The
match is on attachment identity, as the comment says. The slot does not need
to remember the name its attachment was registered under: that name comes
from the old skin's key.

The slots are updated one visit at a time, and a later visit sees the earlier
writes. So in general the result depends on the visit order, and a second
`attachAll` with the same skins can change slots again. `ReconcileNotIdempotent`
gives a concrete case. `NonInterfering` is a checkable condition under which
neither problem occurs:

- within a slot, the old skin's attachments are distinct;
- the new skin never stores, under one name, the old skin's attachment for a
  different name of the same slot.

Under it the result is "every matching entry applied at once", whatever the
order; `ReconcileOrderFree` proves that reconciling twice equals reconciling
once. Swapping a skin for itself never changes anything (`ReconcileSameSkin`).

## Model

| member | source | states |
|---|---|---|
| `SkinTable.AttachmentKey.Equals` | spine-cpp/spine-cpp/include/spine/Skin.h:80-89 | key `operator==` holds exactly when the two keys are equal, that is when slot index and name both agree |
| `SkinTable.SlotNames` | spine-cpp/spine-cpp/include/spine/Skin.h:60-63 | a name is among a slot's names exactly when the table has an entry for (slot, name) |
| `Spine.Skin.constructor` | spine-cpp/spine-cpp/include/spine/Skin.h:51 | the new skin has the given name and an empty table |
| `Spine.Skin.AddAttachment` | spine-cpp/spine-cpp/include/spine/Skin.h:53-55 | the table afterwards is the old table with (slotIndex, name) set to the attachment, replacing any previous value; a lookup of that key returns it; every other key keeps its presence and its value; the name is a `const` field and cannot change |
| `Spine.Skin.GetAttachment` | spine-cpp/spine-cpp/include/spine/Skin.h:57-58 | returns null exactly when the key has no entry, and otherwise the stored attachment; it only reads the skin |
| `Spine.Skin.FindNamesForSlot` | spine-cpp/spine-cpp/include/spine/Skin.h:60-63 | the passed names stay as a prefix; the set of appended names is `SlotNames` of the slot, no name is appended twice, and as many names are appended as the slot has |
| `Spine.Skin.FindAttachmentsForSlot` | spine-cpp/spine-cpp/include/spine/Skin.h:65-68 | the passed attachments stay as a prefix; one attachment is appended per entry of the slot, and each attachment occurs as often as the number of the slot's keys that hold it |
| `Spine.Skin.GetName` | spine-cpp/spine-cpp/include/spine/Skin.h:70 | returns the `const` name given to the constructor |
| `Spine.Skin.GetAttachments` | spine-cpp/spine-cpp/include/spine/Skin.h:71 | the whole table; a key is in it exactly when `GetAttachment` finds it, with the same attachment |
| `Spine.Skin.AttachAll` | spine-cpp/spine-cpp/include/spine/Skin.h:77-78 | visits every old-skin key once; the slots become `Reconcile` of the old slots over that order; a slot that no old-skin key names is unchanged; a slot changes only if, at the call, it showed the old skin's attachment for some (i, n) that this skin also has, and it then shows this skin's (non-null) attachment for such a key; conversely, a slot that at the call shows the old skin's attachment for some (i, n) that this skin also has ends up showing this skin's attachment for such a key; swapping a skin for itself changes no slot; for non-interfering skins the result is every matching entry applied at once; only the slots are modified |
| `SkinTransition.Step` | spine-cpp/spine-cpp/include/spine/Skin.h:77-78 | visiting one old-skin entry: if its slot shows the old attachment and this skin has the key, the slot shows this skin's attachment; every other slot, and the slot itself otherwise, is unchanged |
| `SkinTransition.Reconcile` | spine-cpp/spine-cpp/include/spine/Skin.h:77-78 | visiting the old-skin entries in order keeps the number of slots |
| `SkinTransition.ReconcileUntouched` | spine-cpp/spine-cpp/include/spine/Skin.h:77-78 | a slot that no visited key names keeps its attachment |
| `SkinTransition.ReconcileSource` | spine-cpp/spine-cpp/include/spine/Skin.h:77-78 | each slot ends up unchanged, or shows this skin's attachment for a visited key of that slot that both skins have |
| `SkinTransition.ReconcileOnlyFiring` | spine-cpp/spine-cpp/include/spine/Skin.h:77-78 | a slot differs from its value before the visits only if some visited key of that slot matched it then: the slot showed the old skin's attachment for the key and this skin has the key |
| `SkinTransition.ReconcileSlot` | spine-cpp/spine-cpp/include/spine/Skin.h:77-78 | per slot: unchanged when no old-skin key names it; if changed, it showed the old skin's attachment for some name both skins have, and it now shows this skin's attachment for such a name; if, before the visits, it showed the old skin's attachment for a visited name both skins have, it ends up showing this skin's attachment for such a name |
| `SkinTransition.ReconcileFiredEndsNew` | spine-cpp/spine-cpp/include/spine/Skin.h:77-78 | a slot that some visited key matched before the visits ends up showing this skin's attachment for a visited key of that slot that both skins have |
| `SkinTransition.ReconcileSameSkin` | spine-cpp/spine-cpp/include/spine/Skin.h:77-78 | if the old and new tables are the same, no slot changes |
| `SkinTransition.ReconcileAppliesOnce` | spine-cpp/spine-cpp/include/spine/Skin.h:77-78 | for non-interfering skins, visiting distinct keys one after another equals applying every matching entry to the original slots at once |
| `SkinTransition.AppliedOnceUnique` | spine-cpp/spine-cpp/include/spine/Skin.h:77-78 | for non-interfering skins, applying all matching entries at once has one result |
| `SkinTransition.AppliedOnceIdempotent` | spine-cpp/spine-cpp/include/spine/Skin.h:77-78 | for non-interfering skins, applying all matching entries again to that result changes nothing |
| `SkinTransition.ReconcileOrderFree` | spine-cpp/spine-cpp/include/spine/Skin.h:77-78 | for non-interfering skins, two visit orders of the old skin give the same slots, and reconciling twice equals reconciling once |
| `SkinTransition.ReconcileNotIdempotent` | spine-cpp/spine-cpp/include/spine/Skin.h:77-78 | without non-interference, a second pass in the same order can change the slots again: old {x→a, y→b}, new {x→b, y→c}, slot showing a, visit order y, x |

## Findings

| source | as written | input that shows it | evidently intended | confidence | as-written member | corrected member |
|---|---|---|---|---|---|---|
| spine-cpp/spine-cpp/include/spine/Skin.h:77-78 | each visit of an old-skin entry sees the writes of earlier visits, so a slot can be matched again after it changed, and the result depends on the visit order | old skin {(0,"x")→a, (0,"y")→b}, new skin {(0,"x")→b, (0,"y")→c}, slot 0 showing a, visit order y then x: one call leaves b, a second call leaves c | a skin swap whose result is independent of the visit order, so that a second call with the same skins changes nothing | not executed; the loop shape is inferred from the comment at Skin.h:77, since no body is visible | `SkinTransition.ReconcileNotIdempotent` | `SkinTransition.ReconcileOrderFree` (under `NonInterfering`) |

## Left out

- `std::hash<AttachmentKey>` (Skin.h:93-106): the table is a mathematical map keyed by structural equality. The hash values of `std::hash<int>` and `std::hash<string>` are not visible.
- `operator<<` (Skin.h:91): debug output.
- `Spine.Skin.AttachAll`: it requires every old-skin key's slot index to be a slot of the skeleton. The header does not say what happens when an old-skin key names a slot the skeleton lacks, and the model treats that as a caller error.
- `Spine.Skin.AttachAll`: the skeleton is reduced to its slots, an array that holds, for each slot index, the attachment the slot shows, or none. The rest of `Skeleton` is outside this model.
- `Spine.Skin.AttachAll`: it returns the visit order as a ghost value. Its contract fixes the result as a function of that order, because the order of an `unordered_map` is unspecified.
- `Spine.Skin.FindNamesForSlot` and `Spine.Skin.FindAttachmentsForSlot`: the caller's `std::vector&` is a value passed in, and the method returns it with the matches appended. Aliasing of that vector with other state is outside this model.
- `Spine.Skin.GetAttachments`: it returns the table as a value. Changes made by callers through the mutable reference the source returns are outside this model.
- `Spine.Skin.AddAttachment`: the attachment parameter cannot be null. Storing a null pointer is a caller error, not a value the table holds.
- Attachments are references compared by identity; what they contain and how long they live is owned outside the skin.
- Slot indices are unbounded integers. The source's `int` is never used in arithmetic here, so its width does not matter.
