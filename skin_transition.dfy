/** The skin-swap reconciliation of `Skin::attachAll`, on values. The slots of
    a skeleton are a sequence of optional attachments; the old skin's entries
    are visited in some order, and each visit applies `Step`. `Reconcile` is
    the state after visiting a given order of keys. */
module SkinTransition {
  import opened SkinTable

  /** Visiting old-skin entry `k` changes the slots: its slot currently shows
      the old skin's attachment for `k`, and this (new) skin has an
      attachment for the same key. */
  predicate Fires(slots: seq<Option<Attachment>>, k: AttachmentKey, oldT: Table, newT: Table)
  {
    && k in oldT
    && 0 <= k.slotIndex < |slots|
    && slots[k.slotIndex] == Some(oldT[k])
    && k in newT
  }

  /** One visit: attach this skin's attachment for `k` if `k` fires. */
  function Step(slots: seq<Option<Attachment>>, k: AttachmentKey, oldT: Table, newT: Table): (r: seq<Option<Attachment>>)
    ensures |r| == |slots|
    ensures Fires(slots, k, oldT, newT) ==> r[k.slotIndex] == Some(newT[k])
    ensures forall i :: 0 <= i < |slots| && (i != k.slotIndex || !Fires(slots, k, oldT, newT)) ==> r[i] == slots[i]
  {
    if Fires(slots, k, oldT, newT) then slots[k.slotIndex := Some(newT[k])] else slots
  }

  /** The slots after visiting the old-skin keys of `order`, first to last. */
  function Reconcile(slots: seq<Option<Attachment>>, order: seq<AttachmentKey>, oldT: Table, newT: Table): (r: seq<Option<Attachment>>)
    ensures |r| == |slots|
    decreases |order|
  {
    if order == [] then slots
    else Step(Reconcile(slots, order[..|order| - 1], oldT, newT), order[|order| - 1], oldT, newT)
  }

  /** `order` lists every key of `keys` exactly once. */
  ghost predicate Enumerates(order: seq<AttachmentKey>, keys: set<AttachmentKey>)
  {
    && (forall i, j :: 0 <= i < j < |order| ==> order[i] != order[j])
    && (forall k :: k in order <==> k in keys)
  }

  /** No key of `keys` names slot `i`. */
  ghost predicate NoKeyForSlot(keys: set<AttachmentKey>, i: int)
  {
    forall k :: k in keys ==> k.slotIndex != i
  }

  /** Two skins do not interfere when, within every slot, the old skin's
      attachments are pairwise distinct, and no attachment the new skin has
      for one name is the old skin's attachment for another name. Then at
      most one old entry can match a slot, and attaching the new skin never
      makes a second old entry match. */
  ghost predicate NonInterfering(oldT: Table, newT: Table)
  {
    && (forall k1, k2 :: k1 in oldT && k2 in oldT && k1.slotIndex == k2.slotIndex && k1 != k2 ==> oldT[k1] != oldT[k2])
    && (forall k1, k2 :: k1 in oldT && k2 in newT && k1.slotIndex == k2.slotIndex && k1 != k2 ==> oldT[k1] != newT[k2])
  }

  /** `r` is `s0` with every entry of `keys` that fires on `s0` applied, all at
      once, and every other slot left as it was. */
  ghost predicate AppliedOnce(s0: seq<Option<Attachment>>, r: seq<Option<Attachment>>, keys: set<AttachmentKey>, oldT: Table, newT: Table)
  {
    && |r| == |s0|
    && (forall k :: k in keys && Fires(s0, k, oldT, newT) ==> r[k.slotIndex] == Some(newT[k]))
    && (forall i :: 0 <= i < |s0| && (forall k :: k in keys && k.slotIndex == i ==> !Fires(s0, k, oldT, newT)) ==> r[i] == s0[i])
  }

  /** A slot that no visited key names keeps its attachment. */
  lemma {:induction false} ReconcileUntouched(slots: seq<Option<Attachment>>, order: seq<AttachmentKey>, oldT: Table, newT: Table, i: int)
    requires 0 <= i < |slots|
    requires forall k :: k in order ==> k.slotIndex != i
    ensures Reconcile(slots, order, oldT, newT)[i] == slots[i]
    decreases |order|
  {
    if order != [] {
      var prefix := order[..|order| - 1];
      assert forall k :: k in prefix ==> k in order;
      ReconcileUntouched(slots, prefix, oldT, newT, i);
    }
  }

  /** Every slot ends up either as it was, or showing this skin's attachment
      for a key of that slot shared by both skins and visited in `order`. */
  lemma {:induction false} ReconcileSource(slots: seq<Option<Attachment>>, order: seq<AttachmentKey>, oldT: Table, newT: Table, i: int)
    requires 0 <= i < |slots|
    ensures var r := Reconcile(slots, order, oldT, newT);
      || r[i] == slots[i]
      || exists k :: k in order && k.slotIndex == i && k in oldT && k in newT && r[i] == Some(newT[k])
    decreases |order|
  {
    if order != [] {
      var prefix := order[..|order| - 1];
      var last := order[|order| - 1];
      ReconcileSource(slots, prefix, oldT, newT, i);
      var p := Reconcile(slots, prefix, oldT, newT);
      if Fires(p, last, oldT, newT) && last.slotIndex == i {
        assert last in order;
      } else {
        assert Reconcile(slots, order, oldT, newT)[i] == p[i];
        assert forall k :: k in prefix ==> k in order;
      }
    }
  }

  /** A slot changes only if, in the slots as they were before any visit,
      some visited key of that slot fires: the slot showed the old skin's
      attachment for that key and this skin has the key. */
  lemma {:induction false} ReconcileOnlyFiring(s0: seq<Option<Attachment>>, order: seq<AttachmentKey>, oldT: Table, newT: Table, i: int)
    requires 0 <= i < |s0|
    ensures Reconcile(s0, order, oldT, newT)[i] != s0[i] ==>
      exists k :: k in order && k.slotIndex == i && Fires(s0, k, oldT, newT)
    decreases |order|
  {
    if order != [] {
      var prefix := order[..|order| - 1];
      var last := order[|order| - 1];
      ReconcileOnlyFiring(s0, prefix, oldT, newT, i);
      var p := Reconcile(s0, prefix, oldT, newT);
      assert forall k :: k in prefix ==> k in order;
      if p[i] == s0[i] && Reconcile(s0, order, oldT, newT)[i] != s0[i] {
        assert Fires(p, last, oldT, newT) && last.slotIndex == i;
        assert Fires(s0, last, oldT, newT);
        assert last in order;
      }
    }
  }

  /** A slot that some visited key matches before any visit ends up showing
      this skin's attachment for a visited key of that slot: the first visit
      of a matching key attaches one, and every later change attaches
      another. */
  lemma {:induction false} ReconcileFiredEndsNew(s0: seq<Option<Attachment>>, order: seq<AttachmentKey>, oldT: Table, newT: Table, i: int)
    requires 0 <= i < |s0|
    requires exists k :: k in order && k.slotIndex == i && Fires(s0, k, oldT, newT)
    ensures exists k :: && k in order && k.slotIndex == i && k in oldT && k in newT
                        && Reconcile(s0, order, oldT, newT)[i] == Some(newT[k])
    decreases |order|
  {
    var prefix := order[..|order| - 1];
    var last := order[|order| - 1];
    var p := Reconcile(s0, prefix, oldT, newT);
    var r := Reconcile(s0, order, oldT, newT);
    assert r == Step(p, last, oldT, newT);
    assert forall k :: k in prefix ==> k in order;
    if exists k :: k in prefix && k.slotIndex == i && Fires(s0, k, oldT, newT) {
      ReconcileFiredEndsNew(s0, prefix, oldT, newT, i);
      var k :| k in prefix && k.slotIndex == i && k in oldT && k in newT && p[i] == Some(newT[k]);
      if !(Fires(p, last, oldT, newT) && last.slotIndex == i) {
        assert r[i] == p[i];
      }
    } else {
      // Only `last` matches the original slot, and no earlier visit touched
      // the slot, so `last` still matches when it is visited.
      var k :| k in order && k.slotIndex == i && Fires(s0, k, oldT, newT);
      assert k == last;
      ReconcileOnlyFiring(s0, prefix, oldT, newT, i);
      assert p[i] == s0[i];
      assert r[i] == Some(newT[last]);
    }
  }

  /** What visiting `order` does to one slot `i`, in terms of the two tables:
      no key of the old table names it, and it is unchanged; it changed, and
      before any visit it showed the old table's attachment for a name that
      both tables have; it changed, and it shows the new table's attachment
      for such a name; before any visit it showed the old table's attachment
      for a name that both tables have, and it ends up showing the new table's
      attachment for such a name. */
  lemma ReconcileSlot(s0: seq<Option<Attachment>>, order: seq<AttachmentKey>, oldT: Table, newT: Table, i: int)
    requires 0 <= i < |s0|
    requires forall k :: k in order ==> k in oldT
    ensures var r := Reconcile(s0, order, oldT, newT);
      && (NoKeyForSlot(oldT.Keys, i) ==> r[i] == s0[i])
      && (r[i] != s0[i] ==>
            exists n :: && AttachmentKey(i, n) in oldT && AttachmentKey(i, n) in newT
                        && s0[i] == Some(oldT[AttachmentKey(i, n)]))
      && (r[i] != s0[i] ==>
            exists n :: && AttachmentKey(i, n) in oldT && AttachmentKey(i, n) in newT
                        && r[i] == Some(newT[AttachmentKey(i, n)]))
      && ((exists n :: && AttachmentKey(i, n) in oldT && AttachmentKey(i, n) in newT
                       && AttachmentKey(i, n) in order
                       && s0[i] == Some(oldT[AttachmentKey(i, n)])) ==>
            exists n :: && AttachmentKey(i, n) in oldT && AttachmentKey(i, n) in newT
                        && r[i] == Some(newT[AttachmentKey(i, n)]))
  {
    var r := Reconcile(s0, order, oldT, newT);
    if exists n :: && AttachmentKey(i, n) in oldT && AttachmentKey(i, n) in newT
                   && AttachmentKey(i, n) in order
                   && s0[i] == Some(oldT[AttachmentKey(i, n)]) {
      var n :| && AttachmentKey(i, n) in oldT && AttachmentKey(i, n) in newT
               && AttachmentKey(i, n) in order
               && s0[i] == Some(oldT[AttachmentKey(i, n)]);
      assert Fires(s0, AttachmentKey(i, n), oldT, newT);
      ReconcileFiredEndsNew(s0, order, oldT, newT, i);
      var k :| k in order && k.slotIndex == i && k in oldT && k in newT && r[i] == Some(newT[k]);
      assert k == AttachmentKey(i, k.name);
    }
    if NoKeyForSlot(oldT.Keys, i) {
      ReconcileUntouched(s0, order, oldT, newT, i);
    }
    if r[i] != s0[i] {
      ReconcileOnlyFiring(s0, order, oldT, newT, i);
      var k :| k in order && k.slotIndex == i && Fires(s0, k, oldT, newT);
      assert k == AttachmentKey(i, k.name);
      ReconcileSource(s0, order, oldT, newT, i);
      var k' :| k' in order && k'.slotIndex == i && k' in oldT && k' in newT && r[i] == Some(newT[k']);
      assert k' == AttachmentKey(i, k'.name);
    }
  }

  /** Swapping a skin for itself changes nothing: every match attaches the
      attachment that is already shown. */
  lemma {:induction false} ReconcileSameSkin(slots: seq<Option<Attachment>>, order: seq<AttachmentKey>, t: Table)
    ensures Reconcile(slots, order, t, t) == slots
    decreases |order|
  {
    if order != [] {
      ReconcileSameSkin(slots, order[..|order| - 1], t);
    }
  }

  /** For non-interfering skins, visiting distinct old-skin keys one after the
      other has the effect of applying them all at once. */
  lemma {:induction false} ReconcileAppliesOnce(slots: seq<Option<Attachment>>, order: seq<AttachmentKey>, oldT: Table, newT: Table)
    requires NonInterfering(oldT, newT)
    requires forall i, j :: 0 <= i < j < |order| ==> order[i] != order[j]
    ensures AppliedOnce(slots, Reconcile(slots, order, oldT, newT), (set k | k in order), oldT, newT)
    decreases |order|
  {
    if order != [] {
      var prefix := order[..|order| - 1];
      var last := order[|order| - 1];
      ReconcileAppliesOnce(slots, prefix, oldT, newT);
      var p := Reconcile(slots, prefix, oldT, newT);
      var r := Reconcile(slots, order, oldT, newT);
      var done := set k | k in prefix;
      assert r == Step(p, last, oldT, newT);
      assert (set k | k in order) == done + {last};
      assert last !in done by {
        forall k | k in prefix ensures k != last {
          var j :| 0 <= j < |prefix| && prefix[j] == k;
        }
      }
      var i := last.slotIndex;
      if exists k :: k in done && k.slotIndex == i && Fires(slots, k, oldT, newT) {
        // Slot i already shows the new skin's attachment for an earlier key;
        // neither the new attachment nor the original one matches `last`.
        var k :| k in done && k.slotIndex == i && Fires(slots, k, oldT, newT);
        assert p[i] == Some(newT[k]);
        assert !Fires(p, last, oldT, newT);
        assert !Fires(slots, last, oldT, newT);
      } else if 0 <= i < |slots| {
        assert p[i] == slots[i];
      }
    }
  }

  /** For non-interfering skins, the result of applying all old-skin entries
      at once is unique. */
  lemma AppliedOnceUnique(s0: seq<Option<Attachment>>, r1: seq<Option<Attachment>>, r2: seq<Option<Attachment>>, oldT: Table, newT: Table)
    requires NonInterfering(oldT, newT)
    requires AppliedOnce(s0, r1, oldT.Keys, oldT, newT)
    requires AppliedOnce(s0, r2, oldT.Keys, oldT, newT)
    ensures r1 == r2
  {
  }

  /** For non-interfering skins, applying all old-skin entries a second time
      to the result of the first changes nothing. */
  lemma AppliedOnceIdempotent(s0: seq<Option<Attachment>>, s1: seq<Option<Attachment>>, s2: seq<Option<Attachment>>, oldT: Table, newT: Table)
    requires NonInterfering(oldT, newT)
    requires AppliedOnce(s0, s1, oldT.Keys, oldT, newT)
    requires AppliedOnce(s1, s2, oldT.Keys, oldT, newT)
    ensures s2 == s1
  {
  }

  /** For non-interfering skins, the order in which the old skin is visited
      does not matter, and reconciling twice is the same as reconciling once. */
  lemma ReconcileOrderFree(slots: seq<Option<Attachment>>, o1: seq<AttachmentKey>, o2: seq<AttachmentKey>, oldT: Table, newT: Table)
    requires NonInterfering(oldT, newT)
    requires Enumerates(o1, oldT.Keys) && Enumerates(o2, oldT.Keys)
    ensures Reconcile(slots, o1, oldT, newT) == Reconcile(slots, o2, oldT, newT)
    ensures Reconcile(Reconcile(slots, o1, oldT, newT), o2, oldT, newT) == Reconcile(slots, o1, oldT, newT)
  {
    var r1 := Reconcile(slots, o1, oldT, newT);
    ReconcileAppliesOnce(slots, o1, oldT, newT);
    ReconcileAppliesOnce(slots, o2, oldT, newT);
    ReconcileAppliesOnce(r1, o2, oldT, newT);
    assert (set k | k in o1) == oldT.Keys;
    assert (set k | k in o2) == oldT.Keys;
    AppliedOnceUnique(slots, r1, Reconcile(slots, o2, oldT, newT), oldT, newT);
    AppliedOnceIdempotent(slots, r1, Reconcile(r1, o2, oldT, newT), oldT, newT);
  }

  /** Without the non-interference condition, reconciling is not idempotent:
      the old skin's `y` entry shows `b`, which the new skin attaches for `x`,
      so a second pass with the same order moves the slot on to `c`. */
  lemma ReconcileNotIdempotent(a: Attachment, b: Attachment, c: Attachment)
    requires a != b && b != c && a != c
    ensures var x, y := AttachmentKey(0, "x"), AttachmentKey(0, "y");
      var oldT, newT := map[x := a, y := b], map[x := b, y := c];
      var once := Reconcile([Some(a)], [y, x], oldT, newT);
      && once == [Some(b)]
      && Reconcile(once, [y, x], oldT, newT) == [Some(c)]
  {
    var x, y := AttachmentKey(0, "x"), AttachmentKey(0, "y");
    var oldT, newT := map[x := a, y := b], map[x := b, y := c];
    assert x != y;
    assert [y, x][..1] == [y];
    assert [y][..0] == [];
    assert Reconcile([Some(a)], [y], oldT, newT) == Step([Some(a)], y, oldT, newT) == [Some(a)];
    assert Reconcile([Some(b)], [y], oldT, newT) == Step([Some(b)], y, oldT, newT) == [Some(c)];
  }
}
