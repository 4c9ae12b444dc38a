/** Properties of single transitions of the map controller, and how each
    preserves the controller invariant `Inv`. */
module MapProperties {
  import opened Wrappers
  import opened MapState
  import opened MapController

  /** After the mount effect the source is empty, nothing is attached, all
      three slots are null, and the invariant holds. */
  lemma MountedIsInitial()
    ensures var c := Mount(Unmounted());
            && Inv(c) && Ready(c)
            && Features(c) == {} && Attached(c) == {}
            && forall k :: Slot(c, k) == None
  {
  }

  /** Detaching all slots twice is the same as detaching them once. */
  lemma RemoveInteractionsIdempotent(c: Controller)
    ensures RemoveInteractions(RemoveInteractions(c)) == RemoveInteractions(c)
  {
    var r := RemoveInteractions(c);
    var rr := RemoveInteractions(r);
    if c.surface.Some? {
      assert rr.surface.value.interactions == r.surface.value.interactions;
    }
  }

  /** On a ready map, a mode command leaves exactly its new interaction
      attached: it is distinct from every handle stored before, none of which
      stays attached, and the invariant is kept. */
  lemma ActivateAttachesOnlyFresh(c: Controller, k: Kind)
    requires Inv(c) && Ready(c)
    ensures var r := Activate(c, k);
            && Attached(r) == {Handle(k, c.nextId)}
            && Handle(k, c.nextId) !in SlotHandles(c)
            && (forall h :: h in SlotHandles(c) ==> h !in Attached(r))
            && Inv(r)
  {
    var r := Activate(c, k);
    var h := Handle(k, c.nextId);
    assert Attached(c) - SlotHandles(c) == {};
    assert Attached(r) == {h};
    assert SlotHandles(r) <= SlotHandles(c) + {h} by {
      forall x | x in SlotHandles(r)
        ensures x in SlotHandles(c) + {h}
      {
        if x in Elems(r.drawSlot) { assert Slot(r, DrawKind) == Some(x); }
        else if x in Elems(r.modifySlot) { assert Slot(r, ModifyKind) == Some(x); }
        else { assert Slot(r, SelectKind) == Some(x); }
      }
    }
    assert h in SlotHandles(r) by {
      assert Slot(r, k) == Some(h);
    }
    assert Features(r) == Features(c);
    assert forall x :: x in SlotHandles(r) ==> x.serial < r.nextId;
    assert forall j :: Slot(r, j).Some? ==> Slot(r, j).value.kind == j by {
      forall j | Slot(r, j).Some?
        ensures Slot(r, j).value.kind == j
      {
        if j != k { assert Slot(r, j) == Slot(c, j); }
      }
    }
  }

  /** Re-activating the mode whose handle is attached does not keep that
      handle: it is detached and a new, distinct one takes the slot. */
  lemma ReactivateReplacesHandle(c: Controller, k: Kind)
    requires Inv(c) && Ready(c) && Slot(c, k).Some? && Slot(c, k).value in Attached(c)
    ensures var r := Activate(c, k);
            && Slot(r, k).Some? && Slot(r, k).value != Slot(c, k).value
            && Slot(c, k).value !in Attached(r)
  {
  }

  /** Once a mode command has run, no interaction created before it, whether
      still stored in a slot or already overwritten, delivers events any
      more: a stale Draw adds no feature and a stale Select removes none. */
  lemma DetachedHandlesAreInert(c: Controller, k: Kind, h: Handle, selected: seq<FeatureId>)
    requires Inv(c) && Ready(c) && h.serial < c.nextId
    ensures var r := Activate(c, k);
            && OnDrawEnd(r, h) == r
            && OnSelect(r, h, selected) == r
  {
    ActivateAttachesOnlyFresh(c, k);
  }

  /** Clear All is idempotent. */
  lemma ClearPolygonsIdempotent(c: Controller)
    ensures ClearPolygons(ClearPolygons(c)) == ClearPolygons(c)
  {
  }

  /** Clear All keeps the invariant. */
  lemma ClearPolygonsKeepsInv(c: Controller)
    requires Inv(c)
    ensures Inv(ClearPolygons(c))
  {
  }

  /** Delivering the same selection twice removes nothing more. */
  lemma OnSelectIdempotent(c: Controller, h: Handle, selected: seq<FeatureId>)
    ensures OnSelect(OnSelect(c, h, selected), h, selected) == OnSelect(c, h, selected)
  {
    var r := OnSelect(c, h, selected);
    if Live(c, h, SelectKind) {
      var rr := OnSelect(r, h, selected);
      assert Live(r, h, SelectKind);
      assert rr.layer.value.source == r.layer.value.source;
    }
  }

  /** A select event keeps the invariant and never adds a feature. */
  lemma OnSelectKeepsInv(c: Controller, h: Handle, selected: seq<FeatureId>)
    requires Inv(c)
    ensures Inv(OnSelect(c, h, selected))
    ensures Features(OnSelect(c, h, selected)) <= Features(c)
  {
  }

  /** A completed draw adds exactly one feature, which is new, and keeps the
      invariant. */
  lemma OnDrawEndAddsOneFeature(c: Controller, h: Handle)
    requires Inv(c) && Live(c, h, DrawKind)
    ensures var r := OnDrawEnd(c, h);
            && c.nextId !in Features(c)
            && |Features(r)| == |Features(c)| + 1
            && Inv(r)
  {
  }

  /** Every draw completion, live or not, keeps the invariant. */
  lemma OnDrawEndKeepsInv(c: Controller, h: Handle)
    requires Inv(c)
    ensures Inv(OnDrawEnd(c, h))
  {
  }
}
