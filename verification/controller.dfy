/** The transitions of the map page: the mount effect, `removeInteractions`,
    the Draw / Edit / Delete commands, Clear All, and the two interaction
    events whose handlers write to the vector source (a completed draw and a
    delete selection). Each is a pure function from controller to controller. */
module MapController {
  import opened Wrappers
  import opened MapState

  /** The state at first render: every `useState` starts at `null`. */
  function Unmounted(): (c: Controller)
    ensures !Ready(c) && Inv(c)
    ensures Attached(c) == {} && Features(c) == {} && SlotHandles(c) == {}
  {
    Controller(None, None, None, None, None, 0)
  }

  /** The view the map is created with: centre [0, 0], zoom 2. */
  const InitialCenter: (int, int) := (0, 0)
  const InitialZoom: nat := 2

  /** The mount effect: a new, empty vector source and layer, and a map with
      the fixed initial view and none of the controller's interactions.
      The interaction slots are not touched. */
  function Mount(c: Controller): (r: Controller)
    ensures Ready(r)
    ensures Features(r) == {} && Attached(r) == {}
    ensures r.surface.value.center == InitialCenter && r.surface.value.zoom == InitialZoom
    ensures forall k :: Slot(r, k) == Slot(c, k)
    ensures r.nextId == c.nextId
  {
    c.(surface := Some(MapView(InitialCenter, InitialZoom, {})), layer := Some(Layer({})))
  }

  /** Take the interaction held in a non-null slot off the map; taking off an
      interaction that is not on the map changes nothing. */
  function Detach(m: MapView, slot: Option<Handle>): (r: MapView)
    ensures r.interactions == m.interactions - Elems(slot)
    ensures r.center == m.center && r.zoom == m.zoom
  {
    if slot.Some? then m.(interactions := m.interactions - {slot.value}) else m
  }

  /** `removeInteractions`: when the map exists, detach the draw, modify and
      select slots in turn. Only the map's interaction set changes. */
  function RemoveInteractions(c: Controller): (r: Controller)
    ensures c.surface.None? ==> r == c
    ensures r.surface.Some? == c.surface.Some?
    ensures Attached(r) == Attached(c) - SlotHandles(c)
    ensures Attached(r) <= Attached(c)
    ensures r.surface.Some? ==> (r.surface.value.center == c.surface.value.center
                              && r.surface.value.zoom == c.surface.value.zoom)
    ensures r.layer == c.layer && r.nextId == c.nextId
    ensures forall k :: Slot(r, k) == Slot(c, k)
  {
    if c.surface.None? then c
    else
      var m := c.surface.value;
      var m1 := Detach(m, c.drawSlot);
      var m2 := Detach(m1, c.modifySlot);
      var m3 := Detach(m2, c.selectSlot);
      c.(surface := Some(m3))
  }

  /** `c` with slot `k` replaced by `s`. */
  function WithSlot(c: Controller, k: Kind, s: Option<Handle>): (r: Controller)
    ensures Slot(r, k) == s
    ensures forall j :: j != k ==> Slot(r, j) == Slot(c, j)
    ensures r.surface == c.surface && r.layer == c.layer && r.nextId == c.nextId
  {
    match k
    case DrawKind => c.(drawSlot := s)
    case ModifyKind => c.(modifySlot := s)
    case SelectKind => c.(selectSlot := s)
  }

  /** The body shared by the three mode commands: return early unless both
      map and layer exist; otherwise run `removeInteractions`, create a new
      interaction of kind `k`, store it in slot `k` and add it to the map. */
  function Activate(c: Controller, k: Kind): (r: Controller)
    ensures !Ready(c) ==> r == c
    ensures Ready(c) ==> Ready(r) && r.layer == c.layer && r.nextId == c.nextId + 1
    ensures Ready(c) ==> Slot(r, k) == Some(Handle(k, c.nextId))
    ensures Ready(c) ==> forall j :: j != k ==> Slot(r, j) == Slot(c, j)
    ensures Ready(c) ==> Attached(r) == (Attached(c) - SlotHandles(c)) + {Handle(k, c.nextId)}
    ensures Ready(c) ==> (r.surface.value.center == c.surface.value.center
                       && r.surface.value.zoom == c.surface.value.zoom)
  {
    if !Ready(c) then c
    else
      var d := RemoveInteractions(c);
      var h := Handle(k, d.nextId);
      var m := d.surface.value;
      WithSlot(d, k, Some(h)).(surface := Some(m.(interactions := m.interactions + {h})), nextId := d.nextId + 1)
  }

  /** The Draw button (`addPolygon`). */
  function AddPolygon(c: Controller): (r: Controller)
    ensures !Ready(c) ==> r == c
    ensures Ready(c) ==> (r.drawSlot == Some(Handle(DrawKind, c.nextId))
                       && r.modifySlot == c.modifySlot && r.selectSlot == c.selectSlot)
    ensures Ready(c) ==> Attached(r) == (Attached(c) - SlotHandles(c)) + {Handle(DrawKind, c.nextId)}
    ensures Features(r) == Features(c)
  {
    Activate(c, DrawKind)
  }

  /** The Edit button (`editPolygon`). */
  function EditPolygon(c: Controller): (r: Controller)
    ensures !Ready(c) ==> r == c
    ensures Ready(c) ==> (r.modifySlot == Some(Handle(ModifyKind, c.nextId))
                       && r.drawSlot == c.drawSlot && r.selectSlot == c.selectSlot)
    ensures Ready(c) ==> Attached(r) == (Attached(c) - SlotHandles(c)) + {Handle(ModifyKind, c.nextId)}
    ensures Features(r) == Features(c)
  {
    Activate(c, ModifyKind)
  }

  /** The Delete button (`deletePolygon`); the select callback it registers is
      `OnSelect`. */
  function DeletePolygon(c: Controller): (r: Controller)
    ensures !Ready(c) ==> r == c
    ensures Ready(c) ==> (r.selectSlot == Some(Handle(SelectKind, c.nextId))
                       && r.drawSlot == c.drawSlot && r.modifySlot == c.modifySlot)
    ensures Ready(c) ==> Attached(r) == (Attached(c) - SlotHandles(c)) + {Handle(SelectKind, c.nextId)}
    ensures Features(r) == Features(c)
  {
    Activate(c, SelectKind)
  }

  /** The Clear All button (`clearPolygons`): empty the source when the layer
      exists; the mode and the map are left alone. */
  function ClearPolygons(c: Controller): (r: Controller)
    ensures c.layer.None? ==> r == c
    ensures c.layer.Some? ==> r.layer.Some? && Features(r) == {}
    ensures r.surface == c.surface && r.nextId == c.nextId
    ensures forall k :: Slot(r, k) == Slot(c, k)
  {
    if c.layer.None? then c
    else c.(layer := Some(c.layer.value.(source := {})))
  }

  /** Remove each selected feature from the source, in order; removing a
      feature that is not in the source is a no-op. */
  function RemoveEach(source: set<FeatureId>, selected: seq<FeatureId>): (r: set<FeatureId>)
    ensures forall f :: f in r <==> f in source && f !in selected
    decreases |selected|
  {
    if |selected| == 0 then source
    else RemoveEach(source - {selected[0]}, selected[1..])
  }

  /** The interaction `h` is on the map and is of kind `k`, so OpenLayers
      delivers its events. */
  predicate Live(c: Controller, h: Handle, k: Kind)
  {
    h in Attached(c) && h.kind == k && c.layer.Some?
  }

  /** The "select" callback registered by `deletePolygon` on its Select
      interaction `h`, fired with the interaction's selected features. */
  function OnSelect(c: Controller, h: Handle, selected: seq<FeatureId>): (r: Controller)
    ensures !Live(c, h, SelectKind) ==> r == c
    ensures Live(c, h, SelectKind) ==>
              r.layer.Some? && forall f :: f in Features(r) <==> f in Features(c) && f !in selected
    ensures r.surface == c.surface && r.nextId == c.nextId
    ensures forall k :: Slot(r, k) == Slot(c, k)
  {
    if !Live(c, h, SelectKind) then c
    else c.(layer := Some(c.layer.value.(source := RemoveEach(c.layer.value.source, selected))))
  }

  /** A completed polygon of the Draw interaction `h`, which was created with
      the layer's source as its target: one new feature is added to it. */
  function OnDrawEnd(c: Controller, h: Handle): (r: Controller)
    ensures !Live(c, h, DrawKind) ==> r == c
    ensures Live(c, h, DrawKind) ==>
              r.layer.Some? && Features(r) == Features(c) + {c.nextId} && r.nextId == c.nextId + 1
    ensures r.surface == c.surface
    ensures forall k :: Slot(r, k) == Slot(c, k)
  {
    if !Live(c, h, DrawKind) then c
    else c.(layer := Some(c.layer.value.(source := c.layer.value.source + {c.nextId})), nextId := c.nextId + 1)
  }
}
