/** The state of the map page's interaction controller: the map and vector
    layer created on mount, the three interaction slots kept in component
    state, and the counter from which new OpenLayers objects take their
    identity. */
module MapState {
  import opened Wrappers

  /** The three kinds of interaction the page creates. */
  datatype Kind = DrawKind | ModifyKind | SelectKind

  /** An opaque interaction object (`new Draw`, `new Modify`, `new Select`);
      `serial` is its identity, taken from the controller's counter. */
  datatype Handle = Handle(kind: Kind, serial: nat)

  /** The identity of a polygon feature held by the vector source. */
  type FeatureId = nat

  /** The OpenLayers map: its fixed view and the interactions this
      controller has added to it. */
  datatype MapView = MapView(center: (int, int), zoom: nat, interactions: set<Handle>)

  /** The vector layer, reduced to the feature ids of its source. */
  datatype Layer = Layer(source: set<FeatureId>)

  /** The component's state: `map` (here `surface`), `vectorLayer`, the `draw`,
      `modify` and `select` slots,
      plus the identity counter for freshly created objects. */
  datatype Controller = Controller(
    surface: Option<MapView>,
    layer: Option<Layer>,
    drawSlot: Option<Handle>,
    modifySlot: Option<Handle>,
    selectSlot: Option<Handle>,
    nextId: nat)

  /** Both `map` and `vectorLayer` are non-null: the guard of the mode commands. */
  predicate Ready(c: Controller)
  {
    c.surface.Some? && c.layer.Some?
  }

  /** The slot a kind of interaction is stored in. */
  function Slot(c: Controller, k: Kind): Option<Handle>
  {
    match k
    case DrawKind => c.drawSlot
    case ModifyKind => c.modifySlot
    case SelectKind => c.selectSlot
  }

  /** The non-null handles held in the three slots. */
  function SlotHandles(c: Controller): set<Handle>
  {
    Elems(c.drawSlot) + Elems(c.modifySlot) + Elems(c.selectSlot)
  }

  /** The controller's interactions currently attached to the map (none before mount). */
  function Attached(c: Controller): set<Handle>
  {
    if c.surface.Some? then c.surface.value.interactions else {}
  }

  /** The feature ids in the vector source (none before mount). */
  function Features(c: Controller): set<FeatureId>
  {
    if c.layer.Some? then c.layer.value.source else {}
  }

  /** The inductive invariant of the controller: map and layer exist together,
      every stored handle and feature is older than the counter, each slot
      holds a handle of its own kind, and the attached interactions are at
      most one of the stored handles. */
  predicate Inv(c: Controller)
  {
    && (c.surface.Some? <==> c.layer.Some?)
    && (forall h :: h in SlotHandles(c) ==> h.serial < c.nextId)
    && (forall f :: f in Features(c) ==> f < c.nextId)
    && (forall k :: Slot(c, k).Some? ==> Slot(c, k).value.kind == k)
    && Attached(c) <= SlotHandles(c)
    && |Attached(c)| <= 1
  }
}
