# Ottermap map interaction controller, in Dafny

This project models the interaction controller of Ottermap's map page
(`MapPage`). The page creates an OpenLayers map with a vector layer once,
on mount. After that it offers four buttons:

- **Draw** attaches a `Draw` interaction.
- **Edit** attaches a `Modify` interaction.
- **Delete** attaches a `Select` interaction. Its callback removes the selected features.
- **Clear All** empties the vector source.

Before attaching a new interaction, each mode button detaches every interaction stored in the
`draw`, `modify` and `select` state slots.

The OpenLayers objects are opaque values. An interaction is a `Handle` (its kind and a serial
number taken from a counter). The map is reduced to its fixed view and the set of interactions
the controller has added. The vector source is reduced to a set of feature ids. Every
operation is a pure function on an immutable `Controller` record (`state.dfy`,
`controller.dfy`). The properties of single steps are in `properties.dfy`. Those of whole
command sequences, including the inductive invariant, are in `session.dfy`.

Two OpenLayers behaviours are modelled as abstract events: a completed draw, and a
selection. Each carries the handle of the interaction that emits it. Each takes effect only
while that interaction is attached to the map, because OpenLayers only delivers map events
to attached interactions.

A command issued before the mount effect has run is a silent no-op. The view is always
centred on (0, 0) at zoom 2. Pressing the active mode's button again detaches its interaction
and creates a new one (`MapPage.jsx:58-64`).

## Model

| member | source | states |
|---|---|---|
| MapController.Unmounted | ottermap/src/pages/MapPage.jsx:24-28 | before mount, map, layer and all three slots are null, so nothing is attached or drawn |
| MapController.Mount | ottermap/src/pages/MapPage.jsx:30-46 | the mount effect makes map and layer present with an empty source, no controller interaction attached, centre (0, 0) and zoom 2, and leaves the slots alone |
| MapController.Detach | ottermap/src/pages/MapPage.jsx:50-52 | removing a slot's interaction removes exactly that handle, and a null slot or an unattached handle changes nothing |
| MapController.RemoveInteractions | ottermap/src/pages/MapPage.jsx:48-54 | the attached set becomes the old one minus the non-null slots, so it only shrinks; it is a no-op without a map, and slots, layer and view are unchanged |
| MapController.Activate | ottermap/src/pages/MapPage.jsx:56-80 | without map or layer the state is unchanged; otherwise slot k holds a new handle, the other slots keep their values, and attached = (old attached minus slots) plus the new handle |
| MapController.AddPolygon | ottermap/src/pages/MapPage.jsx:56-65 | Draw writes only the draw slot with a new Draw handle and attaches it after detaching the slots; it is a no-op when not ready and leaves the features alone |
| MapController.EditPolygon | ottermap/src/pages/MapPage.jsx:67-73 | Edit writes only the modify slot with a new Modify handle and attaches it after detaching the slots; it is a no-op when not ready |
| MapController.DeletePolygon | ottermap/src/pages/MapPage.jsx:75-80 | Delete writes only the select slot with a new Select handle and attaches it after detaching the slots; it is a no-op when not ready |
| MapController.ClearPolygons | ottermap/src/pages/MapPage.jsx:89-92 | with a layer the source becomes empty and map, slots and counter are unchanged; without a layer nothing changes |
| MapController.RemoveEach | ottermap/src/pages/MapPage.jsx:82-85 | removing the selected features one by one leaves exactly the source features that were not selected, and absent features are no-ops |
| MapController.OnSelect | ottermap/src/pages/MapPage.jsx:81-86 | the select callback of an attached Select removes exactly the selected features and keeps every other feature; nothing else changes, and a detached handle has no effect |
| MapController.OnDrawEnd | ottermap/src/pages/MapPage.jsx:59-62 | a completed polygon from an attached Draw adds one feature with a new id to the layer's source; a detached handle has no effect |
| MapProperties.MountedIsInitial | ottermap/src/pages/MapPage.jsx:24-46 | after mount the source is empty, nothing is attached, all three slots are null and the invariant holds |
| MapProperties.RemoveInteractionsIdempotent | ottermap/src/pages/MapPage.jsx:48-54 | detaching the slots twice gives the same state as detaching them once |
| MapProperties.ActivateAttachesOnlyFresh | ottermap/src/pages/MapPage.jsx:56-80 | on a ready map, a mode command leaves exactly its new handle attached; that handle is distinct from every stored one, no stored handle stays attached, and the invariant is kept |
| MapProperties.ReactivateReplacesHandle | ottermap/src/pages/MapPage.jsx:58-64 | pressing the already-active mode again detaches its handle and stores a different one |
| MapProperties.DetachedHandlesAreInert | ottermap/src/pages/MapPage.jsx:48-87 | after a mode command, no Draw or Select created before it, whether still stored in a slot or already overwritten, can add or remove features |
| MapProperties.ClearPolygonsIdempotent | ottermap/src/pages/MapPage.jsx:89-92 | Clear All twice gives the same state as once |
| MapProperties.ClearPolygonsKeepsInv | ottermap/src/pages/MapPage.jsx:89-92 | Clear All preserves the controller invariant |
| MapProperties.OnSelectIdempotent | ottermap/src/pages/MapPage.jsx:81-85 | delivering the same selection twice gives the same state as once |
| MapProperties.OnSelectKeepsInv | ottermap/src/pages/MapPage.jsx:81-85 | a selection preserves the invariant and never adds a feature |
| MapProperties.OnDrawEndAddsOneFeature | ottermap/src/pages/MapPage.jsx:59-62 | a completed draw increases the feature count by exactly one with a new id and keeps the invariant |
| MapProperties.OnDrawEndKeepsInv | ottermap/src/pages/MapPage.jsx:59-62 | every draw completion, whether it takes effect or not, preserves the invariant |
| MapSession.StepKeepsInvariant | ottermap/src/pages/MapPage.jsx:48-92 | each command keeps the invariant and readiness; afterwards the attached set is exactly the slot handle of the last selected mode |
| MapSession.RunTracksLastMode | ottermap/src/pages/MapPage.jsx:24-92 | from the mounted page, after any command sequence the invariant holds and the attached set is exactly the slot handle of the last mode button pressed (empty if there was none) |
| MapSession.AtMostOneInteraction | ottermap/src/pages/MapPage.jsx:48-92 | after any command sequence at most one interaction is attached, and it is the one stored in the slot of the last selected mode |
| MapSession.EarlyCommandsAreNoOps | ottermap/src/pages/MapPage.jsx:56-92 | before mount, every command and event leaves the initial state unchanged |
| MapSession.ClearEmptiesSource | ottermap/src/pages/MapPage.jsx:89-92 | after any command sequence, Clear All empties the source and leaves the attached interaction and the last mode as they were |

## Left out

- The JSX markup, MUI styling, welcome banner and Back-button navigation (`MapPage.jsx:94-195`) are left out. They are presentation only.
- The base OSM tile layer, the layer style, and OpenLayers' view and projection math are left out. They are foreign library code and floating-point geometry. The view is kept only as its fixed centre and zoom.
- The map's default interactions (pan, zoom) are left out. The attached set holds only the interactions this controller adds.
- The vertex editing of `Modify` is left out. It changes a feature's geometry but not its identity or the set of features, so it has no effect on this model's state.
- Hit-testing inside `Select` and pointer gestures inside `Draw` are left out. They are reduced to events that carry the selected feature ids or the emitting handle.
- Polygon validity and ring closure are not modelled, because the component checks neither.
- React scheduling is left out: asynchronous `setState`, stale closures, and `React.StrictMode` running the mount effect twice in development (`src/main.jsx:9`). Each command sees the state left by the previous one, and the mount effect runs once.
- `src/pages/SearchForm.jsx` is left out. It is form I/O, geolocation and `alert`, and its result never positions the map.
- `ottermap/src/App.jsx`, `src/main.jsx` and `ottermap/src/context/UserContext.jsx` are left out. They are routing, rendering and state-holder glue.
