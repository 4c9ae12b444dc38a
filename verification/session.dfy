/** A page session: the user's button presses and the events of the attached
    interactions, processed one at a time in arrival order. */
module MapSession {
  import opened Wrappers
  import opened MapState
  import opened MapController
  import opened MapProperties

  /** The four buttons, plus the two interaction events that write to the
      vector source. */
  datatype Command =
    | Draw
    | Edit
    | Delete
    | Clear
    | DrawEnd(h: Handle)
    | SelectEvent(h: Handle, selected: seq<FeatureId>)

  /** One command applied to the controller. */
  function Step(c: Controller, cmd: Command): Controller
  {
    match cmd
    case Draw => AddPolygon(c)
    case Edit => EditPolygon(c)
    case Delete => DeletePolygon(c)
    case Clear => ClearPolygons(c)
    case DrawEnd(h) => OnDrawEnd(c, h)
    case SelectEvent(h, selected) => OnSelect(c, h, selected)
  }

  /** The commands applied in order, the last one last. */
  function Run(c: Controller, cmds: seq<Command>): Controller
    decreases |cmds|
  {
    if |cmds| == 0 then c else Step(Run(c, cmds[..|cmds| - 1]), cmds[|cmds| - 1])
  }

  /** The mode a button selects, if the command is a mode button. */
  function ModeOf(cmd: Command): Option<Kind>
  {
    match cmd
    case Draw => Some(DrawKind)
    case Edit => Some(ModifyKind)
    case Delete => Some(SelectKind)
    case _ => None
  }

  /** The most recently pressed mode button of a command sequence, if any:
      a reference definition read off the commands alone. */
  function LastMode(cmds: seq<Command>): Option<Kind>
    decreases |cmds|
  {
    if |cmds| == 0 then None
    else if ModeOf(cmds[|cmds| - 1]).Some? then ModeOf(cmds[|cmds| - 1])
    else LastMode(cmds[..|cmds| - 1])
  }

  /** The attached interactions are exactly the handle in the slot of mode
      `last`, or none when no mode has been selected. */
  predicate Tracks(c: Controller, last: Option<Kind>)
  {
    match last
    case None => Attached(c) == {}
    case Some(k) => Slot(c, k).Some? && Attached(c) == {Slot(c, k).value}
  }

  /** One command on a ready controller keeps the invariant and readiness,
      and the attached set follows the last selected mode. */
  lemma StepKeepsInvariant(c: Controller, last: Option<Kind>, cmd: Command)
    requires Inv(c) && Ready(c) && Tracks(c, last)
    ensures var r := Step(c, cmd);
            && Inv(r) && Ready(r)
            && Tracks(r, if ModeOf(cmd).Some? then ModeOf(cmd) else last)
  {
    match cmd
    case Draw => ActivateAttachesOnlyFresh(c, DrawKind);
    case Edit => ActivateAttachesOnlyFresh(c, ModifyKind);
    case Delete => ActivateAttachesOnlyFresh(c, SelectKind);
    case Clear => ClearPolygonsKeepsInv(c);
    case DrawEnd(h) => OnDrawEndKeepsInv(c, h);
    case SelectEvent(h, selected) => OnSelectKeepsInv(c, h, selected);
  }

  /** From the mounted page, after any sequence of commands the invariant
      holds and the attached interactions are exactly the one held in the
      slot of the most recently selected mode (none if no mode was ever
      selected). */
  lemma {:induction false} RunTracksLastMode(cmds: seq<Command>)
    ensures var c := Run(Mount(Unmounted()), cmds);
            && Inv(c) && Ready(c) && Tracks(c, LastMode(cmds))
    decreases |cmds|
  {
    if |cmds| == 0 {
      MountedIsInitial();
    } else {
      var prefix := cmds[..|cmds| - 1];
      RunTracksLastMode(prefix);
      StepKeepsInvariant(Run(Mount(Unmounted()), prefix), LastMode(prefix), cmds[|cmds| - 1]);
    }
  }

  /** The headline guarantee: at most one interaction is ever attached, and
      an attached interaction is the one stored for the last selected mode. */
  lemma AtMostOneInteraction(cmds: seq<Command>)
    ensures var c := Run(Mount(Unmounted()), cmds);
            && |Attached(c)| <= 1
            && forall h :: h in Attached(c) ==>
                 LastMode(cmds) == Some(h.kind) && Slot(c, h.kind) == Some(h)
  {
    RunTracksLastMode(cmds);
    var c := Run(Mount(Unmounted()), cmds);
    forall h | h in Attached(c)
      ensures LastMode(cmds) == Some(h.kind) && Slot(c, h.kind) == Some(h)
    {
      var k := LastMode(cmds).value;
      assert Slot(c, k) == Some(h);
    }
  }

  /** Before the mount effect every command is a silent no-op. */
  lemma {:induction false} EarlyCommandsAreNoOps(cmds: seq<Command>)
    ensures Run(Unmounted(), cmds) == Unmounted()
    decreases |cmds|
  {
    if |cmds| > 0 {
      EarlyCommandsAreNoOps(cmds[..|cmds| - 1]);
    }
  }

  /** Clear All, pressed after any sequence of commands on the mounted page,
      leaves the source empty and the attached interaction where it was. */
  lemma ClearEmptiesSource(cmds: seq<Command>)
    ensures var c := Run(Mount(Unmounted()), cmds);
            var r := Run(Mount(Unmounted()), cmds + [Clear]);
            && Features(r) == {}
            && Attached(r) == Attached(c)
            && Tracks(r, LastMode(cmds))
  {
    RunTracksLastMode(cmds);
    assert (cmds + [Clear])[..|cmds|] == cmds;
  }
}
