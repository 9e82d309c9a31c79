/** The hover-preview widget (`MapNoteHoverDisplay`): which note is active,
    the debounced hide, the element's visibility, and the suppression and
    exact restoration of the note's own tooltip and text label. */
module HoverDisplay {
  import opened Wrappers
  import opened SeqSearch
  import PageResolution
  import Placement
  import opened HoverLifecycle

  /** The CSS `display` value that hides a tooltip. */
  const HiddenDisplay: string := "none"

  /** A note's native hover tooltip; only its CSS `display` value matters here. */
  class Tooltip {
    var display: string
  }

  /** A display object among a note's children on the canvas. */
  class DisplayObject {
    const constructorName: string
    const isPixiText: bool
    var visible: bool
    var renderable: bool
    var alpha: real
  }

  /** A map note, owned by the host: its tooltip (if any), its child display
      objects, the journal entry it points to (if any), the page id it names
      (if any) and its control icon's measured size (if known). */
  class Note {
    const tooltip: Tooltip?
    const children: seq<DisplayObject>
    const entry: Option<PageResolution.Entry>
    const pageId: Option<string>
    const iconWidth: Option<real>
    const iconHeight: Option<real>
  }

  /** A child is the note's text label when it is a `PreciseText` or any PIXI text object. */
  predicate IsTextLabel(c: DisplayObject)
  {
    c.constructorName == "PreciseText" || c.isPixiText
  }

  /** The note's text label: its first child that is one, or null. */
  function TextLabel(n: Note): (c: DisplayObject?)
    ensures c != null ==> c in n.children && IsTextLabel(c)
    ensures c != null ==> exists k :: 0 <= k < |n.children| && n.children[k] == c &&
                                     forall j :: 0 <= j < k ==> !IsTextLabel(n.children[j])
    ensures c == null <==> forall j :: 0 <= j < |n.children| ==> !IsTextLabel(n.children[j])
  {
    match IndexOfFirst(n.children, IsTextLabel)
    case None => null
    case Some(k) => n.children[k]
  }

  datatype TooltipSaved = TooltipSaved(element: Tooltip, display: string)

  datatype LabelSaved = LabelSaved(element: DisplayObject, visible: bool, renderable: bool, alpha: real)

  /** The values `_hideOriginalTooltip` saves so that they can be written back. */
  datatype Snapshot = Snapshot(tooltip: Option<TooltipSaved>, textChild: Option<LabelSaved>)
  {
    /** The objects a restore writes to. */
    function Targets(): set<object>
    {
      (if tooltip.Some? then {tooltip.value.element} else {}) +
      (if textChild.Some? then {textChild.value.element} else {})
    }

    /** The saved values are the objects' current values. */
    ghost predicate InPlace()
      reads Targets()
    {
      (tooltip.Some? ==> tooltip.value.element.display == tooltip.value.display) &&
      (textChild.Some? ==>
         var t := textChild.value;
         t.element.visible == t.visible && t.element.renderable == t.renderable && t.element.alpha == t.alpha)
    }

    /** The snapshot was taken of note `n`'s tooltip and text label. */
    ghost predicate TakenFrom(n: Note)
    {
      (tooltip.Some? <==> n.tooltip != null) &&
      (tooltip.Some? ==> tooltip.value.element == n.tooltip) &&
      (textChild.Some? <==> TextLabel(n) != null) &&
      (textChild.Some? ==> textChild.value.element == TextLabel(n))
    }
  }

  /** The snapshot of note `n` in the current state. */
  function Capture(n: Note): (s: Snapshot)
    reads n.tooltip, n.children
    ensures s.TakenFrom(n) && s.InPlace()
  {
    var textLabel := TextLabel(n);
    Snapshot(
      if n.tooltip == null then None else Some(TooltipSaved(n.tooltip, n.tooltip.display)),
      if textLabel == null then None else Some(LabelSaved(textLabel, textLabel.visible, textLabel.renderable, textLabel.alpha)))
  }

  /** Note `n`'s tooltip is hidden and its text label blanked. */
  ghost predicate Suppressed(n: Note)
    reads n.tooltip, n.children
  {
    var textLabel := TextLabel(n);
    (n.tooltip != null ==> n.tooltip.display == HiddenDisplay) &&
    (textLabel != null ==> !textLabel.visible && !textLabel.renderable && textLabel.alpha == 0.0)
  }

  /** The CSS `display` the widget's element carries. */
  datatype ElementDisplay = DisplayBlock | DisplayNone

  class MapNoteHoverDisplay {
    /** The active note, or null. */
    var note: Note?
    /** Whether a hide is scheduled and not yet cancelled (the timer handle is set). */
    var pendingHide: bool
    /** The saved tooltip and label values of the note whose own visuals are suppressed. */
    var originalTooltip: Option<Snapshot>
    /** The element's display; None until the widget has first been rendered. */
    var element: Option<ElementDisplay>

    predicate Visible()
      reads this
    {
      element == Some(DisplayBlock)
    }

    /** The lifecycle state these fields stand for. */
    function State(): WidgetState<Note>
      reads this
    {
      if pendingHide then PendingHide(Active())
      else if note == null then Hidden
      else Showing(Active().value)
    }

    /** The active note, as an optional value. */
    function Active(): (r: Option<Note>)
      reads this
      ensures r.Some? <==> note != null
      ensures r.Some? ==> r.value == note
    {
      if note == null then None else var n: Note := note; Some(n)
    }

    /** The preview is on screen exactly while a note is active; a pending
        hide never holds a snapshot (clear restores before scheduling); a
        snapshot is always of the active note. */
    ghost predicate Valid()
      reads this
    {
      (Visible() <==> note != null) &&
      (pendingHide ==> originalTooltip.None?) &&
      (originalTooltip.Some? ==> note != null && originalTooltip.value.TakenFrom(note))
    }

    /** The objects a restore would write to. */
    function SnapshotTargets(): set<object>
      reads this
    {
      if originalTooltip.Some? then originalTooltip.value.Targets() else {}
    }

    constructor ()
      ensures Valid() && State() == Hidden
      ensures originalTooltip.None? && element.None?
    {
      note := null;
      pendingHide := false;
      originalTooltip := None;
      element := None;
    }

    /** Shows the preview for `n`: cancels any pending hide, makes `n` the
        active note, suppresses its tooltip and textLabel (the snapshot of an
        earlier note is overwritten, not restored) and shows the element. */
    method Bind(n: Note)
      requires Valid()
      modifies this, n.tooltip, n.children
      ensures Valid()
      ensures State() == Step(old(State()), Event.Bind(n)) == Showing(n)
      ensures note == n && !pendingHide && Visible()
      ensures originalTooltip == Some(old(Capture(n)))
      ensures Suppressed(n)
      ensures forall c :: c in n.children && c != TextLabel(n) ==>
                c.visible == old(c.visible) && c.renderable == old(c.renderable) && c.alpha == old(c.alpha)
    {
      if pendingHide {
        pendingHide := false;
      }
      note := n;
      HideOriginalTooltip(n);
      // rendering creates the element, which is then shown
      element := Some(DisplayBlock);
    }

    /** Restores the suppressed tooltip and textLabel at once and schedules the
        hide; the active note stays until the hide runs. Any earlier pending
        hide is replaced, so exactly one is pending. */
    method Clear()
      requires Valid()
      modifies this, SnapshotTargets()
      ensures Valid()
      ensures State() == Step(old(State()), Event.Clear) == PendingHide(Active())
      ensures pendingHide && note == old(note) && element == old(element) && originalTooltip.None?
      ensures old(originalTooltip).Some? ==> old(originalTooltip).value.InPlace()
    {
      RestoreOriginalTooltip();
      // any earlier timer is cancelled and replaced by this one
      pendingHide := true;
    }

    /** The scheduled hide running: only a hide that is pending can run. */
    method TimerFires()
      requires Valid() && pendingHide
      modifies this
      ensures Valid()
      ensures State() == Step(old(State()), Event.TimerFires) == Hidden
      ensures note == null && !pendingHide && !Visible()
      ensures originalTooltip == old(originalTooltip) && element.Some? == old(element).Some?
    {
      note := null;
      if element.Some? {
        element := Some(DisplayNone);
      }
      pendingHide := false;
    }

    /** Resets at once: cancels any pending hide, restores the suppressed
        tooltip and textLabel, drops the active note and hides the element.
        On an already reset widget it changes nothing, so it is idempotent. */
    method ClearImmediate()
      requires Valid()
      modifies this, SnapshotTargets()
      ensures Valid()
      ensures State() == Step(old(State()), Event.ClearImmediate) == Hidden
      ensures !pendingHide && note == null && !Visible() && originalTooltip.None?
      ensures element.Some? == old(element).Some?
      ensures old(originalTooltip).Some? ==> old(originalTooltip).value.InPlace()
      ensures old(State()) == Hidden ==> unchanged(this)
    {
      if pendingHide {
        pendingHide := false;
      }
      RestoreOriginalTooltip();
      note := null;
      if element.Some? {
        assert element == old(element);
        assert old(note) == null ==> element.value != DisplayBlock;
        element := Some(DisplayNone);
      }
    }

    /** Saves `n`'s tooltip display and its text label's visibility, then
        hides the tooltip and blanks the textLabel; the scan of the children
        stops at the first text label. */
    method HideOriginalTooltip(n: Note)
      modifies this`originalTooltip, n.tooltip, n.children
      ensures originalTooltip == Some(old(Capture(n)))
      ensures Suppressed(n)
      ensures forall c :: c in n.children && c != TextLabel(n) ==>
                c.visible == old(c.visible) && c.renderable == old(c.renderable) && c.alpha == old(c.alpha)
    {
      var saved := Snapshot(None, None);
      if n.tooltip != null {
        saved := saved.(tooltip := Some(TooltipSaved(n.tooltip, n.tooltip.display)));
        n.tooltip.display := HiddenDisplay;
      }
      var i := 0;
      while i < |n.children|
        invariant 0 <= i <= |n.children|
        invariant forall j :: 0 <= j < i ==> !IsTextLabel(n.children[j])
        invariant unchanged(n.children)
        invariant saved.textChild.None?
      {
        var child := n.children[i];
        if IsTextLabel(child) {
          saved := saved.(textChild := Some(LabelSaved(child, child.visible, child.renderable, child.alpha)));
          child.visible := false;
          child.renderable := false;
          child.alpha := 0.0;
          break;
        }
        i := i + 1;
      }
      originalTooltip := Some(saved);
    }

    /** Writes the saved values back, if there is a snapshot, and drops it. */
    method RestoreOriginalTooltip()
      modifies this`originalTooltip, SnapshotTargets()
      ensures originalTooltip.None?
      ensures old(originalTooltip).Some? ==> old(originalTooltip).value.InPlace()
    {
      if originalTooltip.None? {
        return;
      }
      var snap := originalTooltip.value;
      if snap.tooltip.Some? {
        snap.tooltip.value.element.display := snap.tooltip.value.display;
      }
      if snap.textChild.Some? {
        var t := snap.textChild.value;
        t.element.visible := t.visible;
        t.element.renderable := t.renderable;
        t.element.alpha := t.alpha;
      }
      originalTooltip := None;
    }

    /** The preview's title and body source for the active note; nothing
        without an active note, an entry, or a page. */
    function PrepareContext(): (r: Option<PageResolution.Preview>)
      reads this
      ensures r.None? <==> note == null || note.entry.None? || |note.entry.value.pages| == 0
    {
      if note == null then None else PageResolution.PrepareContext(note.entry, note.pageId)
    }

    /** Computes the placement for the active note at the given screen
        position. It runs only with an active note and a rendered element,
        and showing the element again there never changes the lifecycle. */
    method PositionHUD(screenX: real, screenY: real, viewportWidth: real, viewportHeight: real)
      returns (p: Option<Placement.Placement>)
      requires Valid()
      modifies this`element
      ensures unchanged(this)
      ensures p.Some? <==> note != null && element.Some?
      ensures p.Some? ==> p.value == Placement.PositionHUD(screenX, screenY, viewportWidth, viewportHeight,
                                                          note.iconWidth, note.iconHeight)
    {
      if note == null || element.None? {
        return None;
      }
      p := Some(Placement.PositionHUD(screenX, screenY, viewportWidth, viewportHeight,
                                      note.iconWidth, note.iconHeight));
      element := Some(DisplayBlock);
    }
  }

  /** The note-hover notification: dispatches to bind, clear or
      clear-immediate by `HoverAction`, when the widget exists, and does
      nothing when it does not. */
  method HoverNoteHook(w: MapNoteHoverDisplay?, n: Note, enabled: bool, hovered: bool, interactionState: Option<int>)
    requires w != null ==> w.Valid()
    modifies w, n.tooltip, n.children, if w != null then w.SnapshotTargets() else {}
    ensures w != null ==> w.Valid()
    ensures w != null ==> w.State() == Step(old(w.State()), EventOf(HoverAction(enabled, hovered, interactionState), n))
    ensures w == null ==> (n.tooltip != null ==> n.tooltip.display == old(n.tooltip.display)) && unchanged(n.children)
    ensures w != null && HoverAction(enabled, hovered, interactionState) == DoBind ==>
              w.originalTooltip == Some(old(Capture(n))) && Suppressed(n) &&
              forall c :: c in n.children && c != TextLabel(n) ==>
                c.visible == old(c.visible) && c.renderable == old(c.renderable) && c.alpha == old(c.alpha)
    ensures w != null && HoverAction(enabled, hovered, interactionState) != DoBind ==>
              w.originalTooltip.None? && (old(w.originalTooltip).Some? ==> old(w.originalTooltip).value.InPlace())
    ensures w != null && HoverAction(enabled, hovered, interactionState) != DoBind ==>
              (n.tooltip != null && n.tooltip !in old(w.SnapshotTargets()) ==> n.tooltip.display == old(n.tooltip.display)) &&
              forall c :: c in n.children && c !in old(w.SnapshotTargets()) ==>
                c.visible == old(c.visible) && c.renderable == old(c.renderable) && c.alpha == old(c.alpha)
  {
    if w == null {
      return;
    }
    match HoverAction(enabled, hovered, interactionState)
    case DoBind => w.Bind(n);
    case DoClear => w.Clear();
    case DoClearImmediate => w.ClearImmediate();
  }

  /** Suppressing a note's tooltip and textLabel and then restoring them, by
      clear or by clear-immediate, is an exact round trip for every one of
      its children and its tooltip. */
  method HideRestoreRoundTrip(w: MapNoteHoverDisplay, n: Note, immediate: bool)
    requires w.Valid()
    modifies w, n.tooltip, n.children
    ensures w.Valid()
    ensures n.tooltip != null ==> n.tooltip.display == old(n.tooltip.display)
    ensures forall c :: c in n.children ==>
              c.visible == old(c.visible) && c.renderable == old(c.renderable) && c.alpha == old(c.alpha)
  {
    w.Bind(n);
    if immediate {
      w.ClearImmediate();
    } else {
      w.Clear();
    }
  }

  /** A clear followed by a bind, before the hide runs, keeps the preview
      visible throughout and leaves no hide pending. */
  method ClearThenRebind(w: MapNoteHoverDisplay, n2: Note) returns (ghost visibleBetween: bool)
    requires w.Valid() && w.Visible()
    modifies w, n2.tooltip, n2.children, w.SnapshotTargets()
    ensures visibleBetween
    ensures w.Valid() && w.Visible() && !w.pendingHide && w.note == n2
  {
    w.Clear();
    visibleBetween := w.Visible();
    w.Bind(n2);
  }

  /** Binding again before clearing, to another note or to the same one,
      discards the first snapshot: the first note's text label is left
      blanked, and its tooltip hidden, after a later reset. */
  method RebindLeavesFirstLabelBlanked(w: MapNoteHoverDisplay, n1: Note, n2: Note)
    requires w.Valid()
    requires TextLabel(n1) != null
    modifies w, n1.tooltip, n1.children, n2.tooltip, n2.children
    ensures w.Valid() && w.State() == Hidden
    ensures var textLabel := TextLabel(n1); !textLabel.visible && !textLabel.renderable && textLabel.alpha == 0.0
    ensures n1.tooltip != null ==> n1.tooltip.display == HiddenDisplay
  {
    w.Bind(n1);
    w.Bind(n2);
    w.ClearImmediate();
  }

  /** Hovering a note in with the mouse and then out again, through the
      notification, gives the note's tooltip and children back their values
      and leaves a hide pending. */
  method HoverInThenOutRestoresNote(w: MapNoteHoverDisplay, n: Note)
    requires w.Valid()
    modifies w, n.tooltip, n.children, w.SnapshotTargets()
    ensures w.Valid() && w.pendingHide && w.note == n
    ensures n.tooltip != null ==> n.tooltip.display == old(n.tooltip.display)
    ensures forall c :: c in n.children ==>
              c.visible == old(c.visible) && c.renderable == old(c.renderable) && c.alpha == old(c.alpha)
  {
    HoverNoteHook(w, n, true, true, Some(MouseHoverState));
    HoverNoteHook(w, n, true, false, Some(MouseHoverState));
  }
}
