/** The preview's show/hide lifecycle, abstracted from the widget's fields, and
    the rule that turns a note-hover notification into one of its operations. */
module HoverLifecycle {
  import opened Wrappers

  /** Nothing shown; a note shown; a hide scheduled while `active` (if any)
      is still the active note. */
  datatype WidgetState<N> = Hidden | Showing(note: N) | PendingHide(active: Option<N>)

  /** The widget's operations, and the scheduled hide running. */
  datatype Event<N> = Bind(note: N) | Clear | ClearImmediate | TimerFires

  function ActiveNote<N>(s: WidgetState<N>): Option<N>
  {
    match s
    case Hidden => None
    case Showing(n) => Some(n)
    case PendingHide(a) => a
  }

  /** The preview is on screen exactly while some note is active. */
  predicate Shown<N>(s: WidgetState<N>)
  {
    ActiveNote(s).Some?
  }

  /** One transition. A bind supersedes whatever was pending; a clear schedules
      a hide and keeps the active note; a clear-immediate resets; the scheduled
      hide runs only when one is pending (a cancelled timer never fires). */
  function Step<N>(s: WidgetState<N>, e: Event<N>): WidgetState<N>
  {
    match e
    case Bind(n) => Showing(n)
    case Clear => PendingHide(ActiveNote(s))
    case ClearImmediate => Hidden
    case TimerFires => if s.PendingHide? then Hidden else s
  }

  /** The state reached from `s` by the events of `t`, in order. */
  function Run<N>(s: WidgetState<N>, t: seq<Event<N>>): WidgetState<N>
    decreases |t|
  {
    if t == [] then s else Run(Step(s, t[0]), t[1..])
  }

  predicate AllTimerFires<N>(t: seq<Event<N>>)
  {
    forall i :: 0 <= i < |t| ==> t[i] == TimerFires
  }

  /** Running one more event is one more step. */
  lemma {:induction false} RunSnoc<N>(s: WidgetState<N>, t: seq<Event<N>>, e: Event<N>)
    ensures Run(s, t + [e]) == Step(Run(s, t), e)
    decreases |t|
  {
    if t == [] {
      assert [e][1..] == [];
    } else {
      assert (t + [e])[0] == t[0];
      assert (t + [e])[1..] == t[1..] + [e];
      RunSnoc(Step(s, t[0]), t[1..], e);
    }
  }

  /** Whatever happened before, a clear-immediate leaves nothing shown and no
      hide pending, and a second one changes nothing. */
  lemma ClearImmediateResets<N>(s: WidgetState<N>, t: seq<Event<N>>)
    ensures Run(s, t + [ClearImmediate]) == Hidden
    ensures Run(s, t + [ClearImmediate, ClearImmediate]) == Run(s, t + [ClearImmediate])
  {
    RunSnoc(s, t, ClearImmediate);
    assert t + [ClearImmediate, ClearImmediate] == (t + [ClearImmediate]) + [ClearImmediate];
    RunSnoc(s, t + [ClearImmediate], ClearImmediate);
  }

  /** Once a note is bound, stale timer callbacks leave it showing. */
  lemma {:induction false} BoundNoteSurvivesStaleTimers<N>(n: N, t: seq<Event<N>>)
    requires AllTimerFires(t)
    ensures Run(Showing(n), t) == Showing(n)
    decreases |t|
  {
    if t != [] {
      assert t[0] == TimerFires;
      BoundNoteSurvivesStaleTimers(n, t[1..]);
    }
  }

  /** Only the scheduled hide or a clear-immediate hides the preview: from a
      shown state, any run of binds and clears keeps it shown. */
  lemma {:induction false} OnlyTimerOrResetHides<N>(s: WidgetState<N>, t: seq<Event<N>>)
    requires Shown(s)
    requires forall i :: 0 <= i < |t| ==> t[i].Bind? || t[i].Clear?
    ensures Shown(Run(s, t))
    decreases |t|
  {
    if t != [] {
      OnlyTimerOrResetHides(Step(s, t[0]), t[1..]);
    }
  }

  /** A clear followed by a bind, before the hide runs, never hides the
      preview: every intermediate state is shown, the new note ends up
      showing, and the timer firing afterwards changes nothing. */
  lemma ClearThenRebindNeverHides<N>(s: WidgetState<N>, n: N, fires: seq<Event<N>>)
    requires Shown(s)
    requires AllTimerFires(fires)
    ensures var t := [Clear, Bind(n)] + fires;
            forall i :: 0 <= i <= |t| ==> Shown(Run(s, t[..i]))
    ensures Run(s, [Clear, Bind(n)] + fires) == Showing(n)
  {
    var t := [Clear, Bind(n)] + fires;
    assert Run(s, t) == Run(Showing(n), fires) by {
      assert t[0] == Clear && t[1..][0] == Bind(n) && t[1..][1..] == fires;
    }
    BoundNoteSurvivesStaleTimers(n, fires);
    forall i | 0 <= i <= |t|
      ensures Shown(Run(s, t[..i]))
    {
      if i == 0 {
        assert t[..i] == [];
      } else if i == 1 {
        assert t[..i] == [Clear];
      } else {
        assert t[..i] == [Clear, Bind(n)] + fires[..i - 2];
        assert Run(s, t[..i]) == Run(Showing(n), fires[..i - 2]) by {
          var u := t[..i];
          assert u[0] == Clear && u[1..][0] == Bind(n) && u[1..][1..] == fires[..i - 2];
        }
        BoundNoteSurvivesStaleTimers(n, fires[..i - 2]);
      }
    }
  }

  /** What the hover notification asks of the widget. */
  datatype Action = DoBind | DoClear | DoClearImmediate

  /** The interaction state of a note hovered by the mouse cursor itself. */
  const MouseHoverState: int := 1

  /** The dispatch rule of the note-hover notification: disabled resets at
      once; enabled binds on a genuine mouse hover and otherwise clears. */
  function HoverAction(enabled: bool, hovered: bool, interactionState: Option<int>): (a: Action)
    ensures a == DoClearImmediate <==> !enabled
    ensures a == DoBind <==> enabled && hovered && interactionState == Some(MouseHoverState)
    ensures a == DoClear <==> enabled && !(hovered && interactionState == Some(MouseHoverState))
  {
    if enabled then
      if hovered && interactionState == Some(MouseHoverState) then DoBind else DoClear
    else DoClearImmediate
  }

  function EventOf<N>(a: Action, note: N): Event<N>
  {
    match a
    case DoBind => Bind(note)
    case DoClear => Clear
    case DoClearImmediate => ClearImmediate
  }
}
