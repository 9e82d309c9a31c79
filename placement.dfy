/** Where the preview is placed next to the hovered note (the arithmetic of
    `_positionHUD`, before it writes the element's style). Coordinates are
    screen pixels, as reals. */
module Placement {
  import opened Wrappers

  /** Icon size assumed when the note's control icon is missing or measures 0. */
  const DefaultIconSize: real := 40.0

  /** Which side of the note the preview opens on. */
  datatype Orientation = Right | Left

  /** The four CSS transforms the preview can be given. */
  datatype Transform = NoShift | ShiftLeft | ShiftUp | ShiftLeftAndUp
  {
    function Css(): string
    {
      match this
      case NoShift => "translateY(0)"
      case ShiftLeft => "translateX(-100%)"
      case ShiftUp => "translateY(-100%)"
      case ShiftLeftAndUp => "translate(-100%, -100%)"
    }

    /** The horizontal translation, as a multiple of the preview's own width. */
    function ShiftX(): real
    {
      if this == ShiftLeft || this == ShiftLeftAndUp then -1.0 else 0.0
    }

    /** The vertical translation, as a multiple of the preview's own height. */
    function ShiftY(): real
    {
      if this == ShiftUp || this == ShiftLeftAndUp then -1.0 else 0.0
    }
  }

  /** The computed `top` and `left` offsets, the side and the transform. */
  datatype Placement = Placement(top: real, left: real, orientation: Orientation, transform: Transform)

  /** The screen rectangle a preview of the given size occupies. */
  datatype Box = Box(left: real, top: real, right: real, bottom: real)

  /** A measured icon dimension, with a missing or zero measure read as 40. */
  function IconSize(measured: Option<real>): (r: real)
    ensures r != 0.0
    ensures measured.Some? && measured.value != 0.0 ==> r == measured.value
    ensures measured.None? || measured.value == 0.0 ==> r == DefaultIconSize
  {
    if measured.Some? && measured.value != 0.0 then measured.value else DefaultIconSize
  }

  /** Places the preview for a note at (screenX, screenY) in a viewport of the
      given size: it opens to the right of notes in the left half and to the
      left otherwise, and is raised above notes in the bottom half. */
  function PositionHUD(screenX: real, screenY: real, viewportWidth: real, viewportHeight: real,
                       iconWidth: Option<real>, iconHeight: Option<real>): (p: Placement)
    ensures p.orientation == Right <==> screenX < viewportWidth / 2.0
    ensures p.orientation == Right ==> p.left == screenX + IconSize(iconWidth)
    ensures p.orientation == Left ==> p.left == screenX - IconSize(iconWidth)
    ensures p.top == screenY - IconSize(iconHeight) / 2.0
    ensures p.transform.ShiftX() == -1.0 <==> p.orientation == Left
    ensures p.transform.ShiftY() == -1.0 <==> screenY > viewportHeight / 2.0
    ensures p.transform.Css() ==
              if screenY > viewportHeight / 2.0 then
                (if p.orientation == Right then "translateY(-100%)" else "translate(-100%, -100%)")
              else
                (if p.orientation == Right then "translateY(0)" else "translateX(-100%)")
  {
    var w := IconSize(iconWidth);
    var h := IconSize(iconHeight);
    var isBottomHalf := screenY > viewportHeight / 2.0;
    var orientation := if screenX < viewportWidth / 2.0 then Right else Left;
    var top := screenY - h / 2.0;
    if isBottomHalf then
      if orientation == Right then Placement(top, screenX + w, Right, ShiftUp)
      else Placement(top, screenX - w, Left, ShiftLeftAndUp)
    else
      if orientation == Right then Placement(top, screenX + w, Right, NoShift)
      else Placement(top, screenX - w, Left, ShiftLeft)
  }

  /** The rectangle a `width` by `height` preview occupies once the CSS
      transform has moved it by its own size. */
  function WidgetBox(p: Placement, width: real, height: real): Box
  {
    var left := p.left + p.transform.ShiftX() * width;
    var top := p.top + p.transform.ShiftY() * height;
    Box(left, top, left + width, top + height)
  }

  /** Whatever the preview's size, its near edge is one icon width beside the
      note: its left edge right of a left-half note, its right edge left of a
      right-half note; its top edge is at the icon's top for a top-half note
      and its bottom edge there for a bottom-half note. */
  lemma PreviewOpensAwayFromNote(screenX: real, screenY: real, viewportWidth: real, viewportHeight: real,
                                 iconWidth: Option<real>, iconHeight: Option<real>, width: real, height: real)
    ensures var b := WidgetBox(PositionHUD(screenX, screenY, viewportWidth, viewportHeight, iconWidth, iconHeight), width, height);
            var anchorY := screenY - IconSize(iconHeight) / 2.0;
            (screenX < viewportWidth / 2.0 ==> b.left == screenX + IconSize(iconWidth)) &&
            (screenX >= viewportWidth / 2.0 ==> b.right == screenX - IconSize(iconWidth)) &&
            (screenY > viewportHeight / 2.0 ==> b.bottom == anchorY) &&
            (screenY <= viewportHeight / 2.0 ==> b.top == anchorY)
  {
  }
}
