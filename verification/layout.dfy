/**
 * Where the bar, its background and its text area go (`rectForTextArea`,
 * `rectForBarBackgroundView`, `rectForIndexBarFrame`).
 */
module Layout {
  import opened Geometry
  import opened Appearance
  import opened Reducer

  /**
   * The state of an index bar the layout reads: its resolved appearance,
   * the labels loaded from the delegate, the measured line height of the
   * font, and the bar's own bounds and frame heights.
   */
  datatype Bar = Bar(
    appearance: Builder,
    labels: seq<string>,
    lineHeight: real,
    boundsHeight: real,
    frameHeight: real)
  {
    function Measure(): Sizing
    {
      Sizing(lineHeight, appearance.textSpacing, boundsHeight)
    }

    /** The row count is defined: the labels fit, or rows have height. */
    predicate Valid()
    {
      Fits(Measure(), |labels|) || Measure().Valid()
    }

    /** `numberOfDisplayableRows` of this bar. */
    function Rows(): int
      requires Valid()
    {
      DisplayableRows(Measure(), |labels|)
    }
  }

  /** The vertical origin `rectForTextArea` asks for, before clamping. */
  function TextAreaTop(bar: Bar, height: real): real
  {
    var off := bar.appearance.textOffset.vertical;
    match bar.appearance.alignment
    case Top => off
    case Bottom => bar.frameHeight - off - height
    case Center => bar.boundsHeight * 0.5 - height * 0.5 + off
  }

  /**
   * `rectForTextArea`: a rectangle as wide as the bar and as tall as the
   * displayable rows plus a spacing above and below. Top alignment puts
   * its top edge at the vertical text offset; bottom alignment puts its
   * bottom edge that far above the frame's bottom; center alignment puts
   * its middle that far below the bounds' middle. A rectangle that would
   * start above the bar starts at the bar's top instead.
   */
  function TextArea(bar: Bar): (r: Rect)
    requires bar.Valid()
    ensures r.x == 0.0 && r.width == bar.appearance.barWidth
    ensures r.height == bar.Measure().RowHeight() * bar.Rows() as real + 2.0 * bar.appearance.textSpacing
    ensures Fits(bar.Measure(), |bar.labels|) ==> r.height == DesiredHeight(bar.Measure(), |bar.labels|)
    ensures r.y >= 0.0
    ensures r.y == 0.0 || r.y == TextAreaTop(bar, r.height)
    ensures TextAreaTop(bar, r.height) >= 0.0 ==> (match bar.appearance.alignment
      case Top => r.y == bar.appearance.textOffset.vertical
      case Bottom => r.y + r.height == bar.frameHeight - bar.appearance.textOffset.vertical
      case Center => r.y + r.height / 2.0 == bar.boundsHeight / 2.0 + bar.appearance.textOffset.vertical)
    ensures TextAreaTop(bar, r.height) < 0.0 ==> r.y == 0.0
  {
    var indexRowHeight := bar.appearance.textSpacing + bar.lineHeight;
    var height := indexRowHeight * bar.Rows() as real + bar.appearance.textSpacing * 2.0;
    Rect(0.0, Max(0.0, TextAreaTop(bar, height)), bar.appearance.barWidth, height)
  }

  /**
   * When every label fits and a centred text area has no vertical offset,
   * the text area lies inside the bar's bounds.
   */
  lemma FittingCentredTextAreaInsideBounds(bar: Bar)
    requires bar.Valid() && Fits(bar.Measure(), |bar.labels|)
    requires bar.appearance.alignment == Center && bar.appearance.textOffset.vertical == 0.0
    ensures var r := TextArea(bar); 0.0 <= r.y && r.y + r.height <= bar.boundsHeight
  {
  }

  /**
   * `rectForBarBackgroundView`: a strip as tall as the frame and as wide as
   * the configured background, whose centre sits the background offset
   * away from the bar's centre.
   */
  function BarBackground(app: Builder, frameHeight: real): (r: Rect)
    ensures r.x + r.width / 2.0 == app.barWidth / 2.0 + app.barBackgroundOffset.horizontal
    ensures r.y == 0.0 && r.height == frameHeight && r.width == app.barBackgroundWidth
  {
    Rect(app.barWidth * 0.5 - app.barBackgroundWidth * 0.5 + app.barBackgroundOffset.horizontal,
         0.0, app.barBackgroundWidth, frameHeight)
  }

  /**
   * The same options built for the two edges place the background at mirror
   * images of each other about the bar's centre line.
   */
  lemma BackgroundMirrorsAboutBarCentre(o: Options, frameHeight: real)
    ensures var right := BarBackground(Build(o.(position := Right)), frameHeight);
      var left := BarBackground(Build(o.(position := Left)), frameHeight);
      left.x == o.barWidth - (right.x + right.width) && left.width == right.width
  {
  }

  /**
   * With the default options the background strip is flush with the
   * bar's outer edge: its right edge is the bar's right edge for a right
   * bar, its left edge the bar's left edge for a left bar.
   */
  lemma DefaultBackgroundFlushWithOuterEdge(frameHeight: real)
    ensures var r := BarBackground(Build(DefaultOptions()), frameHeight);
      r.x + r.width == DefaultBarWidth
    ensures BarBackground(Build(DefaultOptions().(position := Left)), frameHeight).x == 0.0
  {
  }

  /** The content insets of the host list. */
  datatype Insets = Insets(top: real, left: real, bottom: real, right: real)

  /**
   * `rectForIndexBarFrame`. `anchor` is the host list's top-right corner
   * (right bar) or top-left corner (left bar) converted into the bar's
   * superview, which the model takes as given. The bar is as wide as
   * configured and as tall as the list less its top and bottom insets; a
   * right bar ends at the anchor, a left bar starts at x = 0, and the
   * vertical origin follows the scroll offset.
   */
  function BarFrame(position: Position, barWidth: real, anchor: Point, contentOffsetY: real,
                    inset: Insets, listHeight: real): (r: Rect)
    ensures r.width == barWidth && r.height + inset.top + inset.bottom == listHeight
    ensures position == Right ==> r.x + r.width == anchor.x
    ensures position == Left ==> r.x == 0.0
    ensures r.y - contentOffsetY - anchor.y == (if position == Right then inset.bottom else inset.top)
  {
    var origin :=
      if position == Right then Point(anchor.x - barWidth, anchor.y + contentOffsetY + inset.bottom)
      else Point(0.0, anchor.y + contentOffsetY + inset.top);
    Rect(origin.x, origin.y, barWidth, listHeight - (inset.top + inset.bottom))
  }
}
