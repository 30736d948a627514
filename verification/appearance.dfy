/**
 * The bar's appearance options (`BarAppearanceBuilder`): their defaults and
 * the construction-time mirroring applied when the bar sits on the left
 * edge of the list.
 */
module Appearance {
  import opened Geometry

  /** `TMIndexBarAlignment`: where the text area sits vertically in the bar. */
  datatype Alignment = Center | Top | Bottom

  /** `TMIndexBarPosition`: the edge of the list the bar is attached to. */
  datatype Position = Right | Left

  const DefaultBarBackgroundWidth: real := 15.0
  const DefaultTextSpacing: real := 5.0
  /**
   * The text shown in place of a truncated label, as the source file spells
   * it: the UTF-8 bytes of the bullet U+2022 read back as Windows-1252,
   * which makes three characters.
   */
  const DefaultTruncatedItemText: string := "â€¢"
  const DefaultBarWidth: real := 30.0
  const DefaultOffset: Offset := Offset((DefaultBarWidth - DefaultBarBackgroundWidth) / 2.0, 0.0)

  /** The arguments of `BarAppearanceBuilder.init`, colours and font aside. */
  datatype Options = Options(
    truncatedItemText: string,
    alignment: Alignment,
    alwaysShowBarBackground: bool,
    barWidth: real,
    barBackgroundWidth: real,
    barBackgroundOffset: Offset,
    textOffset: Offset,
    textShadowOffset: Offset,
    textSpacing: real,
    backgroundViewCornerRadius: real,
    position: Position)

  /** The fields a `BarAppearanceBuilder` keeps once constructed. */
  datatype Builder = Builder(
    truncatedItemText: string,
    alignment: Alignment,
    alwaysShowBarBackground: bool,
    barWidth: real,
    barBackgroundWidth: real,
    barBackgroundOffset: Offset,
    textOffset: Offset,
    textSpacing: real,
    backgroundViewCornerRadius: real,
    position: Position)

  /** The default argument of every parameter of the initializer. */
  function DefaultOptions(): Options
  {
    Options(DefaultTruncatedItemText, Center, true, DefaultBarWidth, DefaultBarBackgroundWidth,
            DefaultOffset, DefaultOffset, DefaultOffset, DefaultTextSpacing, 0.0, Right)
  }

  /**
   * Every argument copied into its field. The text shadow offset is accepted
   * by the initializer but has no field, so it is dropped here.
   */
  function Store(o: Options): Builder
  {
    Builder(o.truncatedItemText, o.alignment, o.alwaysShowBarBackground, o.barWidth,
            o.barBackgroundWidth, o.barBackgroundOffset, o.textOffset, o.textSpacing,
            o.backgroundViewCornerRadius, o.position)
  }

  /** Reflection of an offset in the vertical axis. */
  function Reflect(off: Offset): Offset
  {
    Offset(-off.horizontal, off.vertical)
  }

  /** Mirrors the two offsets of a builder left-to-right. */
  function Mirror(b: Builder): (m: Builder)
    ensures Reflect(m.textOffset) == b.textOffset
    ensures Reflect(m.barBackgroundOffset) == b.barBackgroundOffset
    ensures m.(textOffset := b.textOffset, barBackgroundOffset := b.barBackgroundOffset) == b
    ensures m.textOffset.vertical == b.textOffset.vertical
    ensures m.barBackgroundOffset.vertical == b.barBackgroundOffset.vertical
    ensures m.textOffset.horizontal + b.textOffset.horizontal == 0.0
    ensures m.barBackgroundOffset.horizontal + b.barBackgroundOffset.horizontal == 0.0
  {
    b.(textOffset := Reflect(b.textOffset), barBackgroundOffset := Reflect(b.barBackgroundOffset))
  }

  /**
   * `BarAppearanceBuilder.init`: a right-edge bar keeps every argument as
   * given; a left-edge bar keeps them too except that the horizontal parts
   * of the text and background offsets point the other way.
   */
  function Build(o: Options): (b: Builder)
    ensures o.position == Right ==> b == Store(o)
    ensures o.position == Left ==> Mirror(b) == Store(o)
    ensures b.position == o.position
    ensures b.textOffset.vertical == o.textOffset.vertical
    ensures b.barBackgroundOffset.vertical == o.barBackgroundOffset.vertical
  {
    if o.position == Left then Mirror(Store(o)) else Store(o)
  }

  /** Mirroring twice restores the builder. */
  lemma MirrorInvolution(b: Builder)
    ensures Mirror(Mirror(b)) == b
  {
  }

  /**
   * The same options built for the two edges differ exactly by a mirror
   * image of their offsets.
   */
  lemma LeftIsMirrorOfRight(o: Options)
    ensures Build(o.(position := Left)) == Mirror(Build(o.(position := Right))).(position := Left)
  {
  }
}
