/**
 * The button style (`WPCButtonStyle`): a variant x size x pressed lookup of
 * colour roles and metrics. Metrics are read from the theme's spacing and
 * radius scales, whose token values are whole points.
 */
module ButtonStyles {
  import Color = SemanticColors

  datatype ButtonVariant = Primary | Secondary | Tertiary
  datatype ButtonSize = Sm | Md | Lg

  /** The theme's spacing scale (`Spacing`). */
  datatype SpacingScale = SpacingScale(xxs: int, xs: int, sm: int, md: int, lg: int, xl: int, xxl: int, xxxl: int)
  /** The theme's corner-radius scale (`Radius`). */
  datatype RadiusScale = RadiusScale(xs: int, sm: int, md: int, lg: int, xl: int, pill: int)

  /** The default theme's scales (`SpacingTokens`, `RadiusTokens`). */
  const DefaultSpacing := SpacingScale(2, 4, 8, 12, 16, 24, 32, 40)
  const DefaultRadius := RadiusScale(6, 10, 14, 18, 24, 999)

  datatype Metrics = Metrics(height: int, horizontalPadding: int, cornerRadius: int, borderWidth: int)

  /** `metricsForSize`: fixed heights 40/48/56, a 1-point border, padding and radius taken from the theme. */
  function MetricsForSize(size: ButtonSize, spacing: SpacingScale, radius: RadiusScale): (m: Metrics)
    ensures m.borderWidth == 1
    ensures size == Sm ==> m == Metrics(40, spacing.lg, radius.md, 1)
    ensures size == Md ==> m == Metrics(48, spacing.xl, radius.lg, 1)
    ensures size == Lg ==> m == Metrics(56, spacing.xl, radius.xl, 1)
  {
    match size
    case Sm => Metrics(40, spacing.lg, radius.md, 1)
    case Md => Metrics(48, spacing.xl, radius.lg, 1)
    case Lg => Metrics(56, spacing.xl, radius.xl, 1)
  }

  /** Position of a size on the small-to-large scale. */
  function Rank(size: ButtonSize): nat {
    match size
    case Sm => 0
    case Md => 1
    case Lg => 2
  }

  /**
   * A larger button is strictly taller whatever the theme; with the default
   * theme it is also never less padded nor less rounded.
   */
  lemma MetricsGrowWithSize(a: ButtonSize, b: ButtonSize, spacing: SpacingScale, radius: RadiusScale)
    requires Rank(a) < Rank(b)
    ensures MetricsForSize(a, spacing, radius).height < MetricsForSize(b, spacing, radius).height
    ensures MetricsForSize(a, DefaultSpacing, DefaultRadius).horizontalPadding
         <= MetricsForSize(b, DefaultSpacing, DefaultRadius).horizontalPadding
    ensures MetricsForSize(a, DefaultSpacing, DefaultRadius).cornerRadius
         < MetricsForSize(b, DefaultSpacing, DefaultRadius).cornerRadius
  {
  }

  /** `backgroundColor(isPressed:)`: filled variants darken while pressed, the tertiary one is transparent. */
  function BackgroundColor(variant: ButtonVariant, isPressed: bool): (c: Color.ColorRole)
    ensures c == Color.Clear <==> variant == Tertiary
    ensures variant == Primary ==> c == (if isPressed then Color.ActionPrimaryPressed else Color.ActionPrimary)
    ensures variant == Secondary ==> c == (if isPressed then Color.ActionSecondaryPressed else Color.ActionSecondary)
  {
    match variant
    case Primary => if isPressed then Color.ActionPrimaryPressed else Color.ActionPrimary
    case Secondary => if isPressed then Color.ActionSecondaryPressed else Color.ActionSecondary
    case Tertiary => Color.Clear
  }

  /** `foregroundColor(isPressed:)`: only the tertiary variant reacts to pressing. */
  function ForegroundColor(variant: ButtonVariant, isPressed: bool): (c: Color.ColorRole)
    ensures variant == Primary ==> c == Color.ActionOnPrimary
    ensures variant == Secondary ==> c == Color.ActionOnSecondary
    ensures variant == Tertiary ==> c == (if isPressed then Color.TextPrimary else Color.ActionPrimary)
  {
    match variant
    case Primary => Color.ActionOnPrimary
    case Secondary => Color.ActionOnSecondary
    case Tertiary => if isPressed then Color.TextPrimary else Color.ActionPrimary
  }

  /** `borderColor(isPressed:)`: only the secondary variant has a visible border. */
  function BorderColor(variant: ButtonVariant, isPressed: bool): (c: Color.ColorRole)
    ensures c == Color.Border <==> variant == Secondary
    ensures c != Color.Border ==> c == Color.Clear
  {
    match variant
    case Primary => Color.Clear
    case Secondary => Color.Border
    case Tertiary => Color.Clear
  }

  /**
   * What pressing changes: the background iff the variant is filled, the
   * foreground iff it is tertiary, the border never.
   */
  lemma PressedEffects(variant: ButtonVariant)
    ensures BackgroundColor(variant, true) != BackgroundColor(variant, false) <==> variant != Tertiary
    ensures ForegroundColor(variant, true) != ForegroundColor(variant, false) <==> variant == Tertiary
    ensures BorderColor(variant, true) == BorderColor(variant, false)
  {
  }
}
