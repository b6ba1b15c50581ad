/**
 * Semantic colour roles of the theme (`SemanticColors`), as tags. Components
 * pick a role; the concrete colour a theme gives a role is not modelled.
 * `Clear` stands for SwiftUI's transparent `.clear`.
 */
module SemanticColors {
  datatype ColorRole =
    | TextPrimary | TextSecondary | TextTertiary | TextInverse
    | Background | Surface | SurfaceElevated
    | Border | Divider
    | ActionPrimary | ActionPrimaryPressed | ActionPrimaryDisabled | ActionOnPrimary
    | ActionSecondary | ActionSecondaryPressed | ActionSecondaryDisabled | ActionOnSecondary
    | Success | Warning | Error | Info
    | Clear
}
