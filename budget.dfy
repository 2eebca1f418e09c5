/**
 * Budget resolution. Each of the three budgets (links, images, characters of
 * content) is configured as a number where -1 means "auto"; a configured value
 * other than -1 wins, then the caller's argument, then a built-in default.
 */
module Budget {
  import opened Text

  const Auto: int := -1
  const DefaultMaxLinks: nat := 40
  const DefaultMaxImages: nat := 10
  const DefaultContentLimit: nat := 2000

  /** `undefinedIfAuto(value, autoValue)`: nothing when `value` is the auto sentinel. */
  function UndefinedIfAuto(value: int, autoValue: int): (r: Option<int>)
    ensures r == None <==> value == autoValue
    ensures r.Some? ==> r.value == value
  {
    if value == autoValue then None else Some(value)
  }

  /**
   * `undefinedIfAuto(config, -1) ?? argument ?? default`. The configured value
   * is at least -1; the caller's argument, when given, is a non-negative integer.
   * `??` only skips an absent value, so an explicit 0 is kept (0 means "exclude").
   */
  function Resolve(config: int, argument: Option<nat>, default: nat): (r: nat)
    requires config >= Auto
    ensures config != Auto ==> r == config
    ensures config == Auto && argument.Some? ==> r == argument.value
    ensures config == Auto && argument.None? ==> r == default
  {
    match UndefinedIfAuto(config, Auto)
    case Some(v) => v
    case None =>
      match argument
      case Some(a) => a
      case None => default
  }

  /** A budget resolves to 0, so that its output is excluded, exactly when an explicit 0 wins. */
  lemma ResolveExcludes(config: int, argument: Option<nat>, default: nat)
    requires config >= Auto && default > 0
    ensures Resolve(config, argument, default) == 0
        <==> config == 0 || (config == Auto && argument == Some(0))
  {
  }
}
