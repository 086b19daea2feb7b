/** The `RedirectHTTPS` middleware value: a `disabled` flag and the ordered
    replacement rules, built with `default`, `with_replacements` and
    `set_enabled`. */
module RedirectHttps {
  import opened Rewrite

  datatype Config = Config(disabled: bool, replacements: seq<Replacement>)

  /** `RedirectHTTPS::default()`: derived `Default`, so `disabled` is `false` and
      there are no rules. */
  function Default(): Config {
    Config(false, [])
  }

  /** `RedirectHTTPS::with_replacements(replacements)`: not disabled, with a copy of
      the rules in their given order. */
  function WithReplacements(replacements: seq<Replacement>): Config {
    Config(false, replacements)
  }

  /** `set_enabled(enabled)`: stores `disabled = !enabled`, keeping the rules. */
  function SetEnabled(c: Config, enabled: bool): Config {
    c.(disabled := !enabled)
  }

  /** The enabled flag that `set_enabled` writes, read back from the value. */
  predicate IsEnabled(c: Config) {
    !c.disabled
  }

  /** The default value is not disabled, has no rules, and is what
      `with_replacements` builds from an empty list. */
  lemma DefaultConfig()
    ensures !Default().disabled && Default().replacements == []
    ensures IsEnabled(Default())
    ensures Default() == WithReplacements([])
  {}

  /** `with_replacements` is never disabled and keeps every rule, in order. */
  lemma WithReplacementsConfig(replacements: seq<Replacement>)
    ensures !WithReplacements(replacements).disabled
    ensures |WithReplacements(replacements).replacements| == |replacements|
    ensures forall k :: 0 <= k < |replacements| ==>
      WithReplacements(replacements).replacements[k] == replacements[k]
  {}

  /** Reading the flag back gives what `set_enabled` stored, and the rules are
      untouched. */
  lemma SetEnabledGet(c: Config, enabled: bool)
    ensures IsEnabled(SetEnabled(c, enabled)) == enabled
    ensures SetEnabled(c, enabled).disabled == !enabled
    ensures SetEnabled(c, enabled).replacements == c.replacements
  {}

  /** Storing the flag the value already has changes nothing. */
  lemma SetEnabledOwnFlag(c: Config)
    ensures SetEnabled(c, IsEnabled(c)) == c
  {}

  /** A later `set_enabled` overrides an earlier one; in particular calling it
      twice with the same flag is the same as calling it once. */
  lemma SetEnabledLastWins(c: Config, first: bool, second: bool)
    ensures SetEnabled(SetEnabled(c, first), second) == SetEnabled(c, second)
    ensures SetEnabled(SetEnabled(c, second), second) == SetEnabled(c, second)
  {}
}
