/**
 * The option names and defaults of CLIOptions. The commons-cli option builder itself
 * is not modelled; only its facts are: the names, the defaults, and which options take a value.
 */
module CLIOptions {
  const InputFile: string := "input-file"
  const ThumbOut: string := "thumb-out"
  const FullOut: string := "full-out"

  const Overwrite: string := "overwrite"
  const DefaultOverwrite: bool := false

  const ThumbWidth: string := "thumb-width"
  const DefaultThumbWidth: int := 150

  const FullWidth: string := "full-width"
  const DefaultFullWidth: int := 400

  /** The options declared with hasArg and one argument: every option except overwrite. */
  predicate TakesValue(name: string) {
    name == InputFile || name == ThumbOut || name == FullOut || name == ThumbWidth || name == FullWidth
  }
}
