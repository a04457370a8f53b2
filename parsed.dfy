/**
 * The value every command-line parser of the three shell generations returns:
 * `{variables, args, redirections}`.
 */
module Parsed {
  import opened Dict

  /** One `{mode, target}` entry of `redirections`. */
  datatype Redirection = Redirection(mode: string, target: string)

  /** Line-local assignments (in insertion order), positional arguments, redirections. */
  datatype ParsedLine = ParsedLine(variables: Dict<string>, args: seq<string>, redirections: seq<Redirection>)
}
