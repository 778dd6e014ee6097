/** The runner's fatal errors and non-fatal warnings, as values instead of printed text. */
module Diagnostics {
  import opened Text

  /** What makes loading a YAML file fail. */
  datatype LoadCause =
    | DuplicateKey(key: string, line: nat)  // `line` is 1-based
    | Syntax(reason: string)                // any other YAML error, text supplied by the parser

  datatype Error =
    | NotAFile(path: string)
    | LoadFailure(path: string, cause: LoadCause)
    | NotUppercase(key: string)
    | EmptyString(key: string)
    | EmptyInList(key: string)
    | MissingRequired(names: seq<string>)
    | HostConflict(host: string, flag: string)
    | NullVariables   // `None.items()` raised in clone mode

  datatype Warning =
    | IterationLimit
    | Undefined(name: string, key: string)
    | NotJson

  function CauseMessage(c: LoadCause): string {
    match c
    case DuplicateKey(k, line) => "Duplicate key '" + k + "' found in YAML at line " + NatToString(line)
    case Syntax(reason) => reason
  }

  /** The text the runner prints (or carries in its exception) for each error. */
  function Message(e: Error): string {
    match e
    case NotAFile(path) => "Error: Config file '" + path + "' not found."
    case LoadFailure(path, c) => "Error parsing YAML file '" + path + "': " + CauseMessage(c)
    case NotUppercase(k) => "Error: Variable '" + k + "' must be uppercase."
    case EmptyString(k) => "Error: Variable '" + k + "' cannot be an empty string."
    case EmptyInList(k) => "Error: Variable '" + k + "' contains an empty string in the list."
    case MissingRequired(ns) => "Error: Missing required variables for ISO post: " + JoinComma(ns)
    case HostConflict(h, f) => "Error: Conflicting options: 'host' set to '" + h + "' but '" + f + "' flag provided."
    case NullVariables => "AttributeError: 'NoneType' object has no attribute 'items'"
  }
}
