/** The raw option dictionary produced by the GRASS option parser, and the
    fatal errors the front end reports. */
module Cli {

  /** Option name to raw text. The parser hands every declared option over,
      with the empty string for one the user did not set. */
  type Options = map<string, string>

  /** `opts[key]`, where a key that is missing reads like an unset option. */
  function Get(opts: Options, key: string): string
  {
    if key in opts then opts[key] else ""
  }

  /** Python truthiness of `opts[key]`: a non-empty string counts as given. */
  predicate Given(opts: Options, key: string)
  {
    Get(opts, key) != ""
  }

  /** `order` is an iteration order of the dictionary `opts`
      (what `opts.iteritems()` visits): it lists every key of `opts`,
      possibly repeated, and nothing else. */
  ghost predicate Enumerates(opts: Options, order: seq<string>)
  {
    forall k :: k in opts <==> k in order
  }

  /** The reasons the front end stops the program. */
  datatype Fatal =
    | BadDuration(key: string)        // "<key>: format should be HH:MM:SS"
    | BadTimestamp(key: string)       // "<key>: format should be yyyy-mm-dd HH:MM"
    | BadCombination                  // "accepted combinations: ..."
    | BadNumber(key: string)          // float(v) raised an uncaught ValueError; the key is a label
    | OutputExists(name: string)      // "File <name> exists and will not be overwritten"
    | IncompatibleInfiltration        // "Infiltration model incompatible with user-defined rate"
    | GreenAmptIncomplete             // "<ga_list> are mutualy inclusive"
}
