/**
 * What the help-text code receives from the code around it: the failed call's
 * exception (through `fc::exception`'s accessors), the regular-expression
 * engine and the localizer (as functions the caller supplies), and the error
 * stream `std::cerr` (as the sequence of the pieces written to it).
 */
module Collaborators {
  import opened VariantObjects

  /** `int64_t`, the type of `fc::exception::code()` and of the advice table's keys. */
  type Int64 = i: int | -0x8000_0000_0000_0000 <= i < 0x8000_0000_0000_0000

  /** One entry of `get_log()`: its format template and its argument data. */
  datatype LogMessage = LogMessage(format: string, data: VariantObject)

  /** The results of `code()`, `what()`, `to_detail_string()` and `get_log()`. */
  datatype Exception = Exception(code: Int64, what: string, detail: string, log: seq<LogMessage>)

  /** One `std::sub_match`: whether the group took part in the match, and its text. */
  datatype Group = Group(matched: bool, text: string)

  /**
   * Compiling a pattern with `std::regex` and running `std::regex_search` on a
   * text: the capture groups of the first match (group 0 is the whole match),
   * no match, or a thrown `std::regex_error` with its code and message.
   */
  datatype SearchResult =
    | Found(groups: seq<Group>)
    | NotFound
    | RegexError(code: int, what: string)

  /**
   * The external functions the help-text code calls, left uninterpreted:
   * `search` stands for the regex engine, `localizedWithVariant` and
   * `localized` for the localizer of localize.hpp.
   */
  datatype Env = Env(
    search: (string, string) -> SearchResult,
    localizedWithVariant: (string, VariantObject) -> string,
    localized: (string, VariantObject) -> string)

  /** `std::cerr`: every `<<` statement appends one piece; the stream's text is their concatenation. */
  class ErrorStream {
    var written: seq<string>

    constructor ()
      ensures written == []
    {
      written := [];
    }

    method Write(s: string)
      modifies this
      ensures written == old(written) + [s]
    {
      written := written + [s];
    }
  }
}
