/**
 * The error-explanation dispatcher of the command-line client
 * (programs/eosioc/help_text.cpp): it turns a failed call's exception into
 * help text on the error stream, first through the numeric error code and its
 * advice table, and otherwise through an ordered catalog of patterns matched
 * against the exception's detail string.
 */
module HelpText {
  import opened VariantObjects
  import opened Collaborators
  import opened Decimal

  // ---------------------------------------------------------------------------
  // Output decoration: terminal colour escapes and std::endl.

  const Red: string := "\U{1B}[31m"
  const Green: string := "\U{1B}[32m"
  const Yellow: string := "\U{1B}[33m"
  const Reset: string := "\U{1B}[0m"
  const Endl: string := "\n"

  // ---------------------------------------------------------------------------
  // Help texts. Only their identity and their order in the catalog matter here,
  // so each stands for its literal by the name it has in help_text.cpp; `_()`
  // only marks a literal for translation, which happens in the localizer.

  const TransactionHelpTextHeader: string := "<transaction_help_text_header>"
  const DuplicateTransactionHelpText: string := "<duplicate_transaction_help_text>"
  const MissingPermsHelpText: string := "<missing_perms_help_text>"
  const MissingSigsHelpText: string := "<missing_sigs_help_text>"
  const MissingScopeHelpText: string := "<missing_scope_help_text>"
  const TxUnknownAccountHelpText: string := "<tx_unknown_account_help_text>"
  const UnknownAccountHelpText: string := "<unknown_account_help_text>"
  const MissingAbiHelpText: string := "<missing_abi_help_text>"
  const UnknownWalletHelpText: string := "<unknown_wallet_help_text>"
  const BadWalletPasswordHelpText: string := "<bad_wallet_password_help_text>"
  const LockedWalletHelpText: string := "<locked_wallet_help_text>"
  const DuplicateKeyImportHelpText: string := "<duplicate_key_import_help_text>"
  const UnknownAbiTableHelpText: string := "<unknown_abi_table_help_text>"

  const HelpRegexError: string := "Error locating help text: ${code} ${what}"

  // ---------------------------------------------------------------------------
  // The pattern catalog `error_help_text`: evaluated top to bottom, first match wins.

  datatype Rule = Rule(pattern: string, messages: seq<string>)

  const ErrorHelpText: seq<Rule> := [
    Rule("Error\n: 3030011", [TransactionHelpTextHeader, DuplicateTransactionHelpText]),
    Rule("Error\n: 3030001[^\\x00]*\\{\"acct\":\"([^\"]*)\"\\}", [TransactionHelpTextHeader, MissingPermsHelpText]),
    Rule("Error\n: 3030002[^\\x00]*Transaction declares authority.*account\":\"([^\"]*)\",\"permission\":\"([^\"]*)\"", [TransactionHelpTextHeader, MissingSigsHelpText]),
    Rule("Error\n: 3030008[^\\x00]*\\{\"scope\":\"([^\"]*)\"\\}", [TransactionHelpTextHeader, MissingScopeHelpText]),
    Rule("Account not found: ([\\S]*)", [TransactionHelpTextHeader, TxUnknownAccountHelpText, UnknownAccountHelpText]),
    Rule("Error\n: 303", [TransactionHelpTextHeader]),
    Rule("unknown key[^\\x00]*abi_json_to_bin.*code\":\"([^\"]*)\".*action\":\"([^\"]*)\"", [MissingAbiHelpText]),
    Rule("unknown key[^\\x00]*chain/get_code.*name\":\"([^\"]*)\"", [UnknownAccountHelpText]),
    Rule("Unable to open file[^\\x00]*wallet/open.*postdata\":\"([^\"]*)\"", [UnknownWalletHelpText]),
    Rule("AES error[^\\x00]*wallet/unlock.*postdata\":\\[\"([^\"]*)\"", [BadWalletPasswordHelpText]),
    Rule("Wallet is locked: ([\\S]*)", [LockedWalletHelpText]),
    Rule("Key already in wallet[^\\x00]*wallet/import_key.*postdata\":\\[\"([^\"]*)\"", [DuplicateKeyImportHelpText]),
    Rule("ABI does not define table[^\\x00]*get_table_rows.*code\":\"([^\"]*)\",\"table\":\"([^\"]*)\"", [UnknownAbiTableHelpText])
  ]

  // ---------------------------------------------------------------------------
  // The advice table `error_advice`, keyed by error code. Each advice text
  // (a hint, or a JSON schema and example) is again a non-empty stand-in.

  const NameAdvice: string := "<error_advice 3120001>"
  const PublicKeyAdvice: string := "<error_advice 3120002>"
  const AuthorityJsonAdvice: string := "<error_advice 3120003>"
  const ActionJsonAdvice: string := "<error_advice 3120004>"
  const TransactionJsonAdvice: string := "<error_advice 3120005>"
  const AbiJsonAdvice: string := "<error_advice 3120006>"

  const ErrorAdvice: map<Int64, string> := map[
    3120001 := NameAdvice,
    3120002 := PublicKeyAdvice,
    3120003 := AuthorityJsonAdvice,
    3120004 := ActionJsonAdvice,
    3120005 := TransactionJsonAdvice,
    3120006 := AbiJsonAdvice
  ]

  // ---------------------------------------------------------------------------
  // smatch_to_variant: capture groups as arguments keyed "0", "1", ...

  /** The text a group contributes: its matched text, or "" when it did not take part. */
  function GroupValue(g: Group): string {
    if g.matched then g.text else ""
  }

  /** The argument object for a match: entry i is key "i" with group i's value. */
  function MatchArgs(groups: seq<Group>): VariantObject {
    seq(|groups|, i requires 0 <= i < |groups| => Entry(DecimalString(i), Str(GroupValue(groups[i]))))
  }

  method SmatchToVariant(groups: seq<Group>) returns (result: VariantObject)
    ensures result == MatchArgs(groups)
  {
    result := [];
    var index := 0;
    while index < |groups|
      invariant 0 <= index <= |groups|
      invariant |result| == index
      invariant forall j :: 0 <= j < index ==> result[j] == Entry(DecimalString(j), Str(GroupValue(groups[j])))
    {
      var name := DecimalString(index);
      if groups[index].matched {
        result := result + [Entry(name, Str(groups[index].text))];
      } else {
        result := result + [Entry(name, Str(""))];
      }
      index := index + 1;
    }
  }

  /** Every group index has its key, holding the group's text or "" for a group that did not take part. */
  lemma MatchArgsLookup(groups: seq<Group>, i: nat)
    requires i < |groups|
    ensures Find(MatchArgs(groups), DecimalString(i)) == Some(Str(GroupValue(groups[i])))
    ensures !groups[i].matched ==> Find(MatchArgs(groups), DecimalString(i)) == Some(Str(""))
  {
    var args := MatchArgs(groups);
    forall j | 0 <= j < i ensures args[j].key != DecimalString(i) {
      DecimalStringInjective(j, i);
    }
    FindFirst(args, DecimalString(i), i);
  }

  /** The argument object has no keys other than "0" .. "n-1", one entry per group. */
  lemma MatchArgsKeys(groups: seq<Group>, key: string)
    ensures |MatchArgs(groups)| == |groups|
    ensures HasKey(MatchArgs(groups), key) <==> exists i :: 0 <= i < |groups| && DecimalString(i) == key
  {
    var args := MatchArgs(groups);
    if HasKey(args, key) {
      var i :| 0 <= i < |args| && args[i].key == key;
      assert DecimalString(i) == key;
    }
    if exists i :: 0 <= i < |groups| && DecimalString(i) == key {
      var i :| 0 <= i < |groups| && DecimalString(i) == key;
      assert args[i].key == key;
    }
  }

  // ---------------------------------------------------------------------------
  // print_recognized_error_code: the coded-advice path.

  /** Codes 3000000 to 3999999 are the chain's own error codes. */
  predicate IsRecognizedCode(code: int) {
    3000000 <= code <= 3999999
  }

  /** The advice for a code: its table entry, or "" when it has none. */
  function Advice(code: Int64): (advice: string)
    ensures advice != "" <==> code in ErrorAdvice
    ensures code in ErrorAdvice ==> advice == ErrorAdvice[code]
  {
    if code in ErrorAdvice then ErrorAdvice[code] else ""
  }

  /** What one log entry adds to the explanation: nothing when its format is empty. */
  function Segment(m: LogMessage, localize: (string, VariantObject) -> string): string {
    if m.format == "" then "" else "\n  " + localize(m.format, m.data)
  }

  /** The explanation accumulated over the log, in log order. */
  function Explanation(log: seq<LogMessage>, localize: (string, VariantObject) -> string): string {
    if |log| == 0 then "" else Explanation(log[..|log| - 1], localize) + Segment(log[|log| - 1], localize)
  }

  /** The explanation as printed: "Error Details:" and the segments, or nothing. */
  function Details(log: seq<LogMessage>, localize: (string, VariantObject) -> string): string {
    var explanation := Explanation(log, localize);
    if explanation == "" then "" else "Error Details:" + explanation
  }

  /** The first line of the coded path: the code and the exception's message, in red. */
  function CodeLine(e: Exception): string
    requires IsRecognizedCode(e.code)
  {
    Red + "Error " + DecimalString(e.code) + ": " + e.what + Reset
  }

  /** The advice, in green, written only when there is some. */
  function AdviceWrites(advice: string): seq<string> {
    if advice != "" then ["\n" + Green + advice + Reset] else []
  }

  /** The details, in yellow and ended by std::endl, written only when there are some. */
  function DetailsWrites(details: string): seq<string> {
    if details != "" then ["\n" + Yellow + details + Reset + Endl] else []
  }

  /** The pieces the coded path writes: the code line, the advice, the details. */
  function CodedWrites(e: Exception, env: Env): seq<string>
    requires IsRecognizedCode(e.code)
  {
    [CodeLine(e)] + AdviceWrites(Advice(e.code)) + DetailsWrites(Details(e.log, env.localizedWithVariant))
  }

  /** The explanation loop of print_recognized_error_code, with its "Error Details:" prefix. */
  method ExplainLog(log: seq<LogMessage>, localize: (string, VariantObject) -> string) returns (explanation: string)
    ensures explanation == Details(log, localize)
  {
    explanation := "";
    var i := 0;
    while i < |log|
      invariant 0 <= i <= |log|
      invariant explanation == Explanation(log[..i], localize)
    {
      var entry := log[i];
      assert log[..i + 1][..i] == log[..i];
      if entry.format != "" {
        explanation := explanation + "\n  " + localize(entry.format, entry.data);
      }
      i := i + 1;
    }
    assert log[..i] == log;
    if explanation != "" {
      explanation := "Error Details:" + explanation;
    }
  }

  method PrintRecognizedErrorCode(e: Exception, env: Env, err: ErrorStream) returns (handled: bool)
    modifies err
    ensures handled <==> IsRecognizedCode(e.code)
    ensures err.written == old(err.written) + (if handled then CodedWrites(e, env) else [])
  {
    if e.code >= 3000000 && e.code <= 3999999 {
      var advice := "";
      if e.code in ErrorAdvice {
        advice := ErrorAdvice[e.code];
      }
      var explanation := ExplainLog(e.log, env.localizedWithVariant);

      err.Write(Red + "Error " + DecimalString(e.code) + ": " + e.what + Reset);
      if advice != "" {
        err.Write("\n" + Green + advice + Reset);
      }
      assert err.written == old(err.written) + [CodeLine(e)] + AdviceWrites(advice);
      if explanation != "" {
        err.Write("\n" + Yellow + explanation + Reset + Endl);
      }
      assert err.written == old(err.written) + [CodeLine(e)] + AdviceWrites(advice) + DetailsWrites(explanation);
      return true;
    }
    return false;
  }

  /** The explanation of a log is the explanation of its parts, in order. */
  lemma {:induction false} ExplanationAppend(a: seq<LogMessage>, b: seq<LogMessage>, localize: (string, VariantObject) -> string)
    ensures Explanation(a + b, localize) == Explanation(a, localize) + Explanation(b, localize)
    decreases |b|
  {
    if |b| > 0 {
      var b' := b[..|b| - 1];
      assert (a + b)[..|a + b| - 1] == a + b';
      assert (a + b)[|a + b| - 1] == b[|b| - 1];
      ExplanationAppend(a, b', localize);
    } else {
      assert a + b == a;
    }
  }

  /** A single entry adds "\n  " and its localized format, or nothing when the format is empty. */
  lemma ExplanationOfOne(m: LogMessage, localize: (string, VariantObject) -> string)
    ensures m.format == "" ==> Explanation([m], localize) == ""
    ensures m.format != "" ==> Explanation([m], localize) == "\n  " + localize(m.format, m.data)
  {
  }

  /** Entries with an empty format are skipped. */
  lemma ExplanationSkipsEmptyFormat(a: seq<LogMessage>, m: LogMessage, b: seq<LogMessage>, localize: (string, VariantObject) -> string)
    requires m.format == ""
    ensures Explanation(a + [m] + b, localize) == Explanation(a + b, localize)
  {
    ExplanationAppend(a + [m], b, localize);
    ExplanationAppend(a, [m], localize);
    ExplanationAppend(a, b, localize);
    ExplanationOfOne(m, localize);
  }

  /** The explanation is empty exactly when every log entry has an empty format. */
  lemma {:induction false} ExplanationEmptyIff(log: seq<LogMessage>, localize: (string, VariantObject) -> string)
    ensures Explanation(log, localize) == "" <==> forall i :: 0 <= i < |log| ==> log[i].format == ""
    decreases |log|
  {
    if |log| > 0 {
      var init := log[..|log| - 1];
      ExplanationEmptyIff(init, localize);
      assert forall i :: 0 <= i < |init| ==> init[i] == log[i];
    }
  }

  /**
   * The coded path writes the code line first, then the advice exactly when
   * the code has a table entry, then the details exactly when some log entry
   * has a non-empty format.
   */
  lemma CodedWritesLines(e: Exception, env: Env)
    requires IsRecognizedCode(e.code)
    ensures var w := CodedWrites(e, env);
      && |w| == 1 + (if e.code in ErrorAdvice then 1 else 0)
                  + (if exists i :: 0 <= i < |e.log| && e.log[i].format != "" then 1 else 0)
      && w[0] == Red + "Error " + DecimalString(e.code) + ": " + e.what + Reset
      && (e.code in ErrorAdvice ==> w[1] == "\n" + Green + ErrorAdvice[e.code] + Reset)
      && ((exists i :: 0 <= i < |e.log| && e.log[i].format != "") ==>
            && w[|w| - 1] == "\n" + Yellow + Details(e.log, env.localizedWithVariant) + Reset + Endl
            && Details(e.log, env.localizedWithVariant) == "Error Details:" + Explanation(e.log, env.localizedWithVariant))
  {
    var explanation := Explanation(e.log, env.localizedWithVariant);
    ExplanationEmptyIff(e.log, env.localizedWithVariant);
    var aw := AdviceWrites(Advice(e.code));
    var dw := DetailsWrites(Details(e.log, env.localizedWithVariant));
    assert e.code in ErrorAdvice ==> aw == ["\n" + Green + ErrorAdvice[e.code] + Reset];
    assert e.code !in ErrorAdvice ==> aw == [];
    assert explanation != "" ==> dw == ["\n" + Yellow + Details(e.log, env.localizedWithVariant) + Reset + Endl];
    assert explanation == "" ==> dw == [];
  }

  // ---------------------------------------------------------------------------
  // print_help_text: coded path first, then the pattern catalog.

  /** Detail strings longer than this are not matched at all. */
  const MaxDetailSize: nat := 2048

  /** What the catalog walk ends with: the first rule whose pattern is found, no rule, or a regex error. */
  datatype Classification =
    | Matched(index: nat, groups: seq<Group>)
    | NoMatch
    | Fault(index: nat, code: int, what: string)

  /** Walks `rules` from index `from`: a pattern that is not found passes on to the next rule. */
  function Classify(rules: seq<Rule>, text: string, search: (string, string) -> SearchResult, from: nat): (c: Classification)
    ensures c.Matched? ==> from <= c.index < |rules|
    ensures c.Fault? ==> from <= c.index < |rules|
    decreases |rules| - from
  {
    if from >= |rules| then NoMatch
    else match search(rules[from].pattern, text)
      case Found(groups) => Matched(from, groups)
      case RegexError(code, what) => Fault(from, code, what)
      case NotFound => Classify(rules, text, search, from + 1)
  }

  /** One line per message, each localized with the match's arguments. */
  function MessageWrites(messages: seq<string>, args: VariantObject, localize: (string, VariantObject) -> string): seq<string> {
    seq(|messages|, i requires 0 <= i < |messages| => localize(messages[i], args) + Endl)
  }

  /** The line written when the regex engine throws. */
  function RegexErrorLine(code: int, what: string, env: Env): string {
    env.localized(HelpRegexError, [Entry("code", Int(code)), Entry("what", Str(what))]) + Endl
  }

  /** The result of `print_help_text`, the pieces it writes, and how many catalog patterns it tries. */
  datatype Outcome = Outcome(handled: bool, writes: seq<string>, tried: nat)

  function HelpTextOutcome(e: Exception, env: Env): Outcome {
    if IsRecognizedCode(e.code) then Outcome(true, CodedWrites(e, env), 0)
    else if |e.detail| > MaxDetailSize then Outcome(false, [], 0)
    else match Classify(ErrorHelpText, e.detail, env.search, 0)
      case Matched(k, groups) =>
        Outcome(true, MessageWrites(ErrorHelpText[k].messages, MatchArgs(groups), env.localizedWithVariant), k + 1)
      case NoMatch => Outcome(false, [], |ErrorHelpText|)
      case Fault(k, code, what) => Outcome(false, [RegexErrorLine(code, what, env)], k + 1)
  }

  method PrintHelpText(e: Exception, env: Env, err: ErrorStream) returns (result: bool, ghost tried: nat)
    modifies err
    ensures result == HelpTextOutcome(e, env).handled
    ensures err.written == old(err.written) + HelpTextOutcome(e, env).writes
    ensures tried == HelpTextOutcome(e, env).tried
  {
    tried := 0;
    var recognized := PrintRecognizedErrorCode(e, env, err);
    if recognized {
      return true, tried;
    }
    result := false;
    var detail := e.detail;
    if |detail| > 2048 {
      return;
    }

    var thrown: Option<SearchResult> := None;
    var i := 0;
    while i < |ErrorHelpText|
      invariant 0 <= i <= |ErrorHelpText|
      invariant !result && thrown.None? && tried == i
      invariant Classify(ErrorHelpText, detail, env.search, 0) == Classify(ErrorHelpText, detail, env.search, i)
      invariant err.written == old(err.written)
    {
      var candidate := ErrorHelpText[i];
      var matches := env.search(candidate.pattern, detail);
      tried := tried + 1;
      if matches.RegexError? {
        thrown := Some(matches);
        break;
      }
      if matches.Found? {
        var args := SmatchToVariant(matches.groups);
        var j := 0;
        while j < |candidate.messages|
          invariant 0 <= j <= |candidate.messages|
          invariant err.written == old(err.written) + MessageWrites(candidate.messages[..j], args, env.localizedWithVariant)
        {
          err.Write(env.localizedWithVariant(candidate.messages[j], args) + Endl);
          assert MessageWrites(candidate.messages[..j + 1], args, env.localizedWithVariant)
              == MessageWrites(candidate.messages[..j], args, env.localizedWithVariant)
                 + [env.localizedWithVariant(candidate.messages[j], args) + Endl];
          j := j + 1;
        }
        assert candidate.messages[..j] == candidate.messages;
        result := true;
        break;
      }
      i := i + 1;
    }

    if thrown.Some? {
      err.Write(env.localized(HelpRegexError, [Entry("code", Int(thrown.value.code)), Entry("what", Str(thrown.value.what))]) + Endl);
    }
  }

  // ---------------------------------------------------------------------------
  // Properties of the catalog walk (for any catalog and any matcher).

  /** A rule is chosen exactly when its pattern is found and every earlier pattern was not found. */
  lemma {:induction false} ClassifyMatchedIff(rules: seq<Rule>, text: string, search: (string, string) -> SearchResult,
                                              from: nat, k: nat, groups: seq<Group>)
    ensures Classify(rules, text, search, from) == Matched(k, groups) <==>
      && from <= k < |rules|
      && search(rules[k].pattern, text) == Found(groups)
      && forall j :: from <= j < k ==> search(rules[j].pattern, text) == NotFound
    decreases |rules| - from
  {
    if from < |rules| && search(rules[from].pattern, text).NotFound? {
      ClassifyMatchedIff(rules, text, search, from + 1, k, groups);
    }
  }

  /** A regex error ends the walk exactly when it is raised before any pattern is found. */
  lemma {:induction false} ClassifyFaultIff(rules: seq<Rule>, text: string, search: (string, string) -> SearchResult,
                                            from: nat, k: nat, code: int, what: string)
    ensures Classify(rules, text, search, from) == Fault(k, code, what) <==>
      && from <= k < |rules|
      && search(rules[k].pattern, text) == RegexError(code, what)
      && forall j :: from <= j < k ==> search(rules[j].pattern, text) == NotFound
    decreases |rules| - from
  {
    if from < |rules| && search(rules[from].pattern, text).NotFound? {
      ClassifyFaultIff(rules, text, search, from + 1, k, code, what);
    }
  }

  /** The walk finds nothing exactly when no remaining pattern is found and none raises an error. */
  lemma {:induction false} ClassifyNoMatchIff(rules: seq<Rule>, text: string, search: (string, string) -> SearchResult, from: nat)
    ensures Classify(rules, text, search, from) == NoMatch <==>
      forall j :: from <= j < |rules| ==> search(rules[j].pattern, text) == NotFound
    decreases |rules| - from
  {
    if from < |rules| && search(rules[from].pattern, text).NotFound? {
      ClassifyNoMatchIff(rules, text, search, from + 1);
    }
  }

  // ---------------------------------------------------------------------------
  // Properties of print_help_text.

  /** A recognized code takes the coded path whatever the detail string and the matcher: no pattern is tried. */
  lemma CodedPathHasPriority(e: Exception, env: Env, search': (string, string) -> SearchResult)
    requires IsRecognizedCode(e.code)
    ensures HelpTextOutcome(e, env) == Outcome(true, CodedWrites(e, env), 0)
    ensures HelpTextOutcome(e, env) == HelpTextOutcome(e, env.(search := search'))
  {
  }

  /** Outside the recognized range, a detail string over the ceiling is never matched and nothing is written. */
  lemma OversizedDetailIsNotMatched(e: Exception, env: Env)
    requires !IsRecognizedCode(e.code) && |e.detail| > MaxDetailSize
    ensures HelpTextOutcome(e, env) == Outcome(false, [], 0)
  {
  }

  /**
   * First match wins: when rule k's pattern is the first one found (the detail
   * string being at most the ceiling, inclusive), exactly rule k's messages are
   * written, in order, and no later rule is tried.
   */
  lemma FirstMatchWins(e: Exception, env: Env, k: nat, groups: seq<Group>)
    requires !IsRecognizedCode(e.code) && |e.detail| <= MaxDetailSize
    requires k < |ErrorHelpText| && env.search(ErrorHelpText[k].pattern, e.detail) == Found(groups)
    requires forall j :: 0 <= j < k ==> env.search(ErrorHelpText[j].pattern, e.detail) == NotFound
    ensures var o := HelpTextOutcome(e, env);
      && o.handled && o.tried == k + 1
      && |o.writes| == |ErrorHelpText[k].messages|
      && forall i :: 0 <= i < |o.writes| ==>
           o.writes[i] == env.localizedWithVariant(ErrorHelpText[k].messages[i], MatchArgs(groups)) + Endl
  {
    ClassifyMatchedIff(ErrorHelpText, e.detail, env.search, 0, k, groups);
  }

  /** Outside the recognized range, the call succeeds exactly when some pattern is found before any error. */
  lemma CatalogHandledIff(e: Exception, env: Env)
    requires !IsRecognizedCode(e.code)
    ensures HelpTextOutcome(e, env).handled <==>
      && |e.detail| <= MaxDetailSize
      && exists k :: 0 <= k < |ErrorHelpText| && env.search(ErrorHelpText[k].pattern, e.detail).Found?
           && forall j :: 0 <= j < k ==> env.search(ErrorHelpText[j].pattern, e.detail) == NotFound
  {
    if |e.detail| <= MaxDetailSize {
      var c := Classify(ErrorHelpText, e.detail, env.search, 0);
      if c.Matched? {
        ClassifyMatchedIff(ErrorHelpText, e.detail, env.search, 0, c.index, c.groups);
      }
      if exists k :: 0 <= k < |ErrorHelpText| && env.search(ErrorHelpText[k].pattern, e.detail).Found?
           && forall j :: 0 <= j < k ==> env.search(ErrorHelpText[j].pattern, e.detail) == NotFound {
        var k :| 0 <= k < |ErrorHelpText| && env.search(ErrorHelpText[k].pattern, e.detail).Found?
           && forall j :: 0 <= j < k ==> env.search(ErrorHelpText[j].pattern, e.detail) == NotFound;
        ClassifyMatchedIff(ErrorHelpText, e.detail, env.search, 0, k, env.search(ErrorHelpText[k].pattern, e.detail).groups);
      }
    }
  }

  /** When no pattern is found, nothing is written, every rule has been tried, and the call fails. */
  lemma NoMatchWritesNothing(e: Exception, env: Env)
    requires !IsRecognizedCode(e.code) && |e.detail| <= MaxDetailSize
    requires forall j :: 0 <= j < |ErrorHelpText| ==> env.search(ErrorHelpText[j].pattern, e.detail) == NotFound
    ensures HelpTextOutcome(e, env) == Outcome(false, [], |ErrorHelpText|)
  {
    ClassifyNoMatchIff(ErrorHelpText, e.detail, env.search, 0);
  }

  /** A regex error writes one line naming the error, stops the walk, and the call fails. */
  lemma RegexErrorWritesOneLine(e: Exception, env: Env, k: nat, code: int, what: string)
    requires !IsRecognizedCode(e.code) && |e.detail| <= MaxDetailSize
    requires k < |ErrorHelpText| && env.search(ErrorHelpText[k].pattern, e.detail) == RegexError(code, what)
    requires forall j :: 0 <= j < k ==> env.search(ErrorHelpText[j].pattern, e.detail) == NotFound
    ensures HelpTextOutcome(e, env) ==
      Outcome(false, [env.localized(HelpRegexError, [Entry("code", Int(code)), Entry("what", Str(what))]) + Endl], k + 1)
  {
    ClassifyFaultIff(ErrorHelpText, e.detail, env.search, 0, k, code, what);
  }

  /**
   * The duplicate-transaction rule (code 3030011) stands before the generic
   * rule for codes 303...: when both patterns are found, the duplicate help is
   * written and the generic rule is never tried.
   */
  lemma DuplicateRuleBeforeGenericRule(e: Exception, env: Env, groups: seq<Group>)
    requires !IsRecognizedCode(e.code) && |e.detail| <= MaxDetailSize
    requires env.search("Error\n: 3030011", e.detail) == Found(groups)
    ensures ErrorHelpText[0].pattern == "Error\n: 3030011" && ErrorHelpText[5].pattern == "Error\n: 303"
    ensures var args := MatchArgs(groups);
      HelpTextOutcome(e, env) == Outcome(true, [
        env.localizedWithVariant(TransactionHelpTextHeader, args) + Endl,
        env.localizedWithVariant(DuplicateTransactionHelpText, args) + Endl], 1)
  {
  }

  /**
   * An unknown account: when the "Account not found" rule is the first to
   * match, with "alice" as its group, the header, the unknown-account line
   * and the unknown-accounts text are written, with arguments "0" and "1".
   */
  lemma AccountNotFoundScenario(e: Exception, env: Env)
    requires !IsRecognizedCode(e.code) && |e.detail| <= MaxDetailSize
    requires forall j :: 0 <= j < 4 ==> env.search(ErrorHelpText[j].pattern, e.detail) == NotFound
    requires env.search("Account not found: ([\\S]*)", e.detail)
      == Found([Group(true, "Account not found: alice"), Group(true, "alice")])
    ensures var args := [Entry("0", Str("Account not found: alice")), Entry("1", Str("alice"))];
      HelpTextOutcome(e, env) == Outcome(true, [
        env.localizedWithVariant(TransactionHelpTextHeader, args) + Endl,
        env.localizedWithVariant(TxUnknownAccountHelpText, args) + Endl,
        env.localizedWithVariant(UnknownAccountHelpText, args) + Endl], 5)
  {
    var groups := [Group(true, "Account not found: alice"), Group(true, "alice")];
    FirstMatchWins(e, env, 4, groups);
    assert DecimalString(0) == "0" && DecimalString(1) == "1";
    assert MatchArgs(groups) == [Entry("0", Str("Account not found: alice")), Entry("1", Str("alice"))];
  }
}
