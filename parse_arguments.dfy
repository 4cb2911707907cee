// `Homebrew::Command::ParseArguments`: the stricter validator and the
// per-option predicates built from a command's declared option names and
// its command line.

module ParseArguments {
  import opened Wrappers
  import opened Text
  import opened Validator

  /** `ARGV.dup.uniq`: the command line's tokens, each once. */
  function ArgvTokens(argv: seq<string>): seq<string> {
    Uniq(argv)
  }

  /**
   * The `invalid_options` of `error_msg`: the `--` tokens that are not,
   * character for character, a declared option name.
   */
  function InvalidTokens(optionNames: seq<string>, tokens: seq<string>): seq<string> {
    Filter(Filter(tokens, OptionLike), t => t !in optionNames)
  }

  const Prefix := "Invalid option(s) provided: "

  /** `error_msg`: nothing when every `--` token is declared, else the invalid tokens. */
  function ErrorMsg(optionNames: seq<string>, tokens: seq<string>): (r: Option<string>)
    ensures r.None? <==> forall t :: t in tokens && OptionLike(t) ==> t in optionNames
    ensures r.Some? ==> Prefix <= r.value
  {
    var invalid := InvalidTokens(optionNames, tokens);
    if invalid == [] then
      None
    else
      assert invalid[0] in invalid;
      Some(Prefix + Join(invalid, " "))
  }

  /**
   * A token is reported exactly when it appears on the command line,
   * matches `/^--/` and is not a declared option name.
   */
  lemma InvalidTokensMembers(optionNames: seq<string>, argv: seq<string>, x: string)
    ensures x in InvalidTokens(optionNames, ArgvTokens(argv)) <==> x in argv && OptionLike(x) && x !in optionNames
  {
  }

  /**
   * The report lists each invalid token once, in the order of its first
   * appearance on the command line.
   */
  lemma InvalidTokensOrder(optionNames: seq<string>, argv: seq<string>)
    ensures InFirstOccurrenceOrder(InvalidTokens(optionNames, ArgvTokens(argv)), argv)
    ensures Distinct(InvalidTokens(optionNames, ArgvTokens(argv)))
  {
    UniqOrder(argv);
    FilterOrder(Uniq(argv), OptionLike, argv);
    FilterOrder(Filter(Uniq(argv), OptionLike), t => t !in optionNames, argv);
    OrderDistinct(InvalidTokens(optionNames, ArgvTokens(argv)), argv);
  }

  /**
   * The message reads back: after the prefix, the text splits at spaces
   * into exactly the reported tokens.
   */
  lemma ErrorMsgReadBack(optionNames: seq<string>, tokens: seq<string>)
    requires ErrorMsg(optionNames, tokens).Some?
    requires forall t :: t in tokens ==> ' ' !in t
    ensures var m := ErrorMsg(optionNames, tokens).value;
            Split(m[|Prefix|..], ' ') == InvalidTokens(optionNames, tokens)
  {
    var invalid := InvalidTokens(optionNames, tokens);
    assert ErrorMsg(optionNames, tokens).value[|Prefix|..] == Join(invalid, " ");
    assert forall k :: 0 <= k < |invalid| ==> invalid[k] in invalid;
    SplitJoin(invalid, ' ');
  }

  /**
   * Unlike `argv_invalid_options_passed`, the comparison is on the whole
   * token: `n=v` is reported although `n` is declared.
   */
  lemma ValueIsInvalid(n: string, v: string)
    requires OptionLike(n) && '=' !in n
    ensures InvalidTokens([n], ArgvTokens([n + "=" + v])) == [n + "=" + v]
    ensures InvalidOptionsPassed([n], [n + "=" + v]) == []
  {
    var t := n + "=" + v;
    OptionLikeExtends(n, "=" + v);
    Assoc(n, "=", v);
    assert OptionLike(t);
    assert t != n by { assert |t| != |n|; }
    assert [t] == [] + [t];
    UniqSnoc([], t);
    FilterSnoc([], t, OptionLike);
    FilterSnoc([], t, x => x !in [n]);
    FirstFieldEq(n, v);
    AllDeclared([n], [t]);
  }

  /**
   * The generated predicate `name?`: whether the option name is among
   * the command line's tokens.
   */
  predicate IsFlagSet(tokens: seq<string>, optionName: string) {
    optionName in tokens
  }

  /** Removing repetitions does not change which flags are set. */
  lemma FlagSetOnCommandLine(argv: seq<string>, optionName: string)
    ensures IsFlagSet(ArgvTokens(argv), optionName) <==> optionName in argv
  {
  }
}
