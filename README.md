# Homebrew command option DSL — a Dafny model

This project models the option DSL of Homebrew's `Homebrew::Command` class
(`Library/Homebrew/command.rb`) and the stricter validator of
`Homebrew::Command::ParseArguments` (`Library/Homebrew/command/parse_arguments.rb`).

A command declares its flags with nested `option` calls. A `Command` object
turns those calls into two lists:

- `@valid_options`: one record per flag, with the flag name (`"--" + word`),
  its description and the names of the flags declared in its block;
- `@root_options`: the names of the top-level flags.

From these the object:

- checks a command line for `--` tokens that name no declared flag and
  builds a pluralised error message;
- renders a bracketed synopsis (`option_string`);
- renders "If `--x` is passed, …" / "With `--x`, …" description lines
  (`desc_string`);
- assembles the manpage text and restyles it line by line into the terminal
  help text.

`ParseArguments` compares whole tokens against the declared names, with no
splitting at `=`. It also provides the "is this flag on the command line"
predicate.

Files:

- `wrappers.dfy` (`Wrappers`): `Option`.
- `text.dfy` (`Text`): the Ruby string and array operations the source
  relies on. These are `join`, `split`, literal `gsub`, `strip`,
  `gsub(/\s+/, " ")`, `uniq`, `select`, `Integer#to_s` and span wrapping.
- `registry.dfy` (`Registry`): option records, the `OptSpec` declaration
  tree, `find` by name, and the pre-order walk of the registry.
- `command.dfy` (`Homebrew`): the `Command` class, whose methods update its
  fields in place. Its builder methods are proved against the value-level
  functions `File`, `Declared` and `DeclaredAll`. The in-place `map!`
  restyling is done on an array.
- `validator.dfy` (`Validator`): `argv_invalid_options_passed` and
  `get_error_message`.
- `renderer.dfy` (`Renderer`): `option_string`, `desc_string`, the manpage
  text and the help text.
- `parse_arguments.dfy` (`ParseArguments`): `error_msg` and the generated
  flag predicates.

Two behaviours of the code that the model reproduces exactly:

- **Indentation of nested description lines.** Every descendant line of
  `desc_string` sits at exactly four spaces, whatever its depth. The nested
  template (`command.rb:123-126`) puts the option's own line at ten spaces
  and each child string after four. `undent` takes the first line's
  indentation width (ten) and strips that many leading blanks from every
  line that has at least that many; the child lines carry only four, so
  they keep them. The test at `test/command_spec.rb:79-84` expects these
  flat lines.
- **Where `^` matches.** Ruby's `^` also matches after a newline inside a
  token. `Validator.OptionLike` models that exactly, and
  `Validator.SingleLineOptionLike` states the plain prefix test for
  single-line tokens.

## Model

| member | source | states |
|---|---|---|
| Registry.IndexOf | Library/Homebrew/command.rb:33 | `find` picks the first record carrying the name; no earlier record has it |
| Registry.IndexOfDistinct | Library/Homebrew/command.rb:33 | with distinct names, `find` returns the record that carries the name |
| Registry.AppendChild | Library/Homebrew/command.rb:33-38 | filing a child keeps every name and description of the registry |
| Registry.AppendChildEffect | Library/Homebrew/command.rb:33-38 | only the first record named `parent` changes, and only by gaining the child at the end of its children (a missing list is created with it) |
| Registry.BuiltRegistry | Library/Homebrew/command.rb:27-46 | declarations with distinct names give distinct records, one per declared name, with every child reference resolving to a later record |
| Registry.PreOrderOfTree | Library/Homebrew/command.rb:98-100 | walking the registry from a declared option visits exactly the names its declaration introduced, in declaration order |
| Homebrew.File | Library/Homebrew/command.rb:30-39 | an `option` call files its name as a root exactly when `parent` is unset; record names are unchanged |
| Homebrew.FileInPlace | Library/Homebrew/command.rb:33-38 | filing under a parent updates, in place, the record `find` picks for it |
| Homebrew.Declared | Library/Homebrew/command.rb:27-46 | one `option` call (with its block) only adds record names, never drops one |
| Homebrew.DeclaredAll | Library/Homebrew/command.rb:44 | the calls of a block, in order, only add record names |
| Homebrew.DeclaredFlat | Library/Homebrew/command.rb:27-46 | with new names, one call pushes its record and then its block's records in pre-order, each record listing its block's options as children |
| Homebrew.DeclaredAllFlat | Library/Homebrew/command.rb:42-45 | the options of a block are appended, in order, to the children of the option whose block it is, and to no root |
| Homebrew.DeclaredRoots | Library/Homebrew/command.rb:30-31 | top-level calls with new names push their records in pre-order and one root per call |
| Homebrew.BuiltFromScratch | Library/Homebrew/command.rb:27-46 | a fresh registry filled by distinct declarations holds exactly their records in pre-order; the top-level names are the roots; the registry can be rendered |
| Homebrew.NestedRegistry | Library/Homebrew/test/command_spec.rb:10-22 | `b` with `f` in its block, then `c`, gives records `b` (child `f`), `f`, `c` (leaves have no children) and roots `b`, `c` |
| Homebrew.AddDescriptionJoins | Library/Homebrew/command.rb:48-57 | the first `desc` sets the text exactly; a later one puts the new text on the next line after the old |
| Homebrew.AddDescriptionTrimmed | Library/Homebrew/command.rb:52-56 | after a later `desc` the description is stripped and ends with the new text's last character; when the new text starts with a non-blank, it ends with the whole new text |
| Homebrew.EvaluateDeclares | Library/Homebrew/command.rb:12-17 | naming and describing the command in its top-level block do not touch the options |
| Homebrew.EvaluatedRenderable | Library/Homebrew/command.rb:12-17 | a top-level block with distinct option names leaves a registry the renderers can walk |
| Homebrew.Command.constructor | Library/Homebrew/command.rb:2-4 | a new command has no name, options, description or outputs |
| Homebrew.Command.InitializeVariables | Library/Homebrew/command.rb:6-10 | empties both option lists and saves the command line; nothing else changes |
| Homebrew.Command.Options | Library/Homebrew/command.rb:12-17 | resets the lists, runs the top-level calls in order with no parent, then stores the man and help texts of the result |
| Homebrew.Command.Run | Library/Homebrew/command.rb:15 | one top-level call of the block, made with no parent, changes the name, description and option lists exactly as `Step` says; the command line and the stored texts are unchanged |
| Homebrew.Command.CmdName | Library/Homebrew/command.rb:19-21 | sets the command name; nothing else changes |
| Homebrew.Command.AddValidOption | Library/Homebrew/command.rb:23-25 | pushes the record at the end of `valid_options`; nothing else changes |
| Homebrew.Command.Find | Library/Homebrew/command.rb:33 | the loop returns the position of the first record with the name |
| Homebrew.Command.FileOption | Library/Homebrew/command.rb:28-39 | the new option's name goes to the roots or to the end of the parent's children, as `File` says |
| Homebrew.Command.Option | Library/Homebrew/command.rb:27-46 | the registry becomes `Declared(old registry, parent, spec)`, and `parent` is back to its old value afterwards |
| Homebrew.Command.RunBlock | Library/Homebrew/command.rb:42-45 | running a block's calls in order gives `DeclaredAll`, and leaves `parent` as it was |
| Homebrew.Command.Desc | Library/Homebrew/command.rb:48-58 | sets or extends the description as `AddDescription` says; nothing else changes |
| Homebrew.Command.ArgvInvalidOptionsPassed | Library/Homebrew/command.rb:60-70 | is `InvalidOptionsPassed` of the declared names; a name is reported exactly when it is undeclared and is the name part of some `--` token of the command line |
| Homebrew.Command.GetErrorMessage | Library/Homebrew/command.rb:72-80 | `nil` exactly when no invalid option was passed |
| Homebrew.Command.GenerateHelpAndManpageOutput | Library/Homebrew/command.rb:131-155 | stores the man text of the current state, then the help text made from it; the option lists, name and description are unchanged |
| Homebrew.RestyleText | Library/Homebrew/command.rb:147-154 | splitting into lines, restyling them in place and joining gives the help text |
| Homebrew.RestyleLines | Library/Homebrew/command.rb:148-153 | `map!` leaves every array element restyled |
| Renderer.ReplaceBracketed | Library/Homebrew/command.rb:96-101 | replacing the backticked name in ``[`--x`]`` puts the replacement between the brackets |
| Renderer.OptionStringShape | Library/Homebrew/command.rb:93-104 | a leaf renders as ``[`--x`]``; an option with children as ``[`--x` c1 c2 …]`` with the children's strings joined by single spaces |
| Renderer.OptionStringSpans | Library/Homebrew/command.rb:93-104 | the backticked names of an option string are the option and its descendants, each once, in pre-order |
| Renderer.OptionStringsSpans | Library/Homebrew/command.rb:98-100 | the same holds for a space-joined list of option strings |
| Renderer.OptionStringDepth | Library/Homebrew/command.rb:93-104 | the brackets of an option string balance |
| Renderer.OptionStringTight | Library/Homebrew/command.rb:93-104 | with single-spaced names, an option string has no leading, trailing or doubled whitespace |
| Renderer.SynopsisJoined | Library/Homebrew/command.rb:132-134 | with single-spaced names, collapsing whitespace changes nothing: the synopsis is the root strings joined by spaces |
| Renderer.SynopsisSpans | Library/Homebrew/command.rb:132-134 | the backticked names of the synopsis are the pre-order walk from the roots |
| Renderer.SynopsisBalanced | Library/Homebrew/command.rb:132-134 | the synopsis brackets balance |
| Renderer.DescHead | Library/Homebrew/command.rb:111-118 | the gsub turns the first line into "If `--x` is passed, d" at the top level or "With `--x`, d" when nested |
| Renderer.DescStringBlock | Library/Homebrew/command.rb:106-129 | a description string is the option's own line, then one "With" line per descendant in pre-order, all at a four-space indentation |
| Renderer.DescStringsBlock | Library/Homebrew/command.rb:119-127 | four spaces plus the children's strings joined by four spaces are the lines of the subtrees, each indented exactly four spaces |
| Renderer.DescStringsAt | Library/Homebrew/command.rb:120-122 | the mapped list holds each child's `desc_string` at its position |
| Renderer.ManTextHeader | Library/Homebrew/command.rb:139-145 | the first line of the man text is ``  * `cmd` `` followed by the synopsis and a colon |
| Renderer.ManTextSections | Library/Homebrew/command.rb:135-137 | the k-th root contributes its "If … is passed" line and its descendants' "With" lines |
| Renderer.ManTextLayout | Library/Homebrew/command.rb:131-145 | the man text is the header line, the description at four spaces, a blank line, then each top-level option's lines at four spaces joined by line feeds; every group ends in a line feed, so a blank line separates consecutive groups |
| Renderer.ManTextDescription | Library/Homebrew/command.rb:139-145 | with a single-line command name and description, the man text's second line is the description at four spaces |
| Renderer.HelpTextLines | Library/Homebrew/command.rb:147-154 | the help text has one line per man-text line, each that line restyled |
| Renderer.RestyleNoNewline | Library/Homebrew/command.rb:148-153 | restyling a line adds no line feed |
| Renderer.RestylePlain | Library/Homebrew/command.rb:148-153 | a line without bullet, backtick or angle bracket is shown as it is |
| Renderer.RestyleHeader | Library/Homebrew/command.rb:150-151 | the bullet becomes bold "brew", and the backticked command name becomes bold text |
| Validator.SingleLineOptionLike | Library/Homebrew/command.rb:61 | on a single-line token `/^--/` is the prefix test |
| Validator.FirstFieldShape | Library/Homebrew/command.rb:67-68 | `split("=", 2)[0]` is the longest `=`-free prefix of the token |
| Validator.FirstFieldPlain | Library/Homebrew/command.rb:67-68 | a token without `=` is its own name part |
| Validator.InvalidOptionsMembers | Library/Homebrew/command.rb:60-70 | a name is reported iff it is undeclared and is the name part of some `--` token |
| Validator.InvalidOptionsNoValues | Library/Homebrew/command.rb:60-70 | without `=value` tokens, the report is the undeclared distinct `--` tokens |
| Validator.InvalidOptionsPlain | Library/Homebrew/command.rb:61-62 | without `=value` tokens, the report has no repeats and is in first-occurrence order |
| Validator.InvalidOptionsOrder | Library/Homebrew/command.rb:60-70 | on any command line the report is the name parts of a list holding exactly the undeclared `--` tokens, each once, in first-occurrence order |
| Validator.InvalidOptionsDedup | Library/Homebrew/command.rb:61-62 | removing repeated tokens from the command line first leaves the report unchanged |
| Validator.RepeatedName | Library/Homebrew/command.rb:61-69 | two `--` tokens `n=v` and `n=w` with different values and an undeclared `n` report `n` twice, because `uniq` runs before the split |
| Validator.SingleInvalid | Library/Homebrew/test/command_spec.rb:24-33 | one undeclared `--` token is reported as it is |
| Validator.RepeatedInvalid | Library/Homebrew/test/command_spec.rb:35-47 | `a b a c d` with `c`, `d` declared reports `a b` |
| Validator.AllDeclared | Library/Homebrew/test/command_spec.rb:49-55 | when every `--` token names a declared option, nothing is reported |
| Validator.Pluralize | Library/Homebrew/command.rb:75 | the pluralised phrase starts with the count's decimal text |
| Validator.HeaderOne | Library/Homebrew/command.rb:75-76 | for one option the header is "1 invalid option provided: " |
| Validator.HeaderTwo | Library/Homebrew/command.rb:75-76 | for two the header is "2 invalid options provided: " |
| Validator.ErrorMessage | Library/Homebrew/command.rb:72-80 | `nil` exactly when nothing is invalid; otherwise the message starts with the pluralised count |
| Validator.ErrorMessageReadBack | Library/Homebrew/command.rb:72-80 | the message's leading number is the count; it ends with a line feed; the text after the header splits back into the reported names |
| Validator.OneInvalidOption | Library/Homebrew/test/command_spec.rb:24-33 | one undeclared option `a` gives "1 invalid option provided: a" and a line feed |
| Validator.TwoInvalidOptions | Library/Homebrew/test/command_spec.rb:35-47 | `a b a c d` with `c`, `d` declared gives "2 invalid options provided: a b" and a line feed |
| ParseArguments.ErrorMsg | Library/Homebrew/command/parse_arguments.rb:16-25 | `nil` exactly when every `--` token equals a declared name; otherwise the text starts with "Invalid option(s) provided: " |
| ParseArguments.InvalidTokensMembers | Library/Homebrew/command/parse_arguments.rb:19-22 | a token is reported iff it is on the command line, matches `/^--/` and is not a declared name |
| ParseArguments.InvalidTokensOrder | Library/Homebrew/command/parse_arguments.rb:11 | the report has no repeats and is in first-occurrence order of the command line |
| ParseArguments.ErrorMsgReadBack | Library/Homebrew/command/parse_arguments.rb:24 | the text after the prefix splits back into the reported tokens |
| ParseArguments.ValueIsInvalid | Library/Homebrew/command/parse_arguments.rb:22 | `n=v` is reported although `n` is declared, while `argv_invalid_options_passed` accepts it |
| ParseArguments.FlagSetOnCommandLine | Library/Homebrew/command/parse_arguments.rb:34-36 | the predicate for option `o` holds iff `o` is on the command line |
| Text.FilterOrder | Library/Homebrew/command.rb:61 | `select` keeps first-occurrence order |
| Text.UniqFilter | Library/Homebrew/command.rb:61-62 | selecting then `uniq` equals `uniq` then selecting |
| Text.UniqOrder | Library/Homebrew/command.rb:62 | `uniq` keeps first occurrences in order |
| Text.ReplaceAllLead | Library/Homebrew/command.rb:101 | a gsub of a leading token that does not recur replaces just that token |
| Text.CollapseSpacesExactly | Library/Homebrew/command.rb:134 | `gsub(/\s+/, " ")` leaves a string unchanged iff its only whitespace is single spaces |
| Text.StripBounds | Library/Homebrew/command.rb:56 | `strip` leaves no whitespace at either end |
| Text.JoinSplit | Library/Homebrew/command.rb:147-154 | joining the split lines with line feeds gives the text back |
| Text.SplitJoin | Library/Homebrew/command.rb:147-154 | splitting joined separator-free fields gives the fields back |
| Text.WrapSpansSpan | Library/Homebrew/command.rb:151-152 | a delimited span is replaced by its text between the two terminal codes |
| Text.ParseNatToString | Library/Homebrew/command.rb:75 | the decimal text of a count reads back as the count |

## Left out

- Reading `ARGV` (`command.rb:9`, `parse_arguments.rb:11`): the command line is a parameter.
- `check_for_errors` and `odie` (`command.rb:82-91`): they end the process. The message parts are modelled as `ErrorMessage` and `HelpText`.
- `instance_eval` blocks (`command.rb:15`, `command.rb:44`): a block is a sequence of `Statement`s at the top level and a tree of `OptSpec`s below.
- Option hashes: only `option` and `desc` are modelled; other keys passed to `option` are not. An absent `child_options` key is the empty list; the source never stores an empty one.
- `Tty.bold`, `Tty.underline` and `Tty.reset` are a `Tty` parameter, not the real terminal codes.
- `Formatter.pluralize` is not part of this model. `Pluralize` follows the behaviour the tests fix: the count, the word, and an `s` unless the count is 1.
- `String#undent` is not part of this model. Its effect on each template is written out.
- Homebrew.Command.Desc: assumes the old description does not start with whitespace and that no line of either text starts with ten or more spaces or tabs, since `undent` would eat those.
- Renderer.DescString: assumes descriptions are single lines, as above for `undent`.
- Renderer.ManText: assumes no description line starts with eight or more spaces or tabs, as above for `undent`.
- Validator.ErrorMessage: the source passes the message through `undent` (`command.rb:77-79`), which strips eight leading blanks from any line that has at least eight. A reported name holding a line feed followed by eight or more spaces or tabs would lose them; the model keeps them. On names without line feeds the message is exact.
- Option names are put into regexes unescaped (`command.rb:101`, `command.rb:115`). The model replaces the backticked name literally, so names holding regex metacharacters are not modelled. The lemmas about `desc_string` require descriptions without backticks.
- Ruby `strip` also removes trailing NUL characters; `Strip` does not.
- A nil command name or description is interpolated as the empty string.
- Before `initialize_variables` the source's lists are `nil`; the constructor sets them to empty lists.
- Homebrew.Command.Options: requires distinct option names. With a repeated name `find` returns the first record, and the source's rendering can recurse forever. The renderers are defined only on registries whose child references point forward (`ChildrenLater`).
- `legal_variable_name`, `define_singleton_method` and the `CommandOptions` superclass (`parse_arguments.rb:1-9`, `parse_arguments.rb:29-38`) are not part of this model. `ParseArguments` takes the declared names and tokens as parameters, and each generated predicate is `IsFlagSet`.
- The help text expected by `test/command_spec.rb:57-89` is not stated as a concrete lemma. Its layout is given by `ManTextHeader`, `ManTextDescription` and `ManTextLayout`, the content of each group by `DescStringBlock` and `SynopsisSpans`, and the restyling by `HelpTextLines`.
