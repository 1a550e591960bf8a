# EasyOpt command-line parser, modelled in Dafny

EasyOpt is a GNU-style command-line option parser for C#. This project
models its core as immutable datatypes and pure functions:

- the tokenizer: one raw argument becomes tokens;
  - `--` is the division;
  - short options may be clustered, and the first option that takes a
    parameter absorbs the rest of the argument;
  - a long option is split at its first `=`;
  - anything else is a program argument;
- the name check and the option registry (`OptionContainer`), with the
  flag (`SimpleOption`) and parameterised (`ParameterOption`) kinds of
  option;
- parameter binding (`Parameter<T>`): the default until a value is set,
  the last value set wins, and constraints are checked separately;
- the three-phase parse state machine (option, waiting for argument,
  program argument), with the final-state and required-option checks;
- the two exception taxonomies of the two library revisions: a message
  `ParseException` in the classic one, and in the typed one
  `OptionMissingException`, `ParameterMissingException` and
  `OptionParameterException`, with the `OptionName` normalisation;
- the integer-bound and string-enumeration constraints;
- the older single-argument classifier `Argument.Create`;
- the usage-text builder, including its 80-column word wrap;
- two sample pieces: the `SizeParameter` size-string converter of the
  `ls` use case and the `TimeConstraint` stamp checker of the `touch`
  use case.

## Structure

- **Modules.** There is one module per source concern: `Tokens`,
  `Options`, `Parameters`, `CommandLine`, `ParseErrors`, `Constraints`,
  `Arguments`, `Usage`, `Wrap`, `SizeParameter` and `TimeConstraint`.
- **Helper modules.** `Text` and `Int32Text` model the .NET string and
  `int.TryParse` behaviour the core relies on. `Wrappers` holds
  `Option`, `Result` and `Outcome`.
- **Lemmas.** `ParseFacts` holds the lemmas about whole parse runs.
  `Scenarios` restates the library's own test cases as lemmas over every
  command line configured like the test.

## Modelling choices

- **Options are handles.** A command line holds its options in a
  sequence. The registry maps each name to an index into it. Parsing
  returns the updated sequence, in place of mutating shared objects.
- **Partial state on failure.** Every parse step returns the state it
  reached and an optional `Failure`. When a failure ends a parse, the
  changes made before it are kept, as the mutated C# objects keep them.
- **One neutral failure type.** `ParseErrors.Failure` records why a parse
  stops. `ClassicException` maps it to the classic revision's report and
  `TypedException` to the typed revision's. Both revisions run the same
  parse machine, so `CommandLine.Parse` models both.
- **Exceptions that escape.** A parameter conversion may fail with a
  `ParameterException`, modelled as `ConversionError.ParameterError`.
  `setOptionValue` translates that one. Any other exception type escapes
  untranslated, and it is recorded as `Failure.Uncaught` with its type
  name.
- **Dictionary order.** Key enumeration order is modelled as insertion
  order, kept in `Registry.order`.
- **Regular expressions.** Each pattern is modelled as a predicate on the
  string. Without the multi-line option .NET's `$` also matches before a
  line feed that ends the text. The anchored patterns model this, so
  registration accepts a valid name followed by one line feed, and
  `--x` followed by a line feed is an illegal option.
- **The tokenizer's view of the registry.** It sees the registry as a map
  from each name to whether its option has a parameter.

## Model

| member | source | states |
|---|---|---|
| Tokens.NamePatternsAcceptValidNames | EasyOpt/Token.cs:123-132 | A name matches the short or the long name pattern iff it is a valid name (non-empty, not starting with `-`, `=` or whitespace, free of `=` and whitespace) or a valid name followed by one final line feed, which `$` lets through |
| Tokens.TrailingLineFeedAccepted | EasyOpt/Token.cs:129-132 | Any valid name with a line feed appended passes the name patterns although it is no longer a valid name |
| Tokens.CheckName | EasyOpt/Token.cs:267-280 | A null name fails with NullName; a non-null name passes iff the name patterns accept it (a valid name, optionally with one final line feed), and otherwise fails as InvalidName carrying the name |
| Tokens.Create | EasyOpt/Token.cs:166-246 | A successful result is non-empty, and every token carries the raw argument as its unparsed text; every option token names a registered option; a division token occurs only as the one token of `--`, a program-argument token only alone and carrying the text verbatim; a short-option argument gives only short tokens |
| Tokens.Cluster | EasyOpt/Token.cs:185-208 | A cluster from position i yields tokens exactly when characters remain, each one a short-option token of one character of the argument |
| Tokens.SplitLong | EasyOpt/Token.cs:216-229 | The name is free of `=`; there is no parameter iff the argument has no `=`; `--`, the name and `=parameter` spell the argument |
| Tokens.DivisionIsFirst | EasyOpt/Token.cs:170-177 | Exactly `--` gives one Division token, whatever is registered |
| Tokens.IllegalOptionsRejected | EasyOpt/Token.cs:178-181 | `--x` with a one-character name, the same followed by a final line feed (which `$` matches), and anything starting with `---` are rejected as an illegal option naming the argument |
| Tokens.OneCharLongWithValueIsPlain | EasyOpt/Token.cs:235-243 | `--x=v` matches no option pattern and becomes one program-argument token carrying the text |
| Tokens.ClusterUndefined | EasyOpt/Token.cs:254-260 | A cluster fails iff it meets an unregistered character before any parameterised option, and the error names the first such character |
| Tokens.ShortClusterUndefined | EasyOpt/Token.cs:185-191 | A short-option argument is rejected iff some character is unregistered and every character before it is a registered flag; the error names that character |
| Tokens.ClusterRoundTrip | EasyOpt/Token.cs:185-208 | From any position, the token names in order followed by the last token's inline parameter spell the rest of the argument |
| Tokens.ShortClusterRoundTrip | EasyOpt/Token.cs:185-208 | The emitted names in order, then the last token's parameter, spell the argument without its leading `-` |
| Tokens.ClusterOnlyLastParameterised | EasyOpt/Token.cs:200-207 | Every token but the last names a registered option without a parameter, and carries none |
| Tokens.ClusterLastParameter | EasyOpt/Token.cs:200-205 | A parameter on the last token belongs to an option that takes one, and is never the empty text |
| Tokens.ShortClusterShape | EasyOpt/Token.cs:200-207 | Only the last token may name a parameterised option; an option ending the argument gets no parameter rather than an empty one |
| Tokens.LongOptionSplit | EasyOpt/Token.cs:210-233 | A long option is one token whose name runs from after `--` to the first `=` and whose parameter is the rest (none without `=`); an unregistered name is an error naming it |
| Tokens.PlainArgumentVerbatim | EasyOpt/Token.cs:235-245 | An argument that is not `--`, matches neither alternative of the illegal pattern (a final line feed included) and is not option-shaped is one program-argument token carrying the raw text |
| Tokens.CutAtEquals | EasyOpt/Token.cs:218-224 | Cutting at the first `=` is unambiguous: an `=`-free name followed by nothing or by `=…` determines both parts |
| Tokens.LongArgClassified | EasyOpt/Token.cs:138 | `--` followed by an accepted name of two or more characters whose second character is a name character is neither the division nor illegal nor short, and matches the long pattern |
| Tokens.SplitLongParts | EasyOpt/Token.cs:216-229 | `--name` followed by nothing or by `=value` is split back into exactly that name and value |
| Tokens.SplitLongOf | EasyOpt/Token.cs:216-229 | Such a long name with an optional value, written out, is split back into that name and value |
| Tokens.LongOptionReadsBack | EasyOpt/Token.cs:210-233 | A registered long name written as `--name` or `--name=value` is read back as one long token with that name and no parameter, or exactly that value |
| Tokens.ShortNameReadsBack | EasyOpt/Token.cs:185-207 | A registered one-character name written as `-x` is one short token with no parameter, whether or not its option takes one |
| Tokens.AcceptedNameLacksEquals | EasyOpt/Token.cs:123-132 | No name the patterns accept contains `=` |
| Tokens.AcceptedLongNames | EasyOpt/Token.cs:138-141 | An accepted name of two or more characters is a long name unless it is one character and a line feed, and `--` in front of that one is an illegal option |
| Options.Opt.MarkPresent | EasyOpt/Options.cs:107-126 | Marking an option present changes neither its kind, its parameter policy nor its requiredness |
| Options.Opt.SetValue | EasyOpt/Options.cs:189-196 | A flag refuses any parameter and is unchanged; a parameterised option accepts a text iff its parameter converts it, then holds the converted value; a failure leaves the option as it was |
| Options.NewSimpleOption | EasyOpt/Options.cs:160-222 | A new flag is absent and valued by its presence; it has no parameter, requires none, has an empty usage name, and refuses every parameter |
| Options.NewParameterOption | EasyOpt/Options.cs:226-296 | A null parameter throws ArgumentNullException("parameter"); otherwise the option is absent, has a parameter, and takes its value, policy and usage name from it |
| Options.FreshPair | EasyOpt/Options.cs:387-411 | A short and a long name can both be added iff both pass the name check and are unused, the long one is given, and they differ |
| Options.Rejection | EasyOpt/Options.cs:395-406 | A null name is an InvalidName error, a name the patterns refuse too, and an accepted one already indexed is a duplicate; any other name is accepted |
| Options.AddNames | EasyOpt/Options.cs:393-407 | The name loop succeeds iff all names are fresh; it keeps every earlier entry and maps each new entry to the option; on failure it stops at a name j such that the names before j were fresh and are exactly the ones indexed, and the error is name j's rejection against that index |
| Options.StoppedAtCons | EasyOpt/Options.cs:393-407 | A stop in the tail of the list, after its head was indexed, is a stop one place later in the whole list |
| Options.FreshCons | EasyOpt/Options.cs:393-407 | A list is fresh iff its head is fresh and its tail is fresh once the head is indexed |
| Options.Add | EasyOpt/Options.cs:387-411 | No names is an error; the add succeeds iff every name is present, accepted and unused; on success the first name maps to the whole list and is listed last; on failure no synonym entry is recorded, the names before the first failing one are exactly the ones indexed, and the error is that name's |
| Options.AddPreservesValid | EasyOpt/Options.cs:387-411 | Adding keeps the registry invariant, whether it succeeds or not |
| Options.AddNamesValid | EasyOpt/Options.cs:395-407 | Every name the loop indexes has passed the name check |
| Options.AddedSynonymsValid | EasyOpt/Options.cs:408-411 | After a successful add the first names are listed once each, and every synonym list starts with its key and leads to one option |
| Options.AddedOrderValid | EasyOpt/Options.cs:374-377 | After a successful add the listed first names are exactly the synonym keys, each listed once |
| Options.AddedSynonymsLinked | EasyOpt/Options.cs:408-420 | After a successful add every synonym list starts with its key, and all its names find the same option |
| Options.AddedNamesFindOption | EasyOpt/Options.cs:418-442 | After a successful add every listed name finds the option, the first name finds the full list, the unique names gain exactly the first name, and ContainsName holds exactly of old and added names |
| Options.DuplicateRejected | EasyOpt/Options.cs:399-406 | A name already present, or repeated within the call, makes the add fail, and the existing registration of that name is kept |
| Parameters.Parameter.SetValue | EasyOpt/Parameters.cs:85-89 | The value is set iff the conversion succeeds, and is then the converted value; a failed conversion leaves the parameter unchanged; constraints are neither consulted nor changed |
| Parameters.Parameter.AddConstraint | EasyOpt/Parameters.cs:108-111 | The constraint is appended after the existing ones, and the value is unchanged |
| Parameters.NewParameter | EasyOpt/Parameters.cs:97-103 | A new parameter holds its default, no set value and no constraints |
| Parameters.CheckConstraints | EasyOpt/Parameters.cs:117-129 | The result holds iff every constraint accepts the current value; it is true with no constraints |
| Parameters.LastSetWins | EasyOpt/Parameters.cs:73-89 | After a successful set the value is the converted text, and a second successful set overwrites it |
| Parameters.FailedSetKeepsValue | EasyOpt/Parameters.cs:85-89 | A failed conversion after a successful one keeps the earlier value |
| Parameters.StringParameterIsIdentity | EasyOpt/Parameters.cs:142-163 | A string parameter defaults to "" and holds exactly any text it is given |
| Parameters.IntParameterParses | EasyOpt/Parameters.cs:173-203 | An integer parameter defaults to 0, accepts a text iff `int.TryParse` does and then holds its value, and otherwise fails with a bare System.Exception |
| Int32Text.TryParse | EasyOpt/Parameters.cs:195 | An accepted text is an optional sign followed by decimal digits, and its value is an Int32; every such text in range is accepted |
| Int32Text.TryParseToString | EasyOpt/Parameters.cs:192-203 | Every Int32 written in decimal is parsed back to itself |
| Int32Text.Wrap | UseCaseLs/Program.cs:83 | The unchecked product lands in the Int32 range and is congruent modulo 2^32 to the exact one |
| CommandLine.New | EasyOpt/CommandLine.cs:146-150 | A new command line is valid, in the option phase, with no arguments, no options and no names |
| CommandLine.View | EasyOpt/Token.cs:191-200 | The tokenizer's view holds exactly the registered names, each with whether its option has a parameter |
| CommandLine.AddOption | EasyOpt/CommandLine.cs:173-176 | The option is kept; the add succeeds iff the names are non-empty and fresh, and then every name finds the option and the first is listed last; on failure the error is the first failing name's and exactly the names before it find the option; existing names keep their options |
| CommandLine.AddShortOption | EasyOpt/CommandLine.cs:183-186 | A single short name is added iff it is valid and unused, and then finds the option and is listed last |
| CommandLine.AddShortLongOption | EasyOpt/CommandLine.cs:194-197 | A short and a long name are added iff both pass the name check, are unused and different, and the long one is not null, and then both find the option |
| CommandLine.ValueFailure | EasyOpt/CommandLine.cs:357-371 | A refused parameter becomes ForbiddenParameter, and any exception other than a parameter error escapes as Uncaught |
| CommandLine.SetOptionValue | EasyOpt/CommandLine.cs:357-371 | The value is handed to the token's option: success iff the option's SetValue succeeds; on failure the state is unchanged and the failure is translated; other options, the phase and the arguments are untouched |
| CommandLine.ProcessToken | EasyOpt/CommandLine.cs:312-346 | `--` switches to the program-argument phase, a program argument is collected, an option is marked present and either waits for its parameter or is handed the inline one |
| CommandLine.ProcessOptionToken | EasyOpt/CommandLine.cs:327-344 | An option token marks its option present; without an inline parameter it waits iff the option has a parameter; with one the phase is kept and the step succeeds iff SetValue does |
| CommandLine.ProcessTokens | EasyOpt/CommandLine.cs:306-349 | The tokens are processed in order; without failure the last token is the last one processed, and configuration and presence are kept |
| CommandLine.ParseOption | EasyOpt/CommandLine.cs:306-349 | A tokenizer error ends the step unchanged; otherwise the last token carries the argument as its unparsed text |
| CommandLine.ParseWaiting | EasyOpt/CommandLine.cs:263-286 | With no last token the step is an internal error; a pending required parameter takes the argument verbatim and clears the last token; otherwise the argument is parsed afresh in the option phase |
| CommandLine.Step | EasyOpt/CommandLine.cs:217-231 | In the program-argument phase the argument is collected verbatim; any step collects at most its own argument |
| CommandLine.StepArguments | EasyOpt/CommandLine.cs:306-349 | Parsing one argument in the option phase collects nothing or that argument |
| CommandLine.NoArgumentTokens | EasyOpt/CommandLine.cs:312-346 | Tokens with no program argument among them collect nothing |
| CommandLine.Feed | EasyOpt/CommandLine.cs:217-231 | The argument loop keeps configuration and presence, and the collected arguments are the earlier ones followed by a subsequence of the input, in input order |
| CommandLine.FeedCollects | EasyOpt/CommandLine.cs:217-231 | A step's own collected argument, followed by a subsequence of the rest, is a subsequence of the whole input |
| CommandLine.CheckParserFinalState | EasyOpt/CommandLine.cs:293-299 | Outside the waiting phase there is no error; while waiting for an option's parameter the error is a missing parameter iff that parameter is required; with no usable last token the check dereferences null |
| CommandLine.FirstMissing | EasyOpt/CommandLine.cs:243-256 | No name is reported iff every option is optional or present; otherwise the first unsatisfied name is reported |
| CommandLine.CheckRequiredOptions | EasyOpt/CommandLine.cs:243-256 | The check passes iff every listed option is satisfied; otherwise it reports the first required and absent option in registration order |
| CommandLine.Parse | EasyOpt/CommandLine.cs:213-236 | Parsing keeps the registry invariant, the configuration and presence, and appends a subsequence of the input to the arguments |
| ParseErrors.ClassicException | EasyOpt/CommandLine.cs:357-371 | Only exceptions other than EasyOpt's escape untranslated, under their own type; every other failure becomes a ParseException |
| ParseErrors.OptionName | src/EasyOpt/CommandLine.cs:64-77 | A name starting with `-` is kept, a one-character name gets `-`, any other gets `--`; the result always starts with `-` |
| ParseErrors.TypedError.ParameterValue | src/EasyOpt/CommandLine.cs:154-167 | The parameter value is "" without an inner exception, and the inner exception's value otherwise |
| ParseErrors.TypedException | src/EasyOpt/CommandLine.cs:483-497 | Exactly the parameter, missing-parameter and missing-option failures become option exceptions, named in normalised form; a parameter error is wrapped with its value and message |
| ParseErrors.OptionNameIdempotent | src/EasyOpt/CommandLine.cs:66-68 | Normalising a name twice changes nothing |
| ParseErrors.OptionNameReadsBack | src/EasyOpt/CommandLine.cs:64-77 | The normalised form of a registered name, typed as an argument, is one token of that option with no parameter, short options with a parameter included; only a one-character name with the accepted final line feed is an illegal option instead |
| ParseErrors.OptionNameInjective | src/EasyOpt/CommandLine.cs:64-77 | Different accepted names normalise to different option names |
| ParseErrors.MissingOptionReportsName | src/EasyOpt/CommandLine.cs:113-118 | A missing option is reported under its own name in both revisions, so different names give different reports |
| ParseFacts.ProgramPhaseVerbatim | EasyOpt/CommandLine.cs:227-230 | After the division every remaining argument is collected verbatim and in order, whatever it looks like |
| ParseFacts.DivisionStartsProgramArguments | EasyOpt/CommandLine.cs:316-319 | `--` in the option phase switches permanently to program arguments, and the rest of the input is collected whole |
| ParseFacts.ParseDivision | EasyOpt/CommandLine.cs:213-236 | Parsing `--` and anything after it collects the rest, and fails only if a required option is missing |
| ParseFacts.PlainArgumentCollected | EasyOpt/CommandLine.cs:320-326 | A plain argument in the option phase is collected, and the phase stays the option phase |
| ParseFacts.PlainArgumentsCollected | EasyOpt/CommandLine.cs:320-326 | A run of plain arguments in the option phase is collected whole, without failure |
| ParseFacts.FeedCons | EasyOpt/CommandLine.cs:217-231 | A step that does not fail hands its state and last token to the rest of the input |
| ParseFacts.SingleArgumentTokens | EasyOpt/CommandLine.cs:306-312 | In the option phase an argument's step is the processing of its tokens, all of which are known |
| ParseFacts.OptionParameterStep | EasyOpt/CommandLine.cs:340-343 | An inline parameter is refused by a flag under the token's text; a parameterised option accepts it iff it converts, then holds the converted value |
| ParseFacts.ConversionExceptionEscapes | EasyOpt/CommandLine.cs:357-371 | A conversion that throws an exception other than a parameter error ends the parse with that exception, untranslated |
| ParseFacts.RequiredParameterTakesNextArgument | EasyOpt/CommandLine.cs:270-279 | A pending required parameter takes the next argument verbatim, even `--` or `-x`; the phase returns to options and nothing is collected |
| ParseFacts.OptionalParameterLeavesNextArgument | EasyOpt/CommandLine.cs:280-283 | A pending optional parameter does not take the next argument, which is parsed afresh, so a plain one is collected |
| ParseFacts.PendingOptionalTransparent | EasyOpt/CommandLine.cs:263-286 | A pending optional parameter followed by more input parses as if the option had been given alone |
| ParseFacts.LongOptionWithValue | EasyOpt/CommandLine.cs:327-344 | `--name=value` for a registered long name hands exactly value to the option: a flag refuses it, a parameterised option converts it |
| ParseFacts.ParameterTokenStep | EasyOpt/CommandLine.cs:340-343 | An argument read as one option token with a parameter steps like that token alone |
| ParseFacts.LongOptionAlone | EasyOpt/CommandLine.cs:333-339 | `--name` for a registered long name marks the option present and, if it has a parameter, waits for it |
| ParseFacts.EndWhileWaiting | EasyOpt/CommandLine.cs:293-299 | Ending while a required parameter is pending reports it under the token's name; an optional one is not an error |
| ParseFacts.ParseAgainWhileWaiting | src/EasyOpt/CommandLine.cs:339-362 | The phase carries over: a second parse that starts while waiting has no last token, so it fails at once |
| ParseFacts.ParseReportsFirstMissing | EasyOpt/CommandLine.cs:233-235 | With no failure and no pending parameter, parse succeeds iff every required option is present, and otherwise reports the first missing one |
| Constraints.LowerBound | src/EasyOpt/Constraints.cs:45-48 | The lower bound accepts exactly the values at or above the limit |
| Constraints.UpperBound | src/EasyOpt/Constraints.cs:74-77 | The upper bound accepts exactly the values at or below the limit |
| Constraints.NewStringEnumeration | src/EasyOpt/Constraints.cs:101-113 | A null list of values, checked first, or a null comparer throws ArgumentNullException naming it; otherwise the fields are as given |
| Constraints.StringEnumerationIgnoringCase | src/EasyOpt/Constraints.cs:120-125 | Only a null list fails; the comparer ignores case iff asked |
| Constraints.Contains | src/EasyOpt/Constraints.cs:131-134 | True iff some listed value is equal to the parameter under the comparer |
| Constraints.IsValid | src/EasyOpt/Constraints.cs:131-134 | The enumeration accepts a parameter iff some accepted value equals it under the comparer |
| Constraints.AsConstraint | src/EasyOpt/Constraints.cs:84-134 | The constraint a parameter carries accepts exactly what IsValid accepts |
| Constraints.BoundsAcceptRange | src/EasyOpt/Constraints.cs:45-77 | A lower and an upper bound added to a parameter accept exactly the values in the inclusive range, on top of the earlier constraints |
| Constraints.CrossedBoundsAcceptNothing | src/EasyOpt/Constraints.cs:45-77 | With the lower bound above the upper one, no value is accepted |
| Constraints.CaseSensitiveIsMembership | src/EasyOpt/Constraints.cs:120-134 | The case-sensitive enumeration accepts exactly its listed values, invariant-culture equality being modelled as exact equality |
| Constraints.IgnoreCaseIsFoldedMembership | src/EasyOpt/Constraints.cs:120-134 | The case-insensitive enumeration accepts exactly the texts whose folded form is that of a listed value |
| Constraints.IgnoreCaseWidens | src/EasyOpt/Constraints.cs:120-134 | Ignoring case only widens what is accepted; every listed value is accepted by both comparers |
| Arguments.Create | EasyOpt/Argument.cs:143-186 | `--` is the division with no fields; `-` and an alphanumeric is a short option named by it, with the rest as parameter if any; a long argument is split at the first `=`; anything else is a program argument carrying the text |
| Arguments.TrailingLineFeedValid | EasyOpt/Argument.cs:113-116 | Both name checks accept a valid name followed by one line feed, which `$` lets through |
| Arguments.LongNameLacksEquals | EasyOpt/Argument.cs:110-116 | No name the long-name check accepts contains `=` |
| Arguments.ShortArgumentReadsBack | EasyOpt/Argument.cs:151-159 | `-c` followed by any text is the short option c with that text as its parameter, or none when nothing follows |
| Arguments.LongArgumentClassified | EasyOpt/Argument.cs:122 | `--` followed by a name the long-name check accepts, a final line feed included, is classified as a long option |
| Arguments.LongArgumentReadsBack | EasyOpt/Argument.cs:160-177 | `--name` and `--name=value` for a name the long-name check accepts give that name and value back |
| Arguments.OneCharacterLongIsProgramArgument | EasyOpt/Argument.cs:110-122 | `--v` does not match the long pattern and is a program argument |
| Arguments.LongArgumentMatchesPrefixOnly | EasyOpt/Argument.cs:122 | Only the start of a long argument is matched, so a name invalid past its second character still gives a long option |
| Arguments.ShortAndLongNamesDisjoint | EasyOpt/Argument.cs:107-116 | No name is both a valid short name and a valid long name |
| Usage.RenderName | EasyOpt/UsageBuilder.cs:119-133 | A one-character name is written with one dash and any other with two, as the typed revision normalises every accepted name |
| Usage.ParameterSeparator | EasyOpt/UsageBuilder.cs:106 | The separator is one character and never a bracket |
| Usage.FormatParameter | EasyOpt/UsageBuilder.cs:141-160 | Nothing for an option without parameter; a non-empty text otherwise |
| Usage.ParameterReadsBack | EasyOpt/UsageBuilder.cs:141-160 | The formatted parameter reads back as the usage name and whether it is required, and nothing for a flag; with ReadParameter's contract this fixes the text as the separator and the usage name, in `[` `]` iff optional |
| Usage.ReadParameter | EasyOpt/UsageBuilder.cs:141-160 | A text is read as a parameter only if it is the separator and a usage name, or those in `[` `]`, and it is then exactly that text with the required flag telling which |
| Usage.ReadParameterRejectsMalformed | EasyOpt/UsageBuilder.cs:141-160 | A text missing its separator or its closing bracket is not read as a parameter |
| Usage.NamesFromJoins | EasyOpt/UsageBuilder.cs:84-111 | The name loop writes the rendered names joined by ", ", then the last name's parameter and a line end |
| Usage.FormatNamesListsNames | EasyOpt/UsageBuilder.cs:81-113 | The names line is the indent, every name in order joined by ", ", the last name's parameter and a line end; no names leave the indent alone |
| Usage.NamesLineSeparator | EasyOpt/UsageBuilder.cs:99-110 | For an option with a parameter, the names line ends in the usage name behind a space after a short last name and behind `=` after a long one, bracketed iff optional, then the line end |
| Usage.RenderedNameLacksLineFeed | EasyOpt/UsageBuilder.cs:119-133 | A valid name is rendered without line feeds |
| Usage.NamesLineIsOneLine | EasyOpt/UsageBuilder.cs:81-113 | For valid names and a usage name without line feeds, the names line holds exactly one line feed, its last character |
| Usage.LineFeedNameBreaksLine | EasyOpt/UsageBuilder.cs:119-133 | A valid name followed by the line feed the name check accepts is rendered with a line feed in it |
| Usage.RenderedNameReadsBack | EasyOpt/UsageBuilder.cs:119-133 | A registered name as the usage text shows it, typed as an argument, is one token of that option with no parameter, short options with a parameter included; only a one-character name with the accepted final line feed is an illegal option instead |
| Usage.OptionAt | EasyOpt/UsageBuilder.cs:65 | The option a block describes is the one its first name finds |
| Usage.ValidAllListed | EasyOpt/UsageBuilder.cs:61-66 | In a valid command line every first name leads to its option and synonyms |
| Usage.UsageStartsWithDescription | EasyOpt/UsageBuilder.cs:56-59 | The usage text opens with the description and an empty line; with no options that is all |
| Usage.BlocksAgree | EasyOpt/UsageBuilder.cs:63-72 | The blocks depend only on the names and options they list |
| Usage.BlocksAppend | EasyOpt/UsageBuilder.cs:63-72 | One more first name at the end of the list appends its block |
| Usage.UsageAppendsBlock | EasyOpt/UsageBuilder.cs:56-73 | Registering one more first name, the rest unchanged, appends exactly its block to the usage text |
| Usage.AddOptionKeepsEarlier | EasyOpt/CommandLine.cs:173-176 | After a successful AddOption the new first name is listed last and earlier first names keep their synonyms and options |
| Usage.UsageGrowsByOneBlock | EasyOpt/CommandLine.cs:378-382 | A successful AddOption appends one block (names line, usage text wrapped as UsageBuilder.cs:197 counts, empty line) for the new option to the usage text |
| Wrap.LayoutFrom | EasyOpt/UsageBuilder.cs:178-205 | The words are grouped into non-empty lines, the first starting with the current line's first word |
| Wrap.WrapRendersLayout | EasyOpt/UsageBuilder.cs:188-204 | The wrap loop prints the layout's lines joined by line breaks |
| Wrap.FormatRendersLayout | EasyOpt/UsageBuilder.cs:168-205 | formatOptionUsage prints the layout, one indented line per group of words |
| Wrap.LayoutKeepsWords | EasyOpt/UsageBuilder.cs:178-205 | No word is lost, added or reordered by the wrap |
| Wrap.LayoutWithinWidth | EasyOpt/UsageBuilder.cs:188-198 | While the kept position is never below the true line length, every line of two or more words ends by column 79 |
| Wrap.ExactLayoutIsGreedy | EasyOpt/UsageBuilder.cs:188-198 | With the exact position count, a line is broken only when the next word would not fit |
| Wrap.LayoutLacks | EasyOpt/UsageBuilder.cs:172-205 | A character in no word is in no laid-out word |
| Wrap.FormattedLines | EasyOpt/UsageBuilder.cs:168-205 | For a text without line feeds, the formatted text splits at its line feeds into exactly the printed lines |
| Wrap.UnwrapRestores | EasyOpt/UsageBuilder.cs:172-204 | Dropping the indents and turning each break back into a space restores a usage text that has no line feeds |
| Wrap.FormatWithinWidth | EasyOpt/UsageBuilder.cs:188-198 | Every line holding two or more words ends by column 79; only a single over-long word can pass it |
| Wrap.FormatIsGreedy | EasyOpt/UsageBuilder.cs:188-198 | The corrected formatter breaks a line only when the next word would not have fitted on it |
| Wrap.AsWrittenWrapsEarly | EasyOpt/UsageBuilder.cs:197 | The formatter as written breaks before a word that fits: after a break it counts one column too many |
| Wrap.DescriptionLinesBounded | EasyOpt/UsageBuilder.cs:168-205 | Every printed description line starts with 8 spaces, and a line with two or more words is at most 79 characters |
| SizeParameter.UnitName | UseCaseLs/Program.cs:12-14 | Every unit name is two characters, the second `B`, the first neither a digit nor `*` |
| SizeParameter.FirstDigit | UseCaseLs/Program.cs:51-52 | The index of the first decimal digit, or -1 exactly when there is none |
| SizeParameter.FindUnit | UseCaseLs/Program.cs:69 | A unit is found iff some listed unit's name equals the text ignoring case, and it is such a unit |
| SizeParameter.ParseUnit | UseCaseLs/Program.cs:65-74 | A unit is found iff some unit's name equals the text ignoring case |
| SizeParameter.Product | UseCaseLs/Program.cs:76-89 | The product is defined iff every factor is an Int32 in decimal, and it is an Int32 |
| SizeParameter.Convert | UseCaseLs/Program.cs:49-92 | Every failure is a SizeConversionException, and a text with no digit fails |
| SizeParameter.ConvertReference | UseCaseLs/Program.cs:49-92 | With `Size` a reference, conversion succeeds exactly when the size text converts, gives that size and never null, and fails with a SizeConversionException |
| SizeParameter.SizeParameter | UseCaseLs/Program.cs:45-47 | The three-argument constructor holds its default, which may be null, until a value is set, with no constraints |
| SizeParameter.SizeParameterWithoutDefault | UseCaseLs/Program.cs:42-44 | The two-argument constructor's default is `default(Size)`, which is null |
| SizeParameter.SizeParameterSetValue | UseCaseLs/Program.cs:49-92 | Setting a size parameter succeeds iff the text converts and then holds that size, never null; a failure leaves the parameter and its possibly null default as they were |
| SizeParameter.ConvertParts | UseCaseLs/Program.cs:58-91 | Every failure of the cut text is a SizeConversionException |
| SizeParameter.WrapMultiply | UseCaseLs/Program.cs:83 | Wrapping after each multiplication is wrapping the exact product |
| SizeParameter.FactorValues | UseCaseLs/Program.cs:80-81 | The values of the factors, one per factor, as `Int32.TryParse` reads them |
| SizeParameter.ProductIsWrappedProduct | UseCaseLs/Program.cs:76-89 | The factor loop yields the exact product of the factors, wrapped once to 32 bits |
| SizeParameter.ConvertReadsBack | UseCaseLs/Program.cs:49-92 | A unit name followed by the decimal digits of a non-negative Int32 converts to that size |
| SizeParameter.ConvertReadsBackAbbreviated | UseCaseLs/Program.cs:60-63 | A unit's one-letter abbreviation followed by digits converts to that size as well |
| SizeParameter.UnitNamesDistinct | UseCaseLs/Program.cs:12-14 | Only a unit's own name matches it ignoring case |
| SizeParameter.LeadingDigitFails | UseCaseLs/Program.cs:58-74 | A text starting with a digit has an empty unit and fails |
| SizeParameter.EmptyFactorFails | UseCaseLs/Program.cs:77-88 | An empty factor, from `**` or a trailing `*`, makes the conversion fail |
| SizeParameter.UnitEndsAtFirstDigit | UseCaseLs/Program.cs:58-59 | The unit text is exactly the prefix before the first digit |
| SizeParameter.ConvertIsWrappedProduct | UseCaseLs/Program.cs:49-92 | A recognised unit followed by `*`-separated Int32 factors converts to their exact product wrapped to 32 bits, in that unit |
| TimeConstraint.IsValid | src/UseCaseTouch/Program.cs:14-18 | The constraint holds iff the pattern matches the whole text |
| TimeConstraint.PatternIsStamp | src/UseCaseTouch/Program.cs:16 | The pattern accepts exactly 8, 10 or 12 digits, optionally followed by a dot and two digits |
| TimeConstraint.DigitsAcceptedByLength | src/UseCaseTouch/Program.cs:16 | A text of digits alone is accepted iff it has 8, 10 or 12 of them |
| TimeConstraint.EmptyRejected | src/UseCaseTouch/Program.cs:16-17 | The empty text is rejected |
| TimeConstraint.SecondsNeedTwoDigits | src/UseCaseTouch/Program.cs:16 | A dotted suffix is accepted only as a dot followed by exactly two digits |
| TimeConstraint.TrailingLineFeedAccepted | src/UseCaseTouch/Program.cs:16-17 | `$` lets one line feed end an accepted stamp |
| Text.Split | UseCaseLs/Program.cs:77 | The pieces are never fewer than one and none contains the separator |
| Text.JoinSplit | UseCaseLs/Program.cs:77 | Joining the pieces of a split with the separator restores the text |
| Text.SplitJoin | EasyOpt/UsageBuilder.cs:172 | Splitting a join of separator-free pieces gives the pieces back |
| Text.IndexOf | EasyOpt/Token.cs:218 | The index of the first occurrence, or -1 exactly when there is none |
| Scenarios.AbcdTokens | TestEasyOpt/CommandLineTest.cs:91-114 | `-abcd` with flags a and b and a parameterised c gives three tokens, c carrying "d" |
| Scenarios.ClusterWithTrailingParameter | TestEasyOpt/CommandLineTest.cs:91-114 | `-abcd` marks a, b and c present, and c holds "d" |
| Scenarios.UndefinedInCluster | TestEasyOpt/CommandLineTest.cs:77-88 | `-fa` with only f registered fails, naming a |
| Scenarios.InlineTokens | EasyOpt/Token.cs:200-205 | `-x` followed by text, for a parameterised x, is one token with that text as parameter |
| Scenarios.IntConvertRejects | EasyOpt/Parameters.cs:192-203 | A text ending in a letter is no integer, and the conversion throws a bare exception |
| Scenarios.InlineIntParameter | TestEasyOpt/CommandLineTest.cs:172-185 | `-i233` with an integer option i leaves i present and holding 233 |
| Scenarios.InvalidIntEscapes | TestEasyOpt/CommandLineTest.cs:188-200 | `-iaaa` ends the parse with the bare exception, untranslated |
| Scenarios.ShortOptionWithoutParameter | TestEasyOpt/CommandLineTest.cs:204-233 | `-i` alone reports a required parameter missing, and leaves an optional one at its default |
| Scenarios.OnlyProgramArguments | TestEasyOpt/CommandLineTest.cs:268-280 | `334 28 a` with no options are all collected, in order |
| Scenarios.ShortAloneTokens | EasyOpt/Token.cs:185-207 | `-x` alone for a registered x is one token without parameter |
| Scenarios.PendingShortOption | EasyOpt/CommandLine.cs:333-339 | `-x` for a parameterised option marks it present and waits |
| Scenarios.OptionalShortPending | EasyOpt/CommandLine.cs:333-339 | `-x` for a parameterised option at the head of the input hands the waiting state to the rest |
| Scenarios.PendingThenArguments | EasyOpt/CommandLine.cs:280-283 | While an optional parameter is pending, plain arguments are all collected and the option phase resumes |
| Scenarios.OptionalShortThenArguments | TestEasyOpt/CommandLineTest.cs:283-302 | `-i 334 28 a` with an optional parameter collects all three and leaves i at its value |

## Left out

- Console I/O: every `Main` of the use cases and documentation samples
  is left out. These are I/O and configuration only.
- Exact duplicates: documentation/sample_touch.cs and UseCaseTouch/Program.cs
  repeat `TimeConstraint`, so they are left out.
- EasyOpt/Program.cs is not part of this model. It is a superseded
  prototype whose `Parser.Parse` is empty.
- The OptionFactory files are not part of this model. They only call the
  modelled constructors.
- The documentation/sample_ls.cs `SizeParameter` is not part of this
  model. It rests on .NET `\w` classes and `Enum.Parse` numeric and
  comma-list rules.
- `ExistingFileConstraint` is left out, because it queries the filesystem.
- `FloatParameter` is left out, because it is floating point.
- `EnumParameter` is left out, because it depends on reflection.
- src/EasyOpt/Token.cs and src/EasyOpt/Options.cs are not part of this
  model. The typed revision's machine runs on the classic tokenizer and
  registry here, and its `ListFirstNames` is modelled as `ListUniqueNames`.
- Culture-dependent behaviour is left out:
  - `int.TryParse` here reads an optional sign and ASCII digits, with no
    surrounding whitespace and no culture-specific forms;
  - `\d` is ASCII digits;
  - case-insensitive comparison folds ASCII letters only;
  - `Enum.Parse` here matches only the member names ignoring case, not
    numbers, comma lists or surrounding whitespace.
- ParseErrors.OptionName, Tokens.SplitLong and Arguments.Create: the
  culture-sensitive `StartsWith("-")` and `IndexOf("=")` string overloads
  are modelled as ordinal comparisons. A culture comparison ignores some
  code points: a leading soft hyphen before `-` is skipped by
  `StartsWith`, so the source keeps such a name as written where the
  model prefixes it with dashes. Before a combining mark `IndexOf("=")`
  can also miss an `=` that the ordinal `Contains` finds.
- Unchecked nulls are not representable. The source dereferences some
  strings and arrays without a null check, so a null there throws a
  NullReferenceException. The model has no such value, so it drops that
  exception path. There are three places:
  - a null option `UsageText`, settable at EasyOpt/Options.cs:102, at
    its `Split(' ')` in EasyOpt/UsageBuilder.cs:172;
  - a null argument, at its `Equals` in EasyOpt/Token.cs:170;
  - a null argument array, at the `foreach` in EasyOpt/CommandLine.cs:217.

  The nulls the source does check (a null name, a null parameter, null
  enumeration values or comparer) are modelled.
- `\s` is modelled as the .NET whitespace class written out by code
  point.
- `Environment.NewLine` is modelled as a line feed.
- Usage.FormatParameter: its contract states only empty versus non-empty.
  The exact text follows from Usage.ParameterReadsBack together with the
  contract of Usage.ReadParameter, which reads only the separator and a
  usage name, bracketed or not, and gives back exactly that text.
- Tokens.SplitLong: it requires an argument starting with `--`, which is
  all that `Token.Create` ever passes it.
- `ParameterException` is modelled only as the `ParameterError` case of a
  conversion error. No modelled conversion raises it, since `IntParameter`
  throws a bare `Exception`.
- The library's own tests disagree with the code in a few places. The
  model follows the code:
  - TestEasyOpt/CommandLineTest.cs:327-344 expects `--integer 334 28 a`
    to bind 334 to an optional parameter; the code does not
    (ParseFacts.OptionalParameterLeavesNextArgument).
  - TestEasyOpt/ArgumentTest.cs:98-105 expects `--v` to be a long option;
    the pattern makes it a program argument
    (Arguments.OneCharacterLongIsProgramArgument).
  - TestEasyOpt/CommandLineTest.cs:188 expects a ParseException for
    `-iaaa`; the bare exception escapes instead
    (Scenarios.InvalidIntEscapes).
- Strings are sequences of Unicode scalar values, not of UTF-16 code
  units. A character outside the Basic Multilingual Plane counts as one
  character here and as two in .NET. So a name such as U+1F600 is a short
  name here, rendered with one dash, and `--` in front of it is an illegal
  option. In .NET it is a long name, and `-` in front of it is clustered
  per code unit.
- One value type per command line. `CommandLine<T>` holds options whose
  parameters all share the type `T`. The library's `AddOption<T>` is
  generic per call, and one parser may mix flags, sizes, enums, strings
  and integers. A sum type for `T` recovers that, at the price of a
  conversion per option.
- Constraints.Equal: the `InvariantCulture` comparer is modelled as exact
  equality of the texts. .NET's invariant-culture comparer is linguistic:
  ignorable code points and canonically equivalent sequences compare
  equal. Constraints.CaseSensitiveIsMembership rests on this choice.
- Object identity is left out. Options are identified by their index, and
  two equal options are indistinguishable in the model.

## Findings

| source | as written | input that shows it | evidently intended | confidence | as-written member | corrected member |
|---|---|---|---|---|---|---|
| EasyOpt/UsageBuilder.cs:197 | after a line break the new line position counts the space that was not written, one column more than the line holds | usage text of a 70-letter word, a 1-letter word and a 69-letter word: the third word is moved to a line of its own although the second line would end at column 79 | a word is moved to the next line only when it would not fit | not executed | Wrap.AsWrittenWrapsEarly | Wrap.FormatIsGreedy |

The usage text (`Usage.Block`, `Usage.GetUsage`) is built with
`Wrap.FormatAsWritten`, the formatter as written, so it is what the
program prints. `Wrap.FormatOptionUsage` is the corrected formatter, and
`Wrap.FormatIsGreedy` states the intended property of it.
