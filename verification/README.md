# jmake core in Dafny

This project models the two pure parts of jmake, a tool that reads a justfile and runs its recipes through make:

- **The justfile parser** (`parser.go`). It is a line machine over already-split lines. Its state is the open recipe and a one-line pending doc comment. Each line is classified in a fixed priority order: body line, blank, section separator, comment, alias, variable assignment, recipe header, unrecognised. The result is an ordered `Justfile` of variables, recipes and aliases. Helpers split a header into parameters and dependencies and strip one layer of quotes. The six regular expressions of the parser are modelled as hand-written matchers. Each matcher has a soundness lemma (a match decomposes the line the way the pattern says) and a completeness lemma (every such decomposition is matched, with the captures leftmost-first matching picks).
- **The command-line binding** (`main.go`). It covers the flag scanner `parseArgs`, alias resolution, recipe lookup, the target-selection step of `run`, and `mapArgs`, which turns positional arguments into `name=value` assignments for make.

Modules:

- `Wrappers`: `Option` and `Result`.
- `Text`: Go's `strings.TrimSpace`, `Fields` and `Join`, and the two ASCII whitespace classes involved. These are Go's `IsSpace` and RE2's `\s`; the latter leaves out the vertical tab.
- `Patterns`: the six line patterns.
- `Parser`: the types, the line classifier, the step function, `Parse`, `parseParams`, `parseDeps` and `unquote`.
- `ParserFacts`: a declarative reference for what `Parse` produces (one recipe per header line, its doc and body read off the neighbouring lines), and the proof that the machine computes it.
- `ClassifyFacts`: which kind wins when several patterns match one line.
- `Cli`: the command-line side.

Modelling choices:

- Lines are `string`. The read error of the scanner is a boolean input of `Parse`.
- The Go `Variadic` string (`""`, `"*"`, `"+"`) is the datatype `Variadic = Fixed | Star | Plus`.
- `os.Exit(1)` on an unknown flag is the error `UnknownFlag`. The errors of `run` and `mapArgs` are `CliError` values, each carrying the names its message prints.
- The list-default test on the first recipe is a boolean input of `SelectTarget`.
- The field comment at parser.go:39 says `Silent` means "all lines prefixed with @", but `Parse` never assigns `Silent` (the recipe literal at parser.go:150-153 leaves it false, and no later line sets it). The model follows the code: `ParserFacts.ParsedRecipesNeverSilent` states that no parsed recipe is silent.

## Model

| member | source | states |
|---|---|---|
| Text.TrimSpace | parser.go:101 | the trimmed line has no surrounding whitespace, is no longer than the line, and is empty exactly when the line is all whitespace |
| Text.TrimSpaceOfPadded | parser.go:101 | trimming any whitespace padding around an unpadded text gives that text back, which pins the result down for every input |
| Text.FieldsOfTrimmed | parser.go:156-163 | trimming the parameter or dependency group before splitting it into fields changes nothing |
| Text.FieldsOfJoin | parser.go:189-214 | splitting a single-space join of words gives the words back in order |
| Text.FieldsOfSpaced | parser.go:189-214 | splitting words separated by any non-empty runs of whitespace, with any whitespace before and after, gives the words back in order |
| Patterns.SectionSepSound | parser.go:51 | a line the separator matcher accepts is `#`, spaces, `---`, any text without newlines, `---`, spaces |
| Patterns.SectionSepComplete | parser.go:51 | every line of that shape is accepted as a separator |
| Patterns.MatchVariableSound | parser.go:54 | an accepted assignment is an optional `export` plus spaces, an identifier, spaces, `:=`, spaces and a newline-free value, with the captures in those places |
| Patterns.PlainBranchOnly | parser.go:54 | on an assignment without the `export` group, the `export` branch never matches, so the plain branch decides |
| Patterns.MatchVariableComplete | parser.go:54 | every line of that shape is accepted, exported exactly when it has the `export` group, with that name and the shortest value; the value is exactly the given one when it starts with a non-space |
| Patterns.MatchAliasSound | parser.go:57 | an accepted alias line is `alias`, spaces, an identifier, `:=`, an identifier target and trailing spaces |
| Patterns.MatchAliasComplete | parser.go:57 | every line of that shape is accepted with exactly that name and target |
| Patterns.MatchHeaderSound | parser.go:60 | an accepted header is an identifier, an optional colon-free parameter group starting with a space, a colon and the dependency text |
| Patterns.MatchHeaderComplete | parser.go:60 | every line of that shape is accepted with that name and parameter group; the dependency capture is the given one minus leading spaces |
| Patterns.MatchVariadicSound | parser.go:63 | an accepted variadic token is `*` or `+` followed by an identifier, captured in that order |
| Patterns.MatchVariadicComplete | parser.go:63 | every such token is accepted with that marker and name |
| Patterns.MatchDefaultSound | parser.go:64 | an accepted `n=v` token is an identifier, `=` and a non-empty newline-free value |
| Patterns.MatchDefaultComplete | parser.go:64 | every such token is accepted with that name and value |
| Parser.Unquote | parser.go:217-224 | the result is as long as the input or two shorter, and two shorter exactly when the input is wrapped in a matching pair of `"` or `'` |
| Parser.UnquoteQuote | parser.go:217-224 | unquoting a text wrapped in double or single quotes gives the text back |
| Parser.QuotedIsQuote | parser.go:217-224 | a quoted input is its own unquoted text wrapped in its quote character |
| Parser.UnquoteUnquoted | parser.go:217-224 | any other input comes back unchanged |
| Parser.LoneBacktickPanics | parser.go:136-137 | as written, a value that is a single backtick passes both the prefix and suffix tests and reaches the panicking slice |
| Parser.VariableValue | parser.go:136-141 | a value is a command exactly when it is at least two characters long and starts and ends with a backtick; a command is stored as the text between the backticks; any other value is stored unquoted |
| Parser.VariableValueAgrees | parser.go:136-141 | on every value except the lone backtick the guarded reading agrees with the code as written |
| Parser.VariableValueOfCommand | parser.go:136-138 | a command wrapped in backticks is stored as the bare command with the backtick flag set |
| Parser.VariableOf | parser.go:130-141 | a variable keeps the captured name and export flag, and its stored value and backtick flag are what the trimmed captured value is written as: a backtick-wrapped command or a quoted or bare value |
| Parser.ParamOf | parser.go:190-200 | a variadic parameter is a marker followed by an identifier, with no default; any other parameter's name is a prefix of its token |
| Parser.ParamOfVariadic | parser.go:192-194 | `*X` and `+X` give parameter `X` with that marker and no default |
| Parser.ParamOfDefault | parser.go:195-197 | `n=v` gives parameter `n` with default `unquote(v)` |
| Parser.ParamOfPlain | parser.go:198-199 | any other token is the name verbatim |
| Parser.EmptyDefaultIsNoDefault | parser.go:195-199 | `n=""` and `n=''` parse to the same parameter as the bare `n`: fixed, with no default |
| Parser.ParamsOfTokens | parser.go:187-205 | one parameter per token, in token order |
| Parser.ParseParamsOfJoin | parser.go:187-205 | parsing a space-joined token list reads back one parameter per token |
| Parser.ParseDepsOfJoin | parser.go:208-214 | parsing a space-joined dependency list gives the list back |
| Parser.ParseParamsOfSpaced | parser.go:187-205 | parameter tokens separated by any runs of whitespace read back one parameter per token |
| Parser.ParseDepsOfSpaced | parser.go:208-214 | dependency names separated by any runs of whitespace come back in order |
| Parser.StripIndent | parser.go:83-90 | a body line is exactly one indentation unit followed by the stored text; a leading tab takes precedence over four spaces |
| Parser.StripTab | parser.go:86-87 | a line starting with a tab is a body line, stored without the tab |
| Parser.StripSpaces | parser.go:88-89 | a line starting with four spaces is a body line, stored without them |
| Parser.HeaderKind | parser.go:150-163 | a header yields its name, the parameters parsed from group 2 and the dependencies split from group 3 |
| Parser.ClassifyStatement | parser.go:121-171 | alias if the alias pattern matches; else variable if the assignment pattern does; else header if the header pattern does; else unrecognised |
| Parser.ClassifyTrimmedComments | parser.go:103-119 | blank exactly when empty; separator exactly when the separator pattern matches; otherwise a comment exactly when it starts with `#`, with the trimmed text after `#` |
| Parser.ClassifyTrimmedStatement | parser.go:116-122 | a non-empty line not starting with `#` goes to the alias, variable and header rules |
| Parser.Classify | parser.go:82-101 | a line is a body line exactly when a recipe is open and the line is indented; any other line is classified by its trimmed text |
| Parser.Flush | parser.go:96-99 | closing appends the open recipe, if any, after the recipes already in the document, and nothing else changes |
| Parser.Enter | parser.go:101-171 | a non-body line adds a variable or alias only for its own kind and opens a recipe exactly for a header, carrying the pending doc; only a comment leaves a pending doc |
| Parser.Step | parser.go:82-171 | after a line a recipe is open exactly when the line was a body line or a header |
| Parser.StepBodyLine | parser.go:83-93 | while a recipe is open, an indented line is appended to its lines with one indent removed, and nothing else changes |
| Parser.StepClosesRecipe | parser.go:95-99 | any other line closes the open recipe into the document; a newly opened recipe starts with no lines and the pending doc |
| Parser.Parse | parser.go:174-184 | parsing fails exactly when reading failed; an unrecognised line never makes it fail |
| ParserFacts.RunInvariant | parser.go:78-172 | after any prefix of lines, the machine state agrees with the reference: the document, the open recipe and the pending doc are those read off the line kinds |
| ParserFacts.ParseIsExpected | parser.go:68-184 | the document is the variables and aliases of their lines, in order, and one recipe per header line, in order, whose body is the run of body lines below it |
| ParserFacts.DocIsCommentAbove | parser.go:103-119 | a recipe's doc is the text of the comment on the line directly above its header, or empty when that line is anything else |
| ParserFacts.ParsedRecipesNeverSilent | parser.go:150-153 | no parsed recipe is silent, because the parser never sets the flag |
| ParserFacts.CommentHeaderBody | parser_test.go:8-28 | a comment, a header and one indented line give one recipe with the comment text as doc and the unindented line as body |
| ClassifyFacts.AssignmentWinsOverHeader | parser.go:128-149 | `x:=y` matches the header pattern too, yet it is a variable line |
| ClassifyFacts.AliasLineOf | parser.go:121-126 | every alias-shaped line becomes that alias |
| ClassifyFacts.AssignmentNotAlias | parser.go:121-129 | no assignment line matches the alias pattern, so assignments reach the variable rule |
| ClassifyFacts.VariableLineOf | parser.go:128-146 | every assignment-shaped line is a variable line, exported exactly when it has the `export` group, with the variable built from its name and its value |
| ClassifyFacts.VariableLineValue | parser.go:128-146 | for an assignment whose value has no surrounding whitespace, the variable has that name and export flag, and the value is the command between backticks (flag set) or the unquoted value |
| ClassifyFacts.VariableOfUnpadded | parser.go:132-141 | a captured value without surrounding whitespace is stored as written: command between backticks, or unquoted |
| ClassifyFacts.QuotedAssignment | parser.go:128-146 | `name := "x"`, with or without `export `, stores `x` as a plain value |
| ClassifyFacts.CommandAssignment | parser.go:128-146 | ``name := `cmd` `` stores `cmd` with the backtick flag set |
| ClassifyFacts.QuotedValueCase | parser_test.go:39-44 | `name := "hello"` declares `name` with value `hello` |
| ClassifyFacts.UnquotedValueCase | parser_test.go:45-50 | `count := 42` declares `count` with value `42` |
| ClassifyFacts.ExportedValueCase | parser_test.go:51-57 | `export PATH := "/usr/bin"` declares an exported `PATH` with value `/usr/bin` |
| ClassifyFacts.BacktickValueCase | parser_test.go:58-64 | ``version := `git describe --tags` `` declares the command `git describe --tags` |
| ClassifyFacts.HeaderLineOf | parser.go:149-163 | a header-shaped line that is no alias or variable becomes a header with the parameters and dependencies of its groups |
| Cli.Scan | main.go:31-65 | an error names a flag-like token of the input; a target found is a token of the input that does not start with `-` |
| Cli.ParseArgsRender | main.go:31-65 | flags in either spelling set their fields; the first non-flag is the target; every later token is an argument verbatim, even one starting with `-` |
| Cli.DanglingFileFlag | main.go:38-42 | a `-f` or `--file` with nothing after it leaves the path as it was |
| Cli.UnknownFlagFails | main.go:53-55 | any other token starting with `-` before the target is an unknown-flag error naming it |
| Cli.ScanOpt | main.go:43-52 | a switch token in any position, in either spelling, sets its field and scanning continues with the next token |
| Cli.ScanFile | main.go:37-42 | `-f` or `--file` in any position takes the next token, even one starting with `-`, as the path and scanning continues after it |
| Cli.ScanDanglingFile | main.go:37-42 | a final `-f` or `--file` ends the scan with the options unchanged |
| Cli.ScanUnknownFlag | main.go:53-55 | any token starting with `-` that is not a known flag ends the scan with an error naming that token, whatever follows |
| Cli.ScanTarget | main.go:56-60 | the first token not starting with `-`, including the empty token, becomes the target and every later token an argument verbatim |
| Cli.ParseArgsMixedCase | main.go:31-65 | `-n --list build -x` sets the dry-run and list flags, whatever their order and spelling, and `-x` after the target is an argument |
| Cli.ParseArgsEmptyTarget | main.go:56-60 | an empty first token gives an empty target that still carries the arguments after it |
| Cli.ResolveAlias | main.go:207-214 | a name that no alias has comes back unchanged |
| Cli.ResolveAliasFirst | main.go:207-214 | the first alias with the name decides, and its target is returned without further lookup |
| Cli.FindRecipe | main.go:217-224 | a found recipe is in the list and has the name; nothing is found exactly when no recipe has the name |
| Cli.FindRecipeFirst | main.go:217-224 | the first recipe with the name is the one found |
| Cli.SelectTarget | main.go:115-134 | list exactly without a target and with a list-default first recipe; no-recipes error exactly without a target and without recipes; otherwise, with the target (or the first recipe's name) resolved through the aliases, an unknown-recipe error naming it exactly when no recipe has that name, and else the first recipe of that name |
| Cli.SelectFirstRecipe | main.go:115-131 | without a target and without a list default, the first recipe runs when no alias has its name |
| Cli.SelectFirstThroughAlias | main.go:115-131 | without a target, an alias named like the first recipe redirects the default to the alias's target |
| Cli.SelectThroughAlias | main.go:127-131 | a target that is an alias runs the recipe named by the alias target, one step only |
| Cli.SelectAliasToNothing | main.go:127-134 | an alias whose target names no recipe fails with an unknown-recipe error naming that target |
| Cli.SelectByName | main.go:127-134 | a target that is no alias runs the first recipe of that name, or fails naming it |
| Cli.Bind | main.go:227-251 | there are never more assignments than parameters, and every error is a missing variadic or a missing argument |
| Cli.MapArgsFixed | main.go:242-244 | fixed parameters bind arguments one each, left to right, and extra arguments are ignored |
| Cli.MapArgsVariadic | main.go:232-241 | a variadic parameter takes all remaining arguments joined by single spaces as one assignment, and later parameters bind nothing |
| Cli.BindSuccess | main.go:231-247 | a successful binding has one assignment per receiving parameter (the fixed ones up to the arguments' end, stopping after a variadic one): a fixed parameter gets its own argument, a variadic one all remaining arguments joined by single spaces |
| Cli.MapArgsSuccess | main.go:227-251 | the same for a recipe's parameters and the call's arguments |
| Cli.BindExhausted | main.go:231-247 | with no arguments left, later parameters bind nothing and the first required one fails |
| Cli.MapArgsStarvedFails | main.go:231-247 | if a `+` parameter or a fixed one without default receives no argument, binding fails |
| Cli.MapArgsFailure | main.go:231-247 | a failure names the first such parameter, as a missing variadic exactly when it is `+` |
| Cli.EmptyDefaultIsRequired | main.go:245-247 | a fixed parameter whose stored default is empty is required; a call with no argument reaching it fails |
| Cli.QuotedEmptyDefaultIsRequired | main.go:245-247 | a parameter written `n=""` or `n=''` is the bare `n`, and a call without an argument for it fails |
| Cli.MapArgsPositionalCase | parser_test.go:499-506 | `deploy env tag` with `prod v1.0` gives `env=prod tag=v1.0` |
| Cli.MapArgsStarCase | parser_test.go:508-515 | `*ARGS` with `--verbose run` gives `ARGS=--verbose run` |
| Cli.MapArgsEmptyCases | parser_test.go:517-551 | with no arguments: `*` binds nothing, `+` and a required parameter fail, a parameter with a default binds nothing |
| Cli.ParseArgsListCase | parser_test.go:588-597 | `--list` and `-l` set the list flag |
| Cli.ParseArgsDumpCase | parser_test.go:598-602 | `--dump` sets the dump flag |
| Cli.ParseArgsBuildCase | parser_test.go:603-607 | `build` is the target with no arguments |
| Cli.ParseArgsTargetCase | parser_test.go:608-612 | `cli hello world` is target `cli` with arguments `hello world` |
| Cli.ParseArgsFileCase | parser_test.go:613-617 | `-f myfile build` sets the path and the target |

## Left out

- Reading the input: `bufio.Scanner` line splitting, its stripping of a trailing carriage return and its token-size limit are not modelled. `Parse` takes the lines and a flag saying that reading failed.
- Whitespace is ASCII only. Go's `unicode.IsSpace` also accepts U+0085, U+00A0 and other Unicode spaces; RE2's `\s` is ASCII-only anyway.
- General regular-expression matching is not modelled. Only the six fixed patterns are, as hand-written matchers.
- `findJustfile`, opening the file, the temporary Makefile, `exec.Command("make", ...)`, `printUsage`, `version` and the standard-stream wiring of `run` are I/O and process glue.
- The `--help`, `--version`, `--list` and `--dump` dispatch of `run` before target selection is left out. It only prints.
- `Generate`, `convertLine`, `isListDefault` and `ListRecipes` are not part of this model. The list-default test enters `SelectTarget` as a boolean.
- Error messages are the `CliError` constructors with the names the messages print, not the formatted text.
- Cli.Scan: its own contract states only where its error and its target come from. Its behaviour on every input follows token by token from one lemma per branch of the loop: `Cli.ScanFile` and `Cli.ScanDanglingFile` (the path flag), `Cli.ScanOpt` (the switches), `Cli.ScanUnknownFlag` (any other flag) and `Cli.ScanTarget` (the target). `Cli.ParseArgsRender` covers only the canonical shape, with each flag once in a fixed order.
- Cli.Bind: its own contract states only bounds and the error kinds. What a successful binding contains is stated by `Cli.BindSuccess` for every input; when binding fails is stated by `Cli.MapArgsStarvedFails` and `Cli.MapArgsFailure`.

## Findings

| source | as written | input that shows it | evidently intended | confidence | as-written member | corrected member |
|---|---|---|---|---|---|---|
| parser.go:136-137 | a trimmed value that starts and ends with a backtick is sliced `rawValue[1:len-1]`, and a single backtick passes both tests | the line ``x := ` `` (value is one backtick): the slice `[1:0]` panics | treat a value as a command only when it has two distinct backtick delimiters (`len >= 2`); a lone backtick is a plain value | not executed | Parser.LoneBacktickPanics | Parser.VariableValue |
