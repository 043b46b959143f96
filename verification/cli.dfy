/** The command-line side of main.go: the flag scanner, alias resolution, recipe
    lookup, the choice of the recipe to run, and the binding of positional arguments
    to recipe parameters as `name=value` assignments for make.

    Printing, exiting, the filesystem search for the justfile and running make are not
    modelled; where the source exits on an unknown flag the model returns an error. */
module Cli {
  import opened Wrappers
  import opened Text
  import opened Patterns
  import opened Parser

  // ---------------------------------------------------------------- options

  datatype Options = Options(
    justfilePath: string,
    list: bool,
    dump: bool,
    dryRun: bool,
    showHelp: bool,
    showVersion: bool,
    target: string,
    args: seq<string>)

  const NoOptions := Options("", false, false, false, false, false, "", [])

  datatype CliError =
    | UnknownFlag(flag: string)
    | NoRecipes
    | UnknownRecipe(name: string)
    | MissingVariadic(recipe: string, param: string)
    | MissingArgument(recipe: string, param: string)

  predicate IsFlagLike(a: string) {
    StartsWith(a, "-")
  }

  /** The boolean flags, in both spellings. */
  predicate IsSwitch(a: string) {
    a in {"--list", "-l", "--dump", "-d", "--dry-run", "-n", "--help", "-h", "--version", "-v"}
  }

  /** The field a boolean flag sets. */
  function Switch(a: string, o: Options): Options
    requires IsSwitch(a)
  {
    if a == "--list" || a == "-l" then o.(list := true)
    else if a == "--dump" || a == "-d" then o.(dump := true)
    else if a == "--dry-run" || a == "-n" then o.(dryRun := true)
    else if a == "--help" || a == "-h" then o.(showHelp := true)
    else o.(showVersion := true)
  }

  /** The flag scanner from option state `o` on: flags set their field, `-f` takes the
      next token as the path (if there is one), an unknown `-` token is an error, and the
      first other token is the target with everything after it as its arguments. */
  function Scan(args: seq<string>, o: Options): (r: Result<Options, CliError>)
    ensures r.Failure? ==> r.error.UnknownFlag? && r.error.flag in args && IsFlagLike(r.error.flag)
    ensures r.Success? ==> r.value.target == o.target || (r.value.target in args && !IsFlagLike(r.value.target))
    decreases |args|
  {
    if args == [] then Success(o)
    else
      var a := args[0];
      if a == "--file" || a == "-f" then
        if |args| >= 2 then Scan(args[2..], o.(justfilePath := args[1])) else Success(o)
      else if IsSwitch(a) then Scan(args[1..], Switch(a, o))
      else if IsFlagLike(a) then Failure(UnknownFlag(a))
      else Success(o.(target := a, args := args[1..]))
  }

  /** `parseArgs`, with the process exit on an unknown flag as an error. */
  function ParseArgs(args: seq<string>): Result<Options, CliError> {
    Scan(args, NoOptions)
  }

  // ---------------------------------------------------------------- rendering

  /** A flag if `b` is set, nothing otherwise. */
  function Opt(b: bool, flag: string): seq<string> {
    if b then [flag] else []
  }

  /** The flags that produce `o`'s settings, in long or short spelling, followed by
      `rest`. */
  function FlagsThen(o: Options, long: bool, rest: seq<string>): seq<string> {
    (if o.justfilePath != "" then [Spelling(long, "--file", "-f"), o.justfilePath] else [])
    + (Opt(o.list, Spelling(long, "--list", "-l"))
    + (Opt(o.dump, Spelling(long, "--dump", "-d"))
    + (Opt(o.dryRun, Spelling(long, "--dry-run", "-n"))
    + (Opt(o.showHelp, Spelling(long, "--help", "-h"))
    + (Opt(o.showVersion, Spelling(long, "--version", "-v"))
    + rest)))))
  }

  /** A command line for `o`: its flags, then the target and its arguments. */
  function Render(o: Options, long: bool): seq<string> {
    FlagsThen(o, long, if o.target != "" then [o.target] + o.args else [])
  }

  /** The options a command line can produce: arguments only after a target, and a
      target that does not look like a flag. */
  predicate Renderable(o: Options) {
    (o.target == "" ==> o.args == []) && !IsFlagLike(o.target)
  }

  /** `o`'s flag settings on top of the empty options. */
  function FlagsOf(o: Options): Options {
    o.(target := "", args := [])
  }

  /** A switch, in either spelling, sets its field and the scan goes on with the next
      token; `Opt(false, a)` is the same line without the switch. */
  lemma ScanOpt(b: bool, a: string, rest: seq<string>, o: Options)
    requires IsSwitch(a)
    ensures Scan(Opt(b, a) + rest, o) == Scan(rest, if b then Switch(a, o) else o)
  {
    if b {
      assert (Opt(b, a) + rest)[1..] == rest;
    } else {
      assert Opt(b, a) + rest == rest;
    }
  }

  /** `-f` or `--file` takes the next token, whatever it is, as the path and the scan
      goes on after it. */
  lemma ScanFile(a: string, path: string, rest: seq<string>, o: Options)
    requires a == "--file" || a == "-f"
    ensures Scan([a, path] + rest, o) == Scan(rest, o.(justfilePath := path))
  {
    assert ([a, path] + rest)[2..] == rest;
  }

  function Spelling(long: bool, longForm: string, shortForm: string): string {
    if long then longForm else shortForm
  }

  lemma ScanList(b: bool, long: bool, rest: seq<string>, o: Options)
    ensures Scan(Opt(b, Spelling(long, "--list", "-l")) + rest, o) == Scan(rest, o.(list := o.list || b))
  {
    assert Switch(Spelling(long, "--list", "-l"), o) == o.(list := true) by {
      if long { assert Switch("--list", o) == o.(list := true); }
      else { assert Switch("-l", o) == o.(list := true); }
    }
    ScanOpt(b, Spelling(long, "--list", "-l"), rest, o);
  }

  lemma ScanDump(b: bool, long: bool, rest: seq<string>, o: Options)
    ensures Scan(Opt(b, Spelling(long, "--dump", "-d")) + rest, o) == Scan(rest, o.(dump := o.dump || b))
  {
    assert Switch(Spelling(long, "--dump", "-d"), o) == o.(dump := true) by {
      if long { assert Switch("--dump", o) == o.(dump := true); }
      else { assert Switch("-d", o) == o.(dump := true); }
    }
    ScanOpt(b, Spelling(long, "--dump", "-d"), rest, o);
  }

  lemma ScanDryRun(b: bool, long: bool, rest: seq<string>, o: Options)
    ensures Scan(Opt(b, Spelling(long, "--dry-run", "-n")) + rest, o) == Scan(rest, o.(dryRun := o.dryRun || b))
  {
    assert Switch(Spelling(long, "--dry-run", "-n"), o) == o.(dryRun := true) by {
      if long { assert Switch("--dry-run", o) == o.(dryRun := true); }
      else { assert Switch("-n", o) == o.(dryRun := true); }
    }
    ScanOpt(b, Spelling(long, "--dry-run", "-n"), rest, o);
  }

  lemma ScanHelp(b: bool, long: bool, rest: seq<string>, o: Options)
    ensures Scan(Opt(b, Spelling(long, "--help", "-h")) + rest, o) == Scan(rest, o.(showHelp := o.showHelp || b))
  {
    assert Switch(Spelling(long, "--help", "-h"), o) == o.(showHelp := true) by {
      if long { assert Switch("--help", o) == o.(showHelp := true); }
      else { assert Switch("-h", o) == o.(showHelp := true); }
    }
    ScanOpt(b, Spelling(long, "--help", "-h"), rest, o);
  }

  lemma ScanVersion(b: bool, long: bool, rest: seq<string>, o: Options)
    ensures Scan(Opt(b, Spelling(long, "--version", "-v")) + rest, o) == Scan(rest, o.(showVersion := o.showVersion || b))
  {
    assert Switch(Spelling(long, "--version", "-v"), o) == o.(showVersion := true) by {
      if long { assert Switch("--version", o) == o.(showVersion := true); }
      else { assert Switch("-v", o) == o.(showVersion := true); }
    }
    ScanOpt(b, Spelling(long, "--version", "-v"), rest, o);
  }

  /** Scanning a rendered flag list reaches `o`'s flag settings, whatever follows. */
  lemma ScanFlags(o: Options, long: bool, rest: seq<string>)
    ensures Scan(FlagsThen(o, long, rest), NoOptions) == Scan(rest, FlagsOf(o))
  {
    var fFile := if o.justfilePath != "" then [Spelling(long, "--file", "-f"), o.justfilePath] else [];
    var r5 := Opt(o.showVersion, Spelling(long, "--version", "-v")) + rest;
    var r4 := Opt(o.showHelp, Spelling(long, "--help", "-h")) + r5;
    var r3 := Opt(o.dryRun, Spelling(long, "--dry-run", "-n")) + r4;
    var r2 := Opt(o.dump, Spelling(long, "--dump", "-d")) + r3;
    var r1 := Opt(o.list, Spelling(long, "--list", "-l")) + r2;
    var r0 := fFile + r1;
    var o1 := NoOptions.(justfilePath := o.justfilePath);
    if o.justfilePath != "" {
      ScanFile(fFile[0], o.justfilePath, r1, NoOptions);
    } else {
      assert r0 == r1;
    }
    ScanList(o.list, long, r2, o1);
    ScanDump(o.dump, long, r3, o1.(list := o.list));
    ScanDryRun(o.dryRun, long, r4, o1.(list := o.list, dump := o.dump));
    ScanHelp(o.showHelp, long, r5, o1.(list := o.list, dump := o.dump, dryRun := o.dryRun));
    ScanVersion(o.showVersion, long, rest, o1.(list := o.list, dump := o.dump, dryRun := o.dryRun, showHelp := o.showHelp));
  }

  /** The first token that does not look like a flag is the target, and the rest are
      its arguments. An empty token counts: it becomes an empty target that still
      carries the arguments after it. */
  lemma ScanTarget(t: string, rest: seq<string>, o: Options)
    requires !IsFlagLike(t)
    ensures Scan([t] + rest, o) == Success(o.(target := t, args := rest))
  {
    assert !IsKnownFlag(t) by {
      if t != "" {
        assert t[0] != '-';
      }
    }
    assert ([t] + rest)[0] == t && ([t] + rest)[1..] == rest;
  }

  /** A `-f` or `--file` that is the last token ends the scan and leaves the path. */
  lemma ScanDanglingFile(a: string, o: Options)
    requires a == "--file" || a == "-f"
    ensures Scan([a], o) == Success(o)
  {
  }

  /** An unknown token starting with `-` stops the scan with an error naming it. */
  lemma ScanUnknownFlag(a: string, rest: seq<string>, o: Options)
    requires IsFlagLike(a) && !IsKnownFlag(a)
    ensures Scan([a] + rest, o) == Failure(UnknownFlag(a))
  {
    assert ([a] + rest)[0] == a;
  }

  /** Parsing a rendered command line gives the options back: flags in either
      spelling set their fields, the target is the first non-flag token, and every
      later token is an argument verbatim, even one that looks like a flag. */
  lemma {:induction false} ParseArgsRender(o: Options, long: bool)
    requires Renderable(o)
    ensures ParseArgs(Render(o, long)) == Success(o)
  {
    var tail := if o.target != "" then [o.target] + o.args else [];
    ScanFlags(o, long, tail);
    if o.target != "" {
      ScanTarget(o.target, o.args, FlagsOf(o));
    }
  }

  /** A `-f` with nothing after it leaves the path as it was. */
  lemma DanglingFileFlag(o: Options, long: bool)
    requires o.target == "" && o.args == []
    ensures ParseArgs(FlagsThen(o, long, ["-f"])) == Success(o)
    ensures ParseArgs(FlagsThen(o, long, ["--file"])) == Success(o)
  {
    ScanFlags(o, long, ["-f"]);
    ScanFlags(o, long, ["--file"]);
  }

  predicate IsKnownFlag(a: string) {
    a == "--file" || a == "-f" || IsSwitch(a)
  }

  /** Any other token starting with `-` before the target stops the scan with an error
      naming it. */
  lemma UnknownFlagFails(o: Options, long: bool, a: string, rest: seq<string>)
    requires IsFlagLike(a) && !IsKnownFlag(a)
    ensures ParseArgs(FlagsThen(o, long, [a] + rest)) == Failure(UnknownFlag(a))
  {
    ScanFlags(o, long, [a] + rest);
    assert ([a] + rest)[0] == a;
  }

  // ---------------------------------------------------------------- lookups

  /** `resolveAlias`: the target of the first alias with this name, or the name. */
  function ResolveAlias(aliases: seq<Alias>, name: string): (r: string)
    ensures (forall j :: 0 <= j < |aliases| ==> aliases[j].name != name) ==> r == name
  {
    if aliases == [] then name
    else if aliases[0].name == name then aliases[0].target
    else ResolveAlias(aliases[1..], name)
  }

  /** The first matching alias decides; aliases are not followed further. */
  lemma {:induction false} ResolveAliasFirst(aliases: seq<Alias>, name: string, i: nat)
    requires i < |aliases| && aliases[i].name == name
    requires forall j :: 0 <= j < i ==> aliases[j].name != name
    ensures ResolveAlias(aliases, name) == aliases[i].target
  {
    if i > 0 {
      ResolveAliasFirst(aliases[1..], name, i - 1);
    }
  }

  /** `findRecipe`: the first recipe with this name. */
  function FindRecipe(recipes: seq<Recipe>, name: string): (r: Option<Recipe>)
    ensures r.Some? ==> r.value in recipes && r.value.name == name
    ensures r.None? <==> forall j :: 0 <= j < |recipes| ==> recipes[j].name != name
  {
    if recipes == [] then None
    else if recipes[0].name == name then Some(recipes[0])
    else
      var r := FindRecipe(recipes[1..], name);
      assert forall j :: 1 <= j < |recipes| ==> recipes[j] == recipes[1..][j - 1];
      r
  }

  lemma {:induction false} FindRecipeFirst(recipes: seq<Recipe>, name: string, i: nat)
    requires i < |recipes| && recipes[i].name == name
    requires forall j :: 0 <= j < i ==> recipes[j].name != name
    ensures FindRecipe(recipes, name) == Some(recipes[i])
  {
    if i > 0 {
      FindRecipeFirst(recipes[1..], name, i - 1);
    }
  }

  // ---------------------------------------------------------------- target selection

  datatype Selection = ShowList | Invoke(name: string, recipe: Recipe)

  /** The target-selection step of `run`. `firstIsListDefault` stands for what the
      generator's list-default test says of the first recipe. Without a target a
      list-default first recipe means "show the list"; otherwise the first recipe is
      the target. The target is resolved through the aliases once and looked up. */
  function SelectTarget(jf: Justfile, target: string, firstIsListDefault: bool): (r: Result<Selection, CliError>)
    ensures r == Success(ShowList) <==> target == "" && |jf.recipes| > 0 && firstIsListDefault
    ensures r == Failure(NoRecipes) <==> target == "" && |jf.recipes| == 0
    ensures r.Success? && r.value.Invoke? ==>
      && r.value.recipe in jf.recipes
      && r.value.recipe.name == r.value.name
      && r.value.name == ResolveAlias(jf.aliases, if target == "" then jf.recipes[0].name else target)
    ensures r.Failure? && r.error.UnknownRecipe? ==>
      forall j :: 0 <= j < |jf.recipes| ==> jf.recipes[j].name != r.error.name
    ensures !(target == "" && (|jf.recipes| == 0 || firstIsListDefault)) ==>
      var n := ResolveAlias(jf.aliases, if target == "" then jf.recipes[0].name else target);
      && (r == Failure(UnknownRecipe(n)) <==> forall j :: 0 <= j < |jf.recipes| ==> jf.recipes[j].name != n)
      && (r.Success? <==> exists j :: 0 <= j < |jf.recipes| && jf.recipes[j].name == n)
      && (r.Success? ==> r.value == Invoke(n, FindRecipe(jf.recipes, n).value))
  {
    var hasListDefault := |jf.recipes| > 0 && firstIsListDefault;
    if target == "" && hasListDefault then Success(ShowList)
    else if target == "" && |jf.recipes| == 0 then Failure(NoRecipes)
    else
      var name := ResolveAlias(jf.aliases, if target == "" then jf.recipes[0].name else target);
      match FindRecipe(jf.recipes, name)
      case None => Failure(UnknownRecipe(name))
      case Some(rec) => Success(Invoke(name, rec))
  }

  // ---------------------------------------------------------------- argument binding

  /** A parameter that fails when it gets no argument: `+`, or fixed without a default.
      A default written as `""` unquotes to the empty string, so it counts as none. */
  predicate Required(p: Param) {
    p.variadic == Plus || (p.variadic == Fixed && p.default == "")
  }

  function Assign(name: string, value: string): string {
    name + "=" + value
  }

  /** The binding loop of `mapArgs` from parameter `ps[0]` on, with the arguments from
      `idx` on still unused. A variadic parameter takes all remaining arguments at once. */
  function Bind(recipe: string, ps: seq<Param>, args: seq<string>, idx: nat): (r: Result<seq<string>, CliError>)
    requires idx <= |args|
    ensures r.Success? ==> |r.value| <= |ps|
    ensures r.Failure? ==> r.error.MissingVariadic? || r.error.MissingArgument?
    decreases |ps|
  {
    if ps == [] then Success([])
    else
      var p := ps[0];
      if p.variadic != Fixed then
        if p.variadic == Plus && idx >= |args| then Failure(MissingVariadic(recipe, p.name))
        else if idx < |args| then
          var rest :- Bind(recipe, ps[1..], args, |args|);
          Success([Assign(p.name, Join(args[idx..], " "))] + rest)
        else Bind(recipe, ps[1..], args, idx)
      else if idx < |args| then
        var rest :- Bind(recipe, ps[1..], args, idx + 1);
        Success([Assign(p.name, args[idx])] + rest)
      else if p.default == "" then Failure(MissingArgument(recipe, p.name))
      else Bind(recipe, ps[1..], args, idx)
  }

  /** `mapArgs`: the make variable assignments for a call of `r` with `args`. */
  function MapArgs(r: Recipe, args: seq<string>): Result<seq<string>, CliError> {
    Bind(r.name, r.params, args, 0)
  }

  predicate AllFixed(ps: seq<Param>) {
    forall i :: 0 <= i < |ps| ==> ps[i].variadic == Fixed
  }

  /** With only fixed parameters and enough arguments, parameter `i` gets argument `i`
      and extra arguments are ignored. */
  lemma {:induction false} BindFixed(recipe: string, ps: seq<Param>, args: seq<string>, idx: nat)
    requires AllFixed(ps) && idx + |ps| <= |args|
    ensures Bind(recipe, ps, args, idx).Success?
    ensures var a := Bind(recipe, ps, args, idx).value;
      |a| == |ps| && forall i :: 0 <= i < |ps| ==> a[i] == Assign(ps[i].name, args[idx + i])
    decreases |ps|
  {
    if ps != [] {
      assert AllFixed(ps[1..]) by {
        forall i | 0 <= i < |ps| - 1 ensures ps[1..][i].variadic == Fixed {
          assert ps[1..][i] == ps[i + 1];
        }
      }
      BindFixed(recipe, ps[1..], args, idx + 1);
    }
  }

  lemma MapArgsFixed(r: Recipe, args: seq<string>)
    requires AllFixed(r.params) && |r.params| <= |args|
    ensures MapArgs(r, args).Success?
    ensures var a := MapArgs(r, args).value;
      |a| == |r.params| && forall i :: 0 <= i < |a| ==> a[i] == Assign(r.params[i].name, args[i])
  {
    BindFixed(r.name, r.params, args, 0);
  }

  /** After the arguments are used up, the remaining parameters bind nothing and fail
      exactly at the first required one. */
  lemma {:induction false} BindExhausted(recipe: string, ps: seq<Param>, args: seq<string>)
    ensures Bind(recipe, ps, args, |args|) == (
      if exists i :: 0 <= i < |ps| && Required(ps[i]) then
        var k := FirstRequired(ps);
        Failure(if ps[k].variadic == Plus then MissingVariadic(recipe, ps[k].name)
                else MissingArgument(recipe, ps[k].name))
      else Success([]))
    decreases |ps|
  {
    if ps != [] {
      BindExhausted(recipe, ps[1..], args);
      if !Required(ps[0]) && exists i :: 0 <= i < |ps| && Required(ps[i]) {
        var i :| 0 <= i < |ps| && Required(ps[i]);
        assert Required(ps[1..][i - 1]);
      }
      if !Required(ps[0]) && exists i :: 0 <= i < |ps| - 1 && Required(ps[1..][i]) {
        var i :| 0 <= i < |ps| - 1 && Required(ps[1..][i]);
        assert Required(ps[i + 1]);
      }
    }
  }

  /** Index of the first required parameter. */
  function FirstRequired(ps: seq<Param>): (k: nat)
    requires exists i :: 0 <= i < |ps| && Required(ps[i])
    ensures k < |ps| && Required(ps[k])
    ensures forall j :: 0 <= j < k ==> !Required(ps[j])
  {
    if Required(ps[0]) then 0
    else
      var i :| 0 <= i < |ps| && Required(ps[i]);
      assert Required(ps[1..][i - 1]);
      1 + FirstRequired(ps[1..])
  }

  /** A variadic parameter after only fixed ones, with arguments left for it, collects
      all of them joined by single spaces; the parameters after it then bind nothing. */
  lemma {:induction false} BindVariadic(recipe: string, ps: seq<Param>, args: seq<string>, idx: nat, k: nat)
    requires k < |ps| && AllFixed(ps[..k]) && ps[k].variadic != Fixed && idx + k < |args|
    requires Bind(recipe, ps, args, idx).Success?
    ensures var a := Bind(recipe, ps, args, idx).value;
      |a| == k + 1 && a[k] == Assign(ps[k].name, Join(args[idx + k..], " "))
    decreases k
  {
    if k > 0 {
      var q := ps[1..][..k - 1];
      assert AllFixed(q) by {
        forall i | 0 <= i < |q| ensures q[i].variadic == Fixed {
          assert q[i] == ps[..k][i + 1];
        }
      }
      assert ps[0] == ps[..k][0];
      BindVariadic(recipe, ps[1..], args, idx + 1, k - 1);
    } else {
      BindExhausted(recipe, ps[1..], args);
    }
  }

  /** Parameter `i` gets an argument when only fixed parameters precede it and
      arguments remain for it; a variadic parameter leaves nothing for those after it. */
  predicate Receives(ps: seq<Param>, n: nat, idx: nat, i: nat)
    requires i < |ps|
  {
    AllFixed(ps[..i]) && idx + i < n
  }

  predicate Starved(ps: seq<Param>, n: nat, idx: nat, i: nat)
    requires i < |ps|
  {
    Required(ps[i]) && !Receives(ps, n, idx, i)
  }

  lemma ReceivesShift(ps: seq<Param>, n: nat, idx: nat, i: nat)
    requires 0 < i < |ps| && ps[0].variadic == Fixed
    ensures Receives(ps, n, idx, i) <==> Receives(ps[1..], n, idx + 1, i - 1)
  {
    var q := ps[1..][..i - 1];
    assert ps[..i] == [ps[0]] + q;
    if AllFixed(q) {
      forall j | 0 <= j < i ensures ps[..i][j].variadic == Fixed {
        if j > 0 { assert ps[..i][j] == q[j - 1]; }
      }
    }
    if AllFixed(ps[..i]) {
      forall j | 0 <= j < |q| ensures q[j].variadic == Fixed {
        assert q[j] == ps[..i][j + 1];
      }
    }
  }

  lemma NotReceivesAfterVariadic(ps: seq<Param>, n: nat, idx: nat, i: nat)
    requires 0 < i < |ps| && ps[0].variadic != Fixed
    ensures !Receives(ps, n, idx, i)
  {
    assert ps[..i][0] == ps[0];
  }

  /** `a` is what binding `ps` from argument `idx` on should produce: one assignment
      per receiving parameter, and the receiving parameters are a prefix; a fixed one
      binds its own argument, a variadic one all remaining arguments joined by single
      spaces. */
  predicate BindsReceivers(ps: seq<Param>, args: seq<string>, idx: nat, a: seq<string>) {
    && |a| <= |ps|
    && idx + |a| <= |args|
    && (forall i :: 0 <= i < |ps| ==> (Receives(ps, |args|, idx, i) <==> i < |a|))
    && (forall i :: 0 <= i < |a| && ps[i].variadic == Fixed ==> a[i] == Assign(ps[i].name, args[idx + i]))
    && (forall i :: 0 <= i < |a| && ps[i].variadic != Fixed ==>
          a[i] == Assign(ps[i].name, Join(args[idx + i..], " ")))
  }

  /** Every successful binding binds exactly the receiving parameters. */
  lemma {:induction false} BindSuccess(recipe: string, ps: seq<Param>, args: seq<string>, idx: nat)
    requires idx <= |args| && Bind(recipe, ps, args, idx).Success?
    ensures BindsReceivers(ps, args, idx, Bind(recipe, ps, args, idx).value)
    decreases |ps|
  {
    if ps == [] {
    } else if idx == |args| {
      BindSuccessNoArgs(recipe, ps, args);
    } else if ps[0].variadic != Fixed {
      BindSuccessVariadicHead(recipe, ps, args, idx);
    } else {
      BindSuccess(recipe, ps[1..], args, idx + 1);
      BindSuccessFixedHead(ps, args, idx, Bind(recipe, ps[1..], args, idx + 1).value);
    }
  }

  lemma BindSuccessNoArgs(recipe: string, ps: seq<Param>, args: seq<string>)
    requires Bind(recipe, ps, args, |args|).Success?
    ensures BindsReceivers(ps, args, |args|, Bind(recipe, ps, args, |args|).value)
  {
    BindExhausted(recipe, ps, args);
  }

  lemma BindSuccessVariadicHead(recipe: string, ps: seq<Param>, args: seq<string>, idx: nat)
    requires ps != [] && ps[0].variadic != Fixed && idx < |args|
    requires Bind(recipe, ps, args, idx).Success?
    ensures BindsReceivers(ps, args, idx, Bind(recipe, ps, args, idx).value)
  {
    BindExhausted(recipe, ps[1..], args);
    assert Bind(recipe, ps, args, idx).value == [Assign(ps[0].name, Join(args[idx..], " "))];
    assert ps[..0] == [];
    forall i | 0 < i < |ps| ensures !Receives(ps, |args|, idx, i) {
      NotReceivesAfterVariadic(ps, |args|, idx, i);
    }
  }

  lemma BindSuccessFixedHead(ps: seq<Param>, args: seq<string>, idx: nat, rest: seq<string>)
    requires ps != [] && ps[0].variadic == Fixed && idx < |args|
    requires BindsReceivers(ps[1..], args, idx + 1, rest)
    ensures BindsReceivers(ps, args, idx, [Assign(ps[0].name, args[idx])] + rest)
  {
    var a := [Assign(ps[0].name, args[idx])] + rest;
    assert ps[..0] == [];
    forall i | 0 < i < |ps| ensures Receives(ps, |args|, idx, i) <==> i < |a| {
      ReceivesShift(ps, |args|, idx, i);
    }
    forall i | 0 < i < |a| ensures a[i] == rest[i - 1] && ps[i] == ps[1..][i - 1] {
    }
  }

  lemma MapArgsSuccess(r: Recipe, args: seq<string>)
    requires MapArgs(r, args).Success?
    ensures BindsReceivers(r.params, args, 0, MapArgs(r, args).value)
  {
    BindSuccess(r.name, r.params, args, 0);
  }

  /** Binding fails if some parameter that needs an argument receives none. */
  lemma {:induction false} BindStarvedFails(recipe: string, ps: seq<Param>, args: seq<string>, idx: nat, i: nat)
    requires idx <= |args| && i < |ps| && Starved(ps, |args|, idx, i)
    ensures Bind(recipe, ps, args, idx).Failure?
    decreases |ps|
  {
    if i > 0 {
      assert Required(ps[1..][i - 1]);
      if ps[0].variadic != Fixed {
        BindExhausted(recipe, ps[1..], args);
      } else {
        ReceivesShift(ps, |args|, idx, i);
        if idx < |args| {
          BindStarvedFails(recipe, ps[1..], args, idx + 1, i - 1);
        } else {
          BindExhausted(recipe, ps[1..], args);
        }
      }
    }
  }

  /** A failed binding names the first parameter that needs an argument and receives
      none, as a missing variadic for `+` and as a missing argument otherwise. */
  lemma {:induction false} BindFailureWitness(recipe: string, ps: seq<Param>, args: seq<string>, idx: nat)
    returns (i: nat)
    requires idx <= |args| && Bind(recipe, ps, args, idx).Failure?
    ensures i < |ps| && Starved(ps, |args|, idx, i)
    ensures forall j :: 0 <= j < i ==> !Starved(ps, |args|, idx, j)
    ensures Bind(recipe, ps, args, idx).error ==
      if ps[i].variadic == Plus then MissingVariadic(recipe, ps[i].name) else MissingArgument(recipe, ps[i].name)
    decreases |ps|
  {
    var p := ps[0];
    var n := |args|;
    if p.variadic != Fixed {
      if p.variadic == Plus && idx >= n {
        return 0;
      }
      var idx' := if idx < n then n else idx;
      var j := BindFailureWitness(recipe, ps[1..], args, idx');
      i := j + 1;
      NotReceivesAfterVariadic(ps, n, idx, i);
      forall k | 1 <= k < i ensures !Starved(ps, n, idx, k) {
        NotReceivesAfterVariadic(ps, n, idx, k);
        assert !Starved(ps[1..], n, idx', k - 1);
      }
    } else if idx < n || p.default != "" {
      var idx' := if idx < n then idx + 1 else idx;
      var j := BindFailureWitness(recipe, ps[1..], args, idx');
      i := j + 1;
      if idx < n {
        ReceivesShift(ps, n, idx, i);
        forall k | 1 <= k < i ensures !Starved(ps, n, idx, k) {
          ReceivesShift(ps, n, idx, k);
          assert !Starved(ps[1..], n, idx', k - 1);
        }
      } else {
        forall k | 1 <= k < i ensures !Starved(ps, n, idx, k) {
          assert !Starved(ps[1..], n, idx', k - 1);
        }
      }
    } else {
      return 0;
    }
  }

  /** `mapArgs` fails exactly when some required parameter receives no argument, and the
      error names the first such parameter. */
  lemma MapArgsStarvedFails(r: Recipe, args: seq<string>, i: nat)
    requires i < |r.params|
    ensures Starved(r.params, |args|, 0, i) ==> MapArgs(r, args).Failure?
  {
    if Starved(r.params, |args|, 0, i) {
      BindStarvedFails(r.name, r.params, args, 0, i);
    }
  }

  lemma MapArgsFailure(r: Recipe, args: seq<string>) returns (i: nat)
    requires MapArgs(r, args).Failure?
    ensures i < |r.params| && Starved(r.params, |args|, 0, i)
    ensures forall j :: 0 <= j < i ==> !Starved(r.params, |args|, 0, j)
    ensures MapArgs(r, args).error.param == r.params[i].name
    ensures MapArgs(r, args).error.MissingVariadic? <==> r.params[i].variadic == Plus
  {
    i := BindFailureWitness(r.name, r.params, args, 0);
  }

  /** A variadic parameter after `k` fixed ones collects all arguments from the `k`-th on. */
  lemma MapArgsVariadic(r: Recipe, args: seq<string>, k: nat)
    requires k < |r.params| && AllFixed(r.params[..k]) && r.params[k].variadic != Fixed && k < |args|
    requires MapArgs(r, args).Success?
    ensures var a := MapArgs(r, args).value;
      |a| == k + 1 && a[k] == Assign(r.params[k].name, Join(args[k..], " "))
  {
    BindVariadic(r.name, r.params, args, 0, k);
  }

  /** A fixed parameter whose stored default is empty is required: a call with no
      argument reaching it fails, as if it had no default. */
  lemma EmptyDefaultIsRequired(r: Recipe, args: seq<string>, i: nat)
    requires i < |r.params| && r.params[i].variadic == Fixed && r.params[i].default == ""
    ensures Required(r.params[i])
    ensures |args| <= i ==> MapArgs(r, args).Failure?
  {
    if |args| <= i {
      BindStarvedFails(r.name, r.params, args, 0, i);
    }
  }

  /** A parameter written `name=""` or `name=''` parses as the bare `name` and makes
      a call without an argument for it fail. */
  lemma QuotedEmptyDefaultIsRequired(r: Recipe, args: seq<string>, i: nat, name: string, q: char)
    requires IsIdent(name) && IsQuoteChar(q)
    requires i < |r.params| && r.params[i] == ParamOf(name + ("=" + Quote(q, "")))
    ensures r.params[i] == ParamOf(name) && Required(r.params[i])
    ensures |args| <= i ==> MapArgs(r, args).Failure?
  {
    EmptyDefaultIsNoDefault(name, q);
    EmptyDefaultIsRequired(r, args, i);
  }

  // ---------------------------------------------------------------- target selection facts

  /** Without a target and without a list default, the first recipe runs, unless an
      alias of the same name redirects it. */
  lemma SelectFirstRecipe(jf: Justfile, firstIsListDefault: bool)
    requires |jf.recipes| > 0 && !firstIsListDefault
    requires forall j :: 0 <= j < |jf.aliases| ==> jf.aliases[j].name != jf.recipes[0].name
    ensures SelectTarget(jf, "", firstIsListDefault) == Success(Invoke(jf.recipes[0].name, jf.recipes[0]))
  {
    FindRecipeFirst(jf.recipes, jf.recipes[0].name, 0);
  }

  /** A target that is the name of an alias runs the recipe named by the alias's
      target; the alias target is not itself looked up among the aliases. */
  lemma SelectThroughAlias(jf: Justfile, target: string, i: nat, k: nat, firstIsListDefault: bool)
    requires target != ""
    requires i < |jf.aliases| && jf.aliases[i].name == target
    requires forall j :: 0 <= j < i ==> jf.aliases[j].name != target
    requires k < |jf.recipes| && jf.recipes[k].name == jf.aliases[i].target
    requires forall j :: 0 <= j < k ==> jf.recipes[j].name != jf.aliases[i].target
    ensures SelectTarget(jf, target, firstIsListDefault) == Success(Invoke(jf.aliases[i].target, jf.recipes[k]))
  {
    ResolveAliasFirst(jf.aliases, target, i);
    FindRecipeFirst(jf.recipes, jf.aliases[i].target, k);
  }

  /** An alias whose target names no recipe fails, naming the alias's target. */
  lemma SelectAliasToNothing(jf: Justfile, target: string, i: nat, firstIsListDefault: bool)
    requires target != ""
    requires i < |jf.aliases| && jf.aliases[i].name == target
    requires forall j :: 0 <= j < i ==> jf.aliases[j].name != target
    requires forall j :: 0 <= j < |jf.recipes| ==> jf.recipes[j].name != jf.aliases[i].target
    ensures SelectTarget(jf, target, firstIsListDefault) == Failure(UnknownRecipe(jf.aliases[i].target))
  {
    ResolveAliasFirst(jf.aliases, target, i);
  }

  /** Without a target the first recipe's name is itself resolved through the aliases:
      an alias of that name redirects the default to the alias's target. */
  lemma SelectFirstThroughAlias(jf: Justfile, i: nat, k: nat, firstIsListDefault: bool)
    requires |jf.recipes| > 0 && !firstIsListDefault
    requires i < |jf.aliases| && jf.aliases[i].name == jf.recipes[0].name
    requires forall j :: 0 <= j < i ==> jf.aliases[j].name != jf.recipes[0].name
    requires k < |jf.recipes| && jf.recipes[k].name == jf.aliases[i].target
    requires forall j :: 0 <= j < k ==> jf.recipes[j].name != jf.aliases[i].target
    ensures SelectTarget(jf, "", firstIsListDefault) == Success(Invoke(jf.aliases[i].target, jf.recipes[k]))
  {
    ResolveAliasFirst(jf.aliases, jf.recipes[0].name, i);
    FindRecipeFirst(jf.recipes, jf.aliases[i].target, k);
  }

  /** A target that is no alias runs the first recipe of that name, or fails naming it. */
  lemma SelectByName(jf: Justfile, target: string, firstIsListDefault: bool)
    requires target != ""
    requires forall j :: 0 <= j < |jf.aliases| ==> jf.aliases[j].name != target
    ensures var r := SelectTarget(jf, target, firstIsListDefault);
      (exists k :: 0 <= k < |jf.recipes| && jf.recipes[k].name == target)
        ==> r.Success? && r.value == Invoke(target, FindRecipe(jf.recipes, target).value)
    ensures (forall k :: 0 <= k < |jf.recipes| ==> jf.recipes[k].name != target)
        ==> SelectTarget(jf, target, firstIsListDefault) == Failure(UnknownRecipe(target))
  {
  }

  // ---------------------------------------------------------------- cases from the tests

  /** Two positional parameters bind two arguments in order. */
  lemma MapArgsPositionalCase()
    ensures MapArgs(Recipe("deploy", "", [Param("env", "", Fixed), Param("tag", "", Fixed)], [], [], false),
                    ["prod", "v1.0"]) == Success(["env=prod", "tag=v1.0"])
  {
    var r := Recipe("deploy", "", [Param("env", "", Fixed), Param("tag", "", Fixed)], [], [], false);
    MapArgsFixed(r, ["prod", "v1.0"]);
    var a := MapArgs(r, ["prod", "v1.0"]).value;
    assert a[0] == "env=prod";
    assert a[1] == "tag=v1.0";
    assert a == ["env=prod", "tag=v1.0"];
  }

  /** A `*` parameter collects arguments that look like flags. */
  lemma MapArgsStarCase()
    ensures MapArgs(Recipe("cli", "", [Param("ARGS", "", Star)], [], [], false),
                    ["--verbose", "run"]) == Success(["ARGS=--verbose run"])
  {
    var r := Recipe("cli", "", [Param("ARGS", "", Star)], [], [], false);
    var args := ["--verbose", "run"];
    if MapArgs(r, args).Failure? {
      var i := MapArgsFailure(r, args);
      assert false;
    }
    assert AllFixed(r.params[..0]);
    MapArgsVariadic(r, args, 0);
    assert args[0..] == args;
    assert Join(args, " ") == "--verbose run" by {
      assert args[1..] == ["run"];
      assert Join(["run"], " ") == "run";
    }
    var a := MapArgs(r, args).value;
    assert a[0] == "ARGS=--verbose run";
    assert a == ["ARGS=--verbose run"];
  }

  /** With no arguments, `*` binds nothing, `+` and a required parameter fail, and a
      parameter with a default binds nothing (make then uses its own default). */
  lemma MapArgsEmptyCases()
    ensures MapArgs(Recipe("cli", "", [Param("ARGS", "", Star)], [], [], false), []) == Success([])
    ensures MapArgs(Recipe("run", "", [Param("FILES", "", Plus)], [], [], false), []).Failure?
    ensures MapArgs(Recipe("deploy", "", [Param("env", "", Fixed)], [], [], false), []).Failure?
    ensures MapArgs(Recipe("deploy", "", [Param("env", "staging", Fixed)], [], [], false), []) == Success([])
  {
  }

  lemma ParseArgsEmptyCase()
    ensures ParseArgs([]) == Success(NoOptions)
  {
  }

  lemma ParseArgsListCase()
    ensures ParseArgs(["--list"]) == Success(NoOptions.(list := true))
    ensures ParseArgs(["-l"]) == Success(NoOptions.(list := true))
  {
    ParseArgsRender(NoOptions.(list := true), true);
    ParseArgsRender(NoOptions.(list := true), false);
  }

  lemma ParseArgsDumpCase()
    ensures ParseArgs(["--dump"]) == Success(NoOptions.(dump := true))
  {
    ParseArgsRender(NoOptions.(dump := true), true);
  }

  lemma ParseArgsBuildCase()
    ensures ParseArgs(["build"]) == Success(NoOptions.(target := "build"))
  {
    var o := NoOptions.(target := "build");
    assert !IsFlagLike("build") by { assert "build"[0] == 'b'; }
    assert Render(o, false) == ["build"];
    ParseArgsRender(o, false);
  }

  lemma ParseArgsTargetCase()
    ensures ParseArgs(["cli", "hello", "world"]) == Success(NoOptions.(target := "cli", args := ["hello", "world"]))
  {
    assert !IsFlagLike("cli") by { assert "cli"[0] == 'c'; }
    ParseArgsRender(NoOptions.(target := "cli", args := ["hello", "world"]), false);
  }

  /** Flags in any order and spelling before the target; a flag-like token after the
      target is an argument. */
  lemma ParseArgsMixedCase()
    ensures ParseArgs(["-n", "--list", "build", "-x"])
      == Success(NoOptions.(list := true, dryRun := true, target := "build", args := ["-x"]))
  {
    var o1 := NoOptions.(dryRun := true);
    MixedCaseText();
    ScanDryRun(true, false, ["--list", "build", "-x"], NoOptions);
    ScanList(true, true, ["build", "-x"], o1);
    ScanTarget("build", ["-x"], o1.(list := true));
  }

  /** The pieces of the mixed command line, apart from the scan so that the solver
      does not unfold it on literals. */
  lemma MixedCaseText()
    ensures Opt(true, Spelling(false, "--dry-run", "-n")) + ["--list", "build", "-x"] == ["-n", "--list", "build", "-x"]
    ensures Opt(true, Spelling(true, "--list", "-l")) + ["build", "-x"] == ["--list", "build", "-x"]
    ensures ["build"] + ["-x"] == ["build", "-x"]
    ensures !IsFlagLike("build")
  {
    assert "build"[0] == 'b';
  }

  /** An empty first token is taken as the target, so the call has no target but
      keeps its arguments. */
  lemma ParseArgsEmptyTarget(rest: seq<string>)
    ensures ParseArgs([""] + rest) == Success(NoOptions.(args := rest))
  {
    ScanTarget("", rest, NoOptions);
  }

  lemma ParseArgsFileCase()
    ensures ParseArgs(["-f", "myfile", "build"]) == Success(NoOptions.(justfilePath := "myfile", target := "build"))
  {
    var o := NoOptions.(justfilePath := "myfile", target := "build");
    assert !IsFlagLike("build") by { assert "build"[0] == 'b'; }
    assert Render(o, false) == ["-f", "myfile", "build"];
    ParseArgsRender(o, false);
  }
}
