// The command tree declared by the demonstration program
// (example/example.cpp): a required program argument, a --verbose/-v
// flag, and five optional sub-commands of which one must be chosen.
module Example {
  import opened Args
  import opened Tree
  import Parsing
  import Text

  const PROG: ArgId := 0
  const VERBOSE: ArgId := 1
  const PNAME: ArgId := 2
  const PSTONES: ArgId := 3
  const INIT: ArgId := 4
  const EMPLOY: ArgId := 5
  const OLD_NAME: ArgId := 6
  const NEW_NAME: ArgId := 7
  const RENAME: ArgId := 8
  const BUILD: ArgId := 9
  const HELP: ArgId := 10

  /** The declarations, indexed by the ids above. */
  const Declared: seq<Decl> := [
    KeyDecl("", true, ["prog"], NO_GLUE),
    KeyDecl("Print verbose messages.", false, ["--verbose", "-v"], 'v'),
    KeyValueDecl("Pyramid name.", false, ["pname"], "name", "Cheops"),
    KeyValueDecl("Specifies <number> of stones used to build a pyramid.", true, ["pstones"], "number", ""),
    KeyDecl("Initialize pyramid construction site.", false, ["init"], NO_GLUE),
    KeyValueDecl("Employ <amount> of slaves.", false, ["employ"], "amount", "1000"),
    ValueDecl("Old pyramid name.", true, "old_name", ""),
    ValueDecl("New pyramid name.", true, "new_name", ""),
    KeyDecl("Rename pyramid", false, ["rename"], NO_GLUE),
    KeyDecl("Build a pyramid.", false, ["build"], NO_GLUE),
    KeyDecl("Print this information.", false, ["help", "--help", "-h"], 'h')
  ]

  /** A sub-command with only its (empty) default group. */
  function Leaf(cmd: ArgId, defaultGroup: GroupId): Parser {
    Parser(cmd, [Group(defaultGroup, "", false, [], [], [], [])])
  }

  function Empty(id: GroupId): Group {
    Group(id, "", false, [], [], [], [])
  }

  const PyramidOptions: Group := Group(1, "pyramid_options", false, [], [], [], [PNAME, PSTONES])
  const RenameOptions: Group := Group(2, "rename_options", false, [], [OLD_NAME, NEW_NAME], [], [])

  const InitCmd: Parser := Parser(INIT, [Empty(3), PyramidOptions])
  const RenameCmd: Parser := Parser(RENAME, [Empty(5), RenameOptions])

  /** The program's parser: its default group requires one sub-command and holds the flag. */
  const Program: Parser := Parser(PROG, [
    Group(0, "", true, [InitCmd, Leaf(EMPLOY, 4), RenameCmd, Leaf(BUILD, 6), Leaf(HELP, 7)], [], [VERBOSE], [])
  ])

  /** A state of the declared arguments in which nothing is set and no choice is recorded. */
  predicate Clean(st: State) {
    && Decls(st.args) == Declared && st.optionSet == map[]
    && forall id :: 0 <= id < |st.args| ==> !st.args[id].isSet
  }

  /** Nothing parsed yet. */
  function Fresh(): (st: State)
    ensures Clean(st)
    ensures forall id :: 0 <= id < |st.args| ==> st.args[id].value == ""
  {
    var st := State(seq(|Declared|, i requires 0 <= i < |Declared| => Arg(Declared[i], false, "")), map[]);
    assert Decls(st.args) == Declared;
    st
  }

  lemma LeafFits(cmd: ArgId, id: GroupId)
    requires cmd < |Declared| && WellFormed(Declared[cmd])
    ensures FitsParser(Leaf(cmd, id), Declared)
  {
    assert FitsGroup(Leaf(cmd, id).groups[0], Declared);
  }

  lemma PyramidFits()
    ensures FitsGroup(PyramidOptions, Declared)
  {
  }

  lemma InitFits()
    ensures FitsParser(InitCmd, Declared)
  {
    PyramidFits();
    assert FitsGroup(Empty(3), Declared);
  }

  lemma RenameFits()
    ensures FitsParser(RenameCmd, Declared)
  {
    assert FitsGroup(RenameOptions, Declared);
    assert FitsGroup(Empty(5), Declared);
  }

  /** The demonstration program's tree is well formed over its declarations. */
  lemma ProgramFits()
    ensures FitsParser(Program, Declared) && Fits(Program, Fresh())
  {
    InitFits();
    RenameFits();
    LeafFits(EMPLOY, 4);
    LeafFits(BUILD, 6);
    LeafFits(HELP, 7);
    assert FitsGroup(Program.groups[0], Declared);
  }

  // ---------------------------------------------------------------------
  // Parsing scenarios

  /** A group with no members and no children takes no token. */
  lemma EmptyGroupIdle(id: GroupId, ts: seq<string>, st: State)
    requires |ts| > 0
    ensures Parsing.GroupStep(Empty(id), ts, st) == Parsing.Step(Ok(0), st)
  {
    assert !HasGlueChar(Decls(st.args), [], if |ts[0]| > 1 then ts[0][1] else ' ', 0);
  }

  /** The state after argument `id` has been marked set. */
  function Marked(st: State, id: ArgId): (r: State)
    requires id < |st.args|
    ensures |r.args| == |st.args| && Decls(r.args) == Decls(st.args) && r.optionSet == st.optionSet
    ensures r.args[id] == st.args[id].(isSet := true)
    ensures forall j :: 0 <= j < |st.args| && j != id ==> r.args[j] == st.args[j]
  {
    var r := st.(args := st.args[id := st.args[id].(isSet := true)]);
    assert Decls(r.args) == Decls(st.args);
    r
  }

  /** The state after key-value argument `id` has been given `v`. */
  function Valued(st: State, id: ArgId, v: string): (r: State)
    requires id < |st.args|
    ensures |r.args| == |st.args| && Decls(r.args) == Decls(st.args) && r.optionSet == st.optionSet
    ensures r.args[id] == st.args[id].(value := v, isSet := true)
    ensures forall j :: 0 <= j < |st.args| && j != id ==> r.args[j] == st.args[j]
  {
    var r := st.(args := st.args[id := st.args[id].(value := v, isSet := true)]);
    assert Decls(r.args) == Decls(st.args);
    r
  }

  /** The state after the program's default group has recorded `init` as its choice. */
  function ChoseInit(st: State): (r: State)
    ensures r.args == st.args && 0 in r.optionSet && r.optionSet[0] == INIT
  {
    st.(optionSet := st.optionSet[0 := INIT])
  }

  /** Every state along the scenarios keeps the declarations. */
  lemma DeclOf(st: State, id: ArgId)
    requires Decls(st.args) == Declared && id < |Declared|
    ensures id < |st.args| && st.args[id].decl == Declared[id]
  {
    assert Decls(st.args)[id] == st.args[id].decl;
  }

  /** The discriminator `prog` starts the program's loop at argNum 1. */
  lemma ProgStarts(ts: seq<string>, st: State)
    requires Decls(st.args) == Declared && !st.args[PROG].isSet && |ts| > 0 && ts[0] == "prog"
    ensures Fits(Program, st)
    ensures Parsing.Parse(Program, ts, st) == Parsing.Consume(Program, ts, 1, Marked(st, PROG))
  {
    ProgramFits();
    DeclOf(st, PROG);
    FlagMatchesItsAliases(st.args[PROG], ts);
    Parsing.CommandStarts(Program, ts, st, 1, Marked(st, PROG));
  }

  /** The discriminator `init` starts the sub-command's loop at argNum 1. */
  lemma InitStarts(ts: seq<string>, st: State)
    requires Decls(st.args) == Declared && !st.args[INIT].isSet && |ts| > 0 && ts[0] == "init"
    ensures Fits(InitCmd, st)
    ensures Parsing.Parse(InitCmd, ts, st) == Parsing.Consume(InitCmd, ts, 1, Marked(st, INIT))
  {
    InitFits();
    DeclOf(st, INIT);
    FlagMatchesItsAliases(st.args[INIT], ts);
    Parsing.CommandStarts(InitCmd, ts, st, 1, Marked(st, INIT));
  }

  lemma StonesKey()
    ensures KeyPart("pstones=500") == "pstones"
  {
    IndexOfIsFirst("pstones=500", '=', 7);
  }

  /** `pname` ignores any token whose key is `pstones`. */
  lemma NameSkipsStones(st: State, ts: seq<string>)
    requires Decls(st.args) == Declared && |ts| > 0 && KeyPart(ts[0]) == "pstones"
    ensures Parsing.MatchAt(st, PNAME, ts) == Parsing.Step(Ok(0), st)
  {
    DeclOf(st, PNAME);
  }

  lemma StonesTakeValue(st: State)
    requires Decls(st.args) == Declared && !st.args[PSTONES].isSet
    ensures Parsing.MatchAt(st, PSTONES, ["pstones=500", "-v"]) == Parsing.Step(Ok(1), Valued(st, PSTONES, "500"))
  {
    DeclOf(st, PSTONES);
    assert "pstones" + "=" + "500" == "pstones=500";
    KeyValueSpellingsAgree(st.args[PSTONES], "pstones", "500", ["-v"]);
  }

  /** `pstones 500`: the key-value argument takes the key and the next token. */
  lemma StonesTakeSplitValue(st: State)
    requires Decls(st.args) == Declared && !st.args[PSTONES].isSet
    ensures KeyPart("pstones") == "pstones"
    ensures Parsing.MatchAt(st, PSTONES, ["pstones", "500", "-v"]) == Parsing.Step(Ok(2), Valued(st, PSTONES, "500"))
  {
    DeclOf(st, PSTONES);
    assert ["pstones", "500"] + ["-v"] == ["pstones", "500", "-v"];
    KeyValueSpellingsAgree(st.args[PSTONES], "pstones", "500", ["-v"]);
    assert IndexOf("pstones", '=') == None;
  }

  /** The key-value loop of pyramid_options gives a `pstones` token to `pstones`. */
  lemma StonesTaken(st: State, ts: seq<string>, k: nat, st1: State)
    requires Decls(st.args) == Declared && |ts| > 0 && KeyPart(ts[0]) == "pstones"
    requires Parsing.MatchAt(st, PSTONES, ts) == Parsing.Step(Ok(k), st1) && k > 0
    ensures Parsing.IdsIn(PyramidOptions.keyValueAttrs, st)
    ensures Parsing.MatchFirst(PyramidOptions.keyValueAttrs, ts, st, 0) == Parsing.Step(Ok(k), st1)
  {
    PassesName(st, ts);
    Parsing.MatchTakes(PyramidOptions.keyValueAttrs, ts, st, 1);
  }

  /** The key-value loop of pyramid_options passes a `pstones` token on from `pname` to `pstones`. */
  lemma PassesName(st: State, ts: seq<string>)
    requires Decls(st.args) == Declared && |ts| > 0 && KeyPart(ts[0]) == "pstones"
    ensures Parsing.IdsIn(PyramidOptions.keyValueAttrs, st)
    ensures Parsing.MatchFirst(PyramidOptions.keyValueAttrs, ts, st, 0) ==
            Parsing.MatchFirst(PyramidOptions.keyValueAttrs, ts, st, 1)
  {
    DeclOf(st, PSTONES);
    NameSkipsStones(st, ts);
    Parsing.MatchSkips(PyramidOptions.keyValueAttrs, ts, st, 0);
  }

  lemma PyramidTakesStones(st: State, ts: seq<string>, k: nat, st1: State)
    requires Decls(st.args) == Declared && |ts| > 0 && KeyPart(ts[0]) == "pstones"
    requires Parsing.MatchAt(st, PSTONES, ts) == Parsing.Step(Ok(k), st1) && k > 0
    ensures FitsGroup(PyramidOptions, Decls(st.args))
    ensures Parsing.GroupStep(PyramidOptions, ts, st) == Parsing.Step(Ok(k), st1)
  {
    PyramidFits();
    StonesTaken(st, ts, k, st1);
    assert Parsing.TryChildren(PyramidOptions, ts, st, 0) == Parsing.Step(Ok(0), st);
  }

  /** A token that `pstones` takes is taken by init's pass. */
  lemma InitTakesStones(st: State, ts: seq<string>, k: nat, st1: State)
    requires Decls(st.args) == Declared && |ts| > 0 && KeyPart(ts[0]) == "pstones"
    requires Parsing.MatchAt(st, PSTONES, ts) == Parsing.Step(Ok(k), st1) && k > 0
    ensures Fits(InitCmd, st)
    ensures Parsing.Pass(InitCmd.groups, ts, st, 0) == Parsing.Step(Ok(k), st1)
  {
    InitFits();
    EmptyGroupIdle(3, ts, st);
    PyramidTakesStones(st, ts, k, st1);
    assert Parsing.Pass(InitCmd.groups, ts, st, 1) == Parsing.Step(Ok(k), st1);
  }

  lemma PyramidOptionsRejectVerbose(st: State)
    requires Decls(st.args) == Declared
    ensures Parsing.IdsIn(PyramidOptions.keyValueAttrs, st)
    ensures Parsing.MatchFirst(PyramidOptions.keyValueAttrs, ["-v"], st, 0) == Parsing.Step(Ok(0), st)
  {
    DeclOf(st, PNAME);
    DeclOf(st, PSTONES);
    assert KeyPart("-v") == "-v";
    Parsing.NoneTake(PyramidOptions.keyValueAttrs, ["-v"], st, 0);
  }

  lemma PyramidRejectsVerbose(st: State)
    requires Decls(st.args) == Declared
    ensures FitsGroup(PyramidOptions, Decls(st.args))
    ensures Parsing.GroupStep(PyramidOptions, ["-v"], st) == Parsing.Step(Ok(0), st)
  {
    PyramidFits();
    PyramidOptionsRejectVerbose(st);
    Parsing.NoneTake([], ["-v"], st, 0);
    assert !HasGlueChar(Decls(st.args), [], 'v', 0);
    assert !GluedKeyArgs(Decls(st.args), [], "-v");
  }

  lemma InitRejectsVerbose(st: State)
    requires Decls(st.args) == Declared
    ensures Fits(InitCmd, st)
    ensures Parsing.Pass(InitCmd.groups, ["-v"], st, 0) == Parsing.Step(Ok(0), st)
  {
    InitFits();
    EmptyGroupIdle(3, ["-v"], st);
    PyramidRejectsVerbose(st);
    assert Parsing.Pass(InitCmd.groups, ["-v"], st, 2) == Parsing.Step(Ok(0), st);
    assert Parsing.Pass(InitCmd.groups, ["-v"], st, 1) == Parsing.Step(Ok(0), st);
  }

  /** `init pstones=500 -v`: init takes its key-value argument and stops at `-v` with Unrecognized(2). */
  lemma InitStopsAtVerbose(st: State)
    requires Decls(st.args) == Declared && !st.args[INIT].isSet && !st.args[PSTONES].isSet
    ensures Fits(InitCmd, st)
    ensures Parsing.Parse(InitCmd, ["init", "pstones=500", "-v"], st) ==
            Parsing.Step(Err(Unrecognized(2)), Valued(Marked(st, INIT), PSTONES, "500"))
  {
    var ts := ["init", "pstones=500", "-v"];
    var s2 := Marked(st, INIT);
    var s3 := Valued(s2, PSTONES, "500");
    InitStarts(ts, st);
    StonesKey();
    StonesTakeValue(s2);
    InitTakesStones(s2, ["pstones=500", "-v"], 1, s3);
    assert ts[1..] == ["pstones=500", "-v"];
    Parsing.PassAdvances(InitCmd, ts, 1, s2, 1, s3);
    InitRejectsVerbose(s3);
    assert ts[2..] == ["-v"];
    Parsing.StalledPassIsUnrecognized(InitCmd, ts, 2, s3);
  }

  /** `init -v`: init stops at `-v` with Unrecognized(1), without validating `pstones`. */
  lemma InitStopsAtOnce(st: State)
    requires Decls(st.args) == Declared && !st.args[INIT].isSet
    ensures Fits(InitCmd, st)
    ensures Parsing.Parse(InitCmd, ["init", "-v"], st) == Parsing.Step(Err(Unrecognized(1)), Marked(st, INIT))
  {
    var ts := ["init", "-v"];
    InitStarts(ts, st);
    InitRejectsVerbose(Marked(st, INIT));
    assert ts[1..] == ["-v"];
    Parsing.StalledPassIsUnrecognized(InitCmd, ts, 1, Marked(st, INIT));
  }

  /** Once init stops at Unrecognized(k), the program's pass takes k tokens and records init as the choice. */
  lemma InitChosen(ts: seq<string>, st: State, k: nat, st1: State)
    requires Decls(st.args) == Declared && |ts| > 0 && k > 0
    requires Fits(InitCmd, st) && Parsing.Parse(InitCmd, ts, st) == Parsing.Step(Err(Unrecognized(k)), st1)
    requires 0 !in st1.optionSet
    ensures Fits(Program, st)
    ensures Parsing.Pass(Program.groups, ts, st, 0) == Parsing.Step(Ok(k), ChoseInit(st1))
  {
    ProgramFits();
    var G0 := Program.groups[0];
    DeclOf(st1, INIT);
    Parsing.OptionalChildStops(G0, ts, st, 0, k, st1);
    Parsing.ChildrenDecide(G0, ts, st);
    Parsing.GroupDecides(Program.groups, ts, st, 0);
  }

  /** The program's group reads init's Unrecognized(2) as two tokens and records the choice. */
  lemma ProgramTakesInit(st: State)
    requires Decls(st.args) == Declared && !st.args[INIT].isSet && !st.args[PSTONES].isSet
    requires 0 !in st.optionSet
    ensures Fits(Program, st)
    ensures Parsing.Pass(Program.groups, ["init", "pstones=500", "-v"], st, 0) ==
            Parsing.Step(Ok(2), ChoseInit(Valued(Marked(st, INIT), PSTONES, "500")))
  {
    InitStopsAtVerbose(st);
    InitChosen(["init", "pstones=500", "-v"], st, 2, Valued(Marked(st, INIT), PSTONES, "500"));
  }

  /** The program's group reads init's Unrecognized(1) as one token and records the choice. */
  lemma ProgramTakesBareInit(st: State)
    requires Decls(st.args) == Declared && !st.args[INIT].isSet && 0 !in st.optionSet
    ensures Fits(Program, st)
    ensures Parsing.Pass(Program.groups, ["init", "-v"], st, 0) == Parsing.Step(Ok(1), ChoseInit(Marked(st, INIT)))
  {
    InitStopsAtOnce(st);
    InitChosen(["init", "-v"], st, 1, Marked(st, INIT));
  }

  /** The program's sub-command `k` does not take `-v`. */
  lemma CommandDeclinesVerbose(st: State, k: nat)
    requires Decls(st.args) == Declared && k < |Program.groups[0].parsers|
    ensures FitsGroup(Program.groups[0], Decls(st.args))
    ensures Parsing.Declines(Program.groups[0], ["-v"], st, k)
  {
    ProgramFits();
    var cmd := Program.groups[0].parsers[k].cmd;
    DeclOf(st, cmd);
    if k == 1 {
      assert KeyPart("-v") == "-v";
    } else {
      FlagMatchesItsAliases(st.args[cmd], ["-v"]);
    }
  }

  /** No sub-command of the program takes `-v`. */
  lemma ProgramChildrenSkipVerbose(st: State)
    requires Decls(st.args) == Declared
    ensures FitsGroup(Program.groups[0], Decls(st.args))
    ensures Parsing.TryChildren(Program.groups[0], ["-v"], st, 0) == Parsing.Step(Ok(0), st)
  {
    ProgramFits();
    var G0 := Program.groups[0];
    forall k | 0 <= k < |G0.parsers|
      ensures Parsing.Declines(G0, ["-v"], st, k)
    {
      CommandDeclinesVerbose(st, k);
    }
    Parsing.NoChildTakes(G0, ["-v"], st);
  }

  /** The program's flag list hands `-v` to `--verbose`. */
  lemma VerboseTaken(st: State)
    requires Decls(st.args) == Declared && !st.args[VERBOSE].isSet
    ensures Parsing.IdsIn(Program.groups[0].keyAttrs, st)
    ensures Parsing.MatchFirst(Program.groups[0].keyAttrs, ["-v"], st, 0) == Parsing.Step(Ok(1), Marked(st, VERBOSE))
  {
    DeclOf(st, VERBOSE);
    FlagMatchesItsAliases(st.args[VERBOSE], ["-v"]);
    assert Parsing.MatchAt(st, VERBOSE, ["-v"]) == Parsing.Step(Ok(1), Marked(st, VERBOSE));
  }

  lemma ProgramTakesVerbose(st: State)
    requires Decls(st.args) == Declared && !st.args[VERBOSE].isSet
    ensures Fits(Program, st)
    ensures Parsing.Pass(Program.groups, ["-v"], st, 0) == Parsing.Step(Ok(1), Marked(st, VERBOSE))
  {
    ProgramFits();
    var G0 := Program.groups[0];
    ProgramChildrenSkipVerbose(st);
    Parsing.NoneTake([], ["-v"], st, 0);
    VerboseTaken(st);
    assert Parsing.GroupStep(G0, ["-v"], st) == Parsing.Step(Ok(1), Marked(st, VERBOSE));
  }

  /** The program's validation asks only for a chosen sub-command. */
  lemma ProgramValidated(st: State)
    requires Decls(st.args) == Declared
    ensures Fits(Program, st)
    ensures Validated(Program, st) <==> 0 in st.optionSet
  {
    ProgramFits();
    forall id | 0 <= id < |Declared| ensures id < |st.args| && st.args[id].decl == Declared[id] {
      DeclOf(st, id);
    }
    if 0 in st.optionSet {
      assert GroupValidated(Program.groups[0], st);
    } else {
      assert !GroupValidated(Program.groups[0], st);
    }
  }

  /** A last token `-v`, once a sub-command is chosen, ends the parse successfully. */
  lemma FinishWithVerbose(ts: seq<string>, n: nat, st: State)
    requires 0 < n && |ts| == n + 1 && ts[n] == "-v"
    requires Decls(st.args) == Declared && !st.args[VERBOSE].isSet && 0 in st.optionSet
    ensures Fits(Program, st)
    ensures Parsing.Consume(Program, ts, n, st) == Parsing.Step(Ok(n + 1), Marked(st, VERBOSE))
  {
    ProgramTakesVerbose(st);
    assert ts[n..] == ["-v"];
    Parsing.PassAdvances(Program, ts, n, st, 1, Marked(st, VERBOSE));
    ProgramValidated(Marked(st, VERBOSE));
  }

  /** The run of `prog init pstones=500 -v`, step by step. */
  lemma StonesRun(st: State)
    requires Clean(st)
    ensures Fits(Program, st)
    ensures Parsing.Parse(Program, ["prog", "init", "pstones=500", "-v"], st) ==
            Parsing.Step(Ok(4), Marked(ChoseInit(Valued(Marked(Marked(st, PROG), INIT), PSTONES, "500")), VERBOSE))
  {
    var ts := ["prog", "init", "pstones=500", "-v"];
    var s1 := Marked(st, PROG);
    var s4 := ChoseInit(Valued(Marked(s1, INIT), PSTONES, "500"));
    ProgStarts(ts, st);
    ProgramTakesInit(s1);
    assert ts[1..] == ["init", "pstones=500", "-v"];
    Parsing.PassAdvances(Program, ts, 1, s1, 2, s4);
    FinishWithVerbose(ts, 3, s4);
  }

  /**
   * `prog init pstones=500 -v`: init takes the key-value argument, stops at
   * `-v` with Unrecognized(2), and the program's own group takes the flag.
   */
  lemma InitWithStonesAndVerbose(st: State)
    requires Clean(st)
    ensures Fits(Program, st)
    ensures var r := Parsing.Parse(Program, ["prog", "init", "pstones=500", "-v"], st);
      r.outcome == Ok(4) && r.state.optionSet == map[0 := INIT] &&
      r.state.args[PSTONES].value == "500" && r.state.args[PSTONES].isSet &&
      r.state.args[VERBOSE].isSet && !r.state.args[PNAME].isSet
  {
    StonesRun(st);
    DeclOf(st, PNAME);
  }

  /** The run of `prog init -v`, step by step. */
  lemma BareInitRun(st: State)
    requires Clean(st)
    ensures Fits(Program, st)
    ensures Parsing.Parse(Program, ["prog", "init", "-v"], st) ==
            Parsing.Step(Ok(3), Marked(ChoseInit(Marked(Marked(st, PROG), INIT)), VERBOSE))
  {
    var ts := ["prog", "init", "-v"];
    var s1 := Marked(st, PROG);
    var s2 := ChoseInit(Marked(s1, INIT));
    ProgStarts(ts, st);
    ProgramTakesBareInit(s1);
    assert ts[1..] == ["init", "-v"];
    Parsing.PassAdvances(Program, ts, 1, s1, 1, s2);
    FinishWithVerbose(ts, 2, s2);
  }

  /**
   * `prog init -v` without the required `pstones`: init stops at `-v` with
   * Unrecognized(1), which its parent reads as one consumed token, so
   * init's own validation never runs and the parse succeeds with the
   * required argument unset.
   */
  lemma InitWithoutStones(st: State)
    requires Clean(st)
    ensures Fits(Program, st)
    ensures var r := Parsing.Parse(Program, ["prog", "init", "-v"], st);
      r.outcome == Ok(3) && r.state.optionSet == map[0 := INIT] &&
      r.state.args[VERBOSE].isSet &&
      r.state.args[PSTONES].decl.required && !r.state.args[PSTONES].isSet
  {
    BareInitRun(st);
    DeclOf(st, PSTONES);
    StonesRequired();
  }

  lemma StonesRequired()
    ensures Declared[PSTONES].required
  {
  }

  // ---------------------------------------------------------------------
  // The split spelling `pstones 500`

  /** `init pstones 500 -v`: init takes the key and its value, then stops at `-v` with Unrecognized(3). */
  lemma InitStopsAfterSplitStones(st: State)
    requires Decls(st.args) == Declared && !st.args[INIT].isSet && !st.args[PSTONES].isSet
    ensures Fits(InitCmd, st)
    ensures Parsing.Parse(InitCmd, ["init", "pstones", "500", "-v"], st) ==
            Parsing.Step(Err(Unrecognized(3)), Valued(Marked(st, INIT), PSTONES, "500"))
  {
    var ts := ["init", "pstones", "500", "-v"];
    var s2 := Marked(st, INIT);
    var s3 := Valued(s2, PSTONES, "500");
    InitStarts(ts, st);
    StonesTakeSplitValue(s2);
    InitTakesStones(s2, ["pstones", "500", "-v"], 2, s3);
    assert ts[1..] == ["pstones", "500", "-v"];
    Parsing.PassAdvances(InitCmd, ts, 1, s2, 2, s3);
    InitRejectsVerbose(s3);
    assert ts[3..] == ["-v"];
    Parsing.StalledPassIsUnrecognized(InitCmd, ts, 3, s3);
  }

  /** The run of `prog init pstones 500 -v`, step by step. */
  lemma SplitStonesRun(st: State)
    requires Clean(st)
    ensures Fits(Program, st)
    ensures Parsing.Parse(Program, ["prog", "init", "pstones", "500", "-v"], st) ==
            Parsing.Step(Ok(5), Marked(ChoseInit(Valued(Marked(Marked(st, PROG), INIT), PSTONES, "500")), VERBOSE))
  {
    var ts := ["prog", "init", "pstones", "500", "-v"];
    var s1 := Marked(st, PROG);
    var s3 := Valued(Marked(s1, INIT), PSTONES, "500");
    ProgStarts(ts, st);
    InitStopsAfterSplitStones(s1);
    assert ts[1..] == ["init", "pstones", "500", "-v"];
    InitChosen(ts[1..], s1, 3, s3);
    Parsing.PassAdvances(Program, ts, 1, s1, 3, ChoseInit(s3));
    FinishWithVerbose(ts, 4, ChoseInit(s3));
  }

  /**
   * `prog init pstones=500 -v` and `prog init pstones 500 -v` both succeed,
   * consuming every token, and leave the same state behind.
   */
  lemma StonesSpellingsAgree(st: State)
    requires Clean(st)
    ensures Fits(Program, st)
    ensures var r1 := Parsing.Parse(Program, ["prog", "init", "pstones=500", "-v"], st);
            var r2 := Parsing.Parse(Program, ["prog", "init", "pstones", "500", "-v"], st);
            r1.outcome == Ok(4) && r2.outcome == Ok(5) && r1.state == r2.state
  {
    StonesRun(st);
    SplitStonesRun(st);
  }

  // ---------------------------------------------------------------------
  // Lines that fail validation

  /**
   * `prog -v`: the flag is taken, but no sub-command is chosen, so the
   * program's validation fails with MissingArg.
   */
  lemma VerboseAloneMissesCommand(st: State)
    requires Clean(st)
    ensures Fits(Program, st)
    ensures Parsing.Parse(Program, ["prog", "-v"], st) ==
            Parsing.Step(Err(MissingArg), Marked(Marked(st, PROG), VERBOSE))
  {
    var ts := ["prog", "-v"];
    var s1 := Marked(st, PROG);
    var s2 := Marked(s1, VERBOSE);
    ProgStarts(ts, st);
    ProgramTakesVerbose(s1);
    assert ts[1..] == ["-v"];
    Parsing.PassAdvances(Program, ts, 1, s1, 1, s2);
    Parsing.EndOfLineValidates(Program, ts, s2);
    ProgramValidated(s2);
  }

  /** The discriminator `rename` starts the sub-command's loop at argNum 1. */
  lemma RenameStarts(ts: seq<string>, st: State)
    requires Decls(st.args) == Declared && !st.args[RENAME].isSet && |ts| > 0 && ts[0] == "rename"
    ensures Fits(RenameCmd, st)
    ensures Parsing.Parse(RenameCmd, ts, st) == Parsing.Consume(RenameCmd, ts, 1, Marked(st, RENAME))
  {
    RenameFits();
    DeclOf(st, RENAME);
    FlagMatchesItsAliases(st.args[RENAME], ts);
    Parsing.CommandStarts(RenameCmd, ts, st, 1, Marked(st, RENAME));
  }

  /** rename_options gives `a` to `old_name`, its first unset positional. */
  lemma RenameOptionsTakeOldName(st: State)
    requires Decls(st.args) == Declared && !st.args[OLD_NAME].isSet
    ensures FitsGroup(RenameOptions, Decls(st.args))
    ensures Parsing.GroupStep(RenameOptions, ["a"], st) == Parsing.Step(Ok(1), Valued(st, OLD_NAME, "a"))
  {
    RenameFits();
    assert FitsGroup(RenameCmd.groups[1], Declared);
    DeclOf(st, OLD_NAME);
    PositionalTakesOneTokenOnce(st.args[OLD_NAME], ["a"]);
    Parsing.MatchTakes(RenameOptions.valueAttrs, ["a"], st, 0);
    Parsing.NoneTake([], ["a"], st, 0);
    assert Parsing.TryChildren(RenameOptions, ["a"], st, 0) == Parsing.Step(Ok(0), st);
  }

  lemma RenameTakesOldName(st: State)
    requires Decls(st.args) == Declared && !st.args[OLD_NAME].isSet
    ensures Fits(RenameCmd, st)
    ensures Parsing.Pass(RenameCmd.groups, ["a"], st, 0) == Parsing.Step(Ok(1), Valued(st, OLD_NAME, "a"))
  {
    RenameFits();
    EmptyGroupIdle(5, ["a"], st);
    RenameOptionsTakeOldName(st);
    assert Parsing.Pass(RenameCmd.groups, ["a"], st, 1) == Parsing.Step(Ok(1), Valued(st, OLD_NAME, "a"));
  }

  /** rename's validation fails while the required `new_name` is unset. */
  lemma RenameUnvalidated(st: State)
    requires Decls(st.args) == Declared && !st.args[NEW_NAME].isSet
    ensures Fits(RenameCmd, st) && !Validated(RenameCmd, st)
  {
    RenameFits();
    DeclOf(st, NEW_NAME);
    assert !Done(st.args[RenameCmd.groups[1].valueAttrs[1]]);
    assert !GroupValidated(RenameCmd.groups[1], st);
  }

  /** `rename a`: `old_name` takes `a`, the line ends, and the required `new_name` is missing. */
  lemma RenameMissesNewName(st: State)
    requires Decls(st.args) == Declared
    requires !st.args[RENAME].isSet && !st.args[OLD_NAME].isSet && !st.args[NEW_NAME].isSet
    ensures Fits(RenameCmd, st)
    ensures Parsing.Parse(RenameCmd, ["rename", "a"], st) ==
            Parsing.Step(Err(MissingArg), Valued(Marked(st, RENAME), OLD_NAME, "a"))
  {
    var ts := ["rename", "a"];
    var s2 := Marked(st, RENAME);
    var s3 := Valued(s2, OLD_NAME, "a");
    RenameStarts(ts, st);
    RenameTakesOldName(s2);
    assert ts[1..] == ["a"];
    Parsing.PassAdvances(RenameCmd, ts, 1, s2, 1, s3);
    Parsing.EndOfLineValidates(RenameCmd, ts, s3);
    RenameUnvalidated(s3);
  }

  /** The program's sub-command `init` does not take `rename`. */
  lemma InitDeclinesRename(st: State)
    requires Decls(st.args) == Declared
    ensures FitsGroup(Program.groups[0], Decls(st.args))
    ensures Parsing.Declines(Program.groups[0], ["rename", "a"], st, 0)
  {
    ProgramFits();
    DeclOf(st, INIT);
    FlagMatchesItsAliases(st.args[INIT], ["rename", "a"]);
  }

  /** The program's sub-command `employ` does not take `rename`: its key part is `rename`. */
  lemma EmployDeclinesRename(st: State)
    requires Decls(st.args) == Declared
    ensures FitsGroup(Program.groups[0], Decls(st.args))
    ensures Parsing.Declines(Program.groups[0], ["rename", "a"], st, 1)
  {
    ProgramFits();
    DeclOf(st, EMPLOY);
    RenameKey();
  }

  lemma RenameKey()
    ensures KeyPart("rename") == "rename"
  {
    assert IndexOf("rename", '=') == None;
  }

  /** `init` and `employ` decline `rename`, handing it on to the third child. */
  lemma FirstChildrenDeclineRename(st: State)
    requires Decls(st.args) == Declared
    ensures FitsGroup(Program.groups[0], Decls(st.args))
    ensures Parsing.TryChildren(Program.groups[0], ["rename", "a"], st, 0) ==
            Parsing.TryChildren(Program.groups[0], ["rename", "a"], st, 2)
  {
    InitDeclinesRename(st);
    EmployDeclinesRename(st);
    Parsing.ChildSkipped(Program.groups[0], ["rename", "a"], st, 0);
    Parsing.ChildSkipped(Program.groups[0], ["rename", "a"], st, 1);
  }

  /** The program's child loop lets the MissingArg thrown by `rename` through. */
  lemma ProgramChildrenFailOnRename(st: State)
    requires Decls(st.args) == Declared
    requires !st.args[RENAME].isSet && !st.args[OLD_NAME].isSet && !st.args[NEW_NAME].isSet
    ensures FitsGroup(Program.groups[0], Decls(st.args))
    ensures Parsing.TryChildren(Program.groups[0], ["rename", "a"], st, 0) ==
            Parsing.Step(Err(MissingArg), Valued(Marked(st, RENAME), OLD_NAME, "a"))
  {
    FirstChildrenDeclineRename(st);
    RenameMissesNewName(st);
    RenameErrorPropagates(st, Valued(Marked(st, RENAME), OLD_NAME, "a"));
  }

  lemma RenameIsThirdChild()
    ensures Program.groups[0].parsers[2] == RenameCmd
  {
  }

  /** Whatever MissingArg `rename` throws leaves the program's child loop unchanged. */
  lemma RenameErrorPropagates(st: State, st1: State)
    requires Decls(st.args) == Declared && Fits(RenameCmd, st)
    requires Parsing.Parse(RenameCmd, ["rename", "a"], st) == Parsing.Step(Err(MissingArg), st1)
    ensures FitsGroup(Program.groups[0], Decls(st.args))
    ensures Parsing.TryChildren(Program.groups[0], ["rename", "a"], st, 2) == Parsing.Step(Err(MissingArg), st1)
  {
    ProgramFits();
    RenameIsThirdChild();
    Parsing.ChildErrorPropagates(Program.groups[0], ["rename", "a"], st, 2);
  }

  /** The error that `rename` throws from its validation is not caught by the program's group. */
  lemma ProgramPassFailsOnRename(st: State)
    requires Decls(st.args) == Declared
    requires !st.args[RENAME].isSet && !st.args[OLD_NAME].isSet && !st.args[NEW_NAME].isSet
    ensures Fits(Program, st)
    ensures Parsing.Pass(Program.groups, ["rename", "a"], st, 0) ==
            Parsing.Step(Err(MissingArg), Valued(Marked(st, RENAME), OLD_NAME, "a"))
  {
    ProgramFits();
    ProgramChildrenFailOnRename(st);
    Parsing.ChildrenDecide(Program.groups[0], ["rename", "a"], st);
    Parsing.GroupDecides(Program.groups, ["rename", "a"], st, 0);
  }

  /**
   * `prog rename a`: the sub-command consumes the rest of the line, and its
   * own validation fails with MissingArg because `new_name` is unset; the
   * error ends the whole parse.
   */
  lemma RenameWithoutNewName(st: State)
    requires Clean(st)
    ensures Fits(Program, st)
    ensures Parsing.Parse(Program, ["prog", "rename", "a"], st) ==
            Parsing.Step(Err(MissingArg), Valued(Marked(Marked(st, PROG), RENAME), OLD_NAME, "a"))
  {
    var ts := ["prog", "rename", "a"];
    var s1 := Marked(st, PROG);
    ProgStarts(ts, st);
    ProgramPassFailsOnRename(s1);
    assert ts[1..] == ["rename", "a"];
    Parsing.FailedPassEndsParse(Program, ts, 1, s1);
  }
}
