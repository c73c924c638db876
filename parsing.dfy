// Parser::parse as a specification: the discriminator match, the consuming
// loop with its fixed dispatch priority (child commands, key-value
// arguments, flags, glued flags, positionals), the catch that turns a
// child's Unrecognized(k) into k consumed tokens, and the validation pass.
// Every function returns the outcome together with the state afterwards,
// because the source leaves its in-place updates behind when it throws.
module Parsing {
  import opened Args
  import opened Tree

  /** A parsing step's outcome and the state it leaves behind. */
  datatype Step = Step(outcome: Outcome, state: State)

  /** A marking step's status (the glue loops) and the state it leaves behind. */
  datatype Applied = Applied(status: Status, state: State)

  /** Arg::match on argument object `id`, written back into the state. */
  function MatchAt(st: State, id: ArgId, ts: seq<string>): (r: Step)
    requires id < |st.args| && |ts| > 0
    ensures Evolves(st, r.state) && r.state.optionSet == st.optionSet
    ensures forall j :: 0 <= j < |st.args| && j != id ==> r.state.args[j] == st.args[j]
    ensures r.state.args[id] == Match(st.args[id], ts).arg && r.outcome == Match(st.args[id], ts).outcome
    ensures r.outcome == Ok(0) ==> r.state == st
    ensures r.outcome.Ok? ==> r.outcome.consumed <= |ts|
    ensures r.outcome.Ok? && r.outcome.consumed > 0 ==> r.state.args[id].isSet
    ensures r.outcome.Err? ==> !r.outcome.error.Unrecognized?
  {
    var Matched(o, a) := Match(st.args[id], ts);
    assert o == Ok(0) ==> st.args[id := a] == st.args;
    Step(o, WithArg(st, id, a))
  }

  predicate IdsIn(ids: seq<ArgId>, st: State) {
    forall k :: 0 <= k < |ids| ==> ids[k] < |st.args|
  }

  /**
   * The attribute loops: offer the token to each argument of `ids` from
   * index `i` on, stopping at the first that consumes or throws.
   */
  function MatchFirst(ids: seq<ArgId>, ts: seq<string>, st: State, i: nat): (r: Step)
    requires i <= |ids| && |ts| > 0 && IdsIn(ids, st)
    ensures Evolves(st, r.state) && r.state.optionSet == st.optionSet
    ensures r.outcome == Ok(0) ==> r.state == st
    ensures r.outcome.Ok? ==> r.outcome.consumed <= |ts|
    ensures r.outcome.Err? ==> !r.outcome.error.Unrecognized?
    decreases |ids| - i
  {
    if i == |ids| then Step(Ok(0), st)
    else
      var Step(o, st1) := MatchAt(st, ids[i], ts);
      if o.Err? || o.consumed != 0 then Step(o, st1)
      else MatchFirst(ids, ts, st1, i + 1)
  }

  /** The one-character token `-c` that gluing feeds to each flag. */
  function GlueToken(c: char): string {
    [GLUE_CHAR, c]
  }

  /** The innermost glue loop: offer `-c` to every flag of `keys` from index `j` on. */
  function GlueChar(keys: seq<ArgId>, c: char, st: State, j: nat): (r: Applied)
    requires j <= |keys| && KeysIn(keys, Decls(st.args))
    ensures Evolves(st, r.state) && r.state.optionSet == st.optionSet
    ensures r.status.Failure? ==> r.status.error == AlreadySet
    decreases |keys| - j
  {
    if j == |keys| then Applied(Success, st)
    else
      var Step(o, st1) := MatchAt(st, keys[j], [GlueToken(c)]);
      if o.Err? then Applied(Failure(o.error), st1) else GlueChar(keys, c, st1, j + 1)
  }

  /** The outer glue loop: every character of `t` from index `i` on, in order. */
  function ApplyGlue(keys: seq<ArgId>, t: string, st: State, i: nat): (r: Applied)
    requires i <= |t| && KeysIn(keys, Decls(st.args))
    ensures Evolves(st, r.state) && r.state.optionSet == st.optionSet
    ensures r.status.Failure? ==> r.status.error == AlreadySet
    decreases |t| - i
  {
    if i == |t| then Applied(Success, st)
    else
      var Applied(s, st1) := GlueChar(keys, t[i], st, 0);
      if s.Failure? then Applied(s, st1) else ApplyGlue(keys, t, st1, i + 1)
  }

  /** Parser::parse on `tokens` (argv of length argc, at least one token). */
  function Parse(p: Parser, tokens: seq<string>, st: State): (r: Step)
    requires |tokens| > 0 && Fits(p, st)
    ensures Evolves(st, r.state)
    ensures r.outcome.Ok? ==> r.outcome.consumed == |tokens| && Validated(p, r.state) && r.state.args[p.cmd].isSet
    ensures r.outcome.Err? && r.outcome.error.Unrecognized? ==> r.outcome.error.index < |tokens|
    decreases |tokens|, 3, 0
  {
    var Step(o, st1) := MatchAt(st, p.cmd, tokens);
    if o.Err? then Step(o, st1)
    else if o.consumed == 0 then Step(Err(Unrecognized(0)), st1)
    else Consume(p, tokens, o.consumed, st1)
  }

  /**
   * The `while (argNum < argc)` loop from a given argNum, followed by the
   * validation pass once every token is consumed.
   */
  function Consume(p: Parser, tokens: seq<string>, argNum: nat, st: State): (r: Step)
    requires 0 < argNum <= |tokens| && Fits(p, st)
    ensures Evolves(st, r.state)
    ensures r.outcome.Ok? ==> r.outcome.consumed == |tokens| && Validated(p, r.state)
    ensures r.outcome.Err? && r.outcome.error.Unrecognized? ==> argNum <= r.outcome.error.index < |tokens|
    ensures argNum == |tokens| ==> r.state == st
    decreases |tokens|, 2, |tokens| - argNum
  {
    if argNum == |tokens| then
      Step(if Validated(p, st) then Ok(argNum) else Err(MissingArg), st)
    else
      var Step(o, st1) := Pass(p.groups, tokens[argNum..], st, 0);
      if o.Err? then Step(o, st1)
      else if o.consumed == 0 then Step(Err(Unrecognized(argNum)), st1)
      else Consume(p, tokens, argNum + o.consumed, st1)
  }

  /** One pass over the groups from index `gi` on: the first group that advances wins. */
  function Pass(groups: seq<Group>, ts: seq<string>, st: State, gi: nat): (r: Step)
    requires |ts| > 0 && gi <= |groups| && FitsGroups(groups, st)
    ensures Evolves(st, r.state)
    ensures r.outcome.Ok? ==> r.outcome.consumed <= |ts|
    ensures r.outcome.Err? ==> !r.outcome.error.Unrecognized?
    decreases |ts|, 6, |groups| - gi
  {
    if gi == |groups| then Step(Ok(0), st)
    else
      var Step(o, st1) := GroupStep(groups[gi], ts, st);
      if o.Err? || o.consumed != 0 then Step(o, st1)
      else Pass(groups, ts, st1, gi + 1)
  }

  /** The dispatch of the current token `ts[0]` within one group, in priority order. */
  function GroupStep(g: Group, ts: seq<string>, st: State): (r: Step)
    requires |ts| > 0 && FitsGroup(g, Decls(st.args))
    ensures Evolves(st, r.state)
    ensures r.outcome.Ok? ==> r.outcome.consumed <= |ts|
    ensures r.outcome.Err? ==> !r.outcome.error.Unrecognized?
    decreases |ts|, 5, 0
  {
    var Step(o1, st1) := TryChildren(g, ts, st, 0);
    if o1.Err? || o1.consumed != 0 then Step(o1, st1)
    else
      var Step(o2, st2) := MatchFirst(g.keyValueAttrs, ts, st1, 0);
      if o2.Err? || o2.consumed != 0 then Step(o2, st2)
      else
        var Step(o3, st3) := MatchFirst(g.keyAttrs, ts, st2, 0);
        if o3.Err? || o3.consumed != 0 then Step(o3, st3)
        else if GluedKeyArgs(Decls(st3.args), g.keyAttrs, ts[0]) then
          var Applied(s4, st4) := ApplyGlue(g.keyAttrs, ts[0], st3, 1);
          Step(Lift(s4, 1), st4)
        else if !StartsWithGlue(ts[0]) then
          MatchFirst(g.valueAttrs, ts, st3, 0)
        else
          Step(Ok(0), st3)
  }

  /**
   * The child-command loop from index `ci` on. A child's Unrecognized(k) is
   * caught and read as k consumed tokens; an optional child that advances
   * takes the group's selection slot, or fails with ExcessiveCmd when the
   * slot is already taken.
   */
  function TryChildren(g: Group, ts: seq<string>, st: State, ci: nat): (r: Step)
    requires |ts| > 0 && ci <= |g.parsers| && FitsGroup(g, Decls(st.args))
    ensures Evolves(st, r.state)
    ensures r.outcome.Ok? ==> r.outcome.consumed <= |ts|
    ensures r.outcome.Err? ==> !r.outcome.error.Unrecognized?
    decreases |ts|, 4, |g.parsers| - ci
  {
    if ci == |g.parsers| then Step(Ok(0), st)
    else
      var child := g.parsers[ci];
      var Step(o, st1) := Parse(child, ts, st);
      if o.Err? && !o.error.Unrecognized? then Step(o, st1)
      else
        var advance := if o.Ok? then o.consumed else o.error.index;
        if advance == 0 then TryChildren(g, ts, st1, ci + 1)
        else if st1.args[child.cmd].decl.required then Step(Ok(advance), st1)
        else if g.id in st1.optionSet then Step(Err(ExcessiveCmd), st1)
        else Step(Ok(advance), st1.(optionSet := st1.optionSet[g.id := child.cmd]))
  }

  // ---------------------------------------------------------------------
  // Properties of the engine

  /** `ids[k]` is the first positional argument from index `i` on that is still unset. */
  predicate FirstUnset(ids: seq<ArgId>, st: State, i: nat, k: int)
    requires IdsIn(ids, st)
  {
    i <= k < |ids| && !st.args[ids[k]].isSet && forall m :: i <= m < k ==> st.args[ids[m]].isSet
  }

  /**
   * The positional loop: the token goes to the first positional argument
   * that is still unset, and to no other; when every positional is set the
   * token is not taken.
   */
  lemma {:induction false} FirstUnsetPositionalWins(ids: seq<ArgId>, ts: seq<string>, st: State, i: nat)
    requires i <= |ids| && |ts| > 0 && IdsIn(ids, st)
    requires forall k :: 0 <= k < |ids| ==> st.args[ids[k]].decl.ValueDecl?
    ensures (forall k :: i <= k < |ids| ==> st.args[ids[k]].isSet) ==>
              MatchFirst(ids, ts, st, i) == Step(Ok(0), st)
    ensures forall k :: FirstUnset(ids, st, i, k) ==>
              MatchFirst(ids, ts, st, i) ==
                Step(Ok(1), st.(args := st.args[ids[k] := st.args[ids[k]].(value := ts[0], isSet := true)]))
    decreases |ids| - i
  {
    if i < |ids| {
      var a := st.args[ids[i]];
      PositionalTakesOneTokenOnce(a, ts);
      if a.isSet {
        assert MatchAt(st, ids[i], ts) == Step(Ok(0), st);
        FirstUnsetPositionalWins(ids, ts, st, i + 1);
      } else {
        var r := Step(Ok(1), st.(args := st.args[ids[i] := a.(value := ts[0], isSet := true)]));
        assert MatchAt(st, ids[i], ts) == r;
        assert MatchFirst(ids, ts, st, i) == r;
        forall k | FirstUnset(ids, st, i, k)
          ensures k == i
        {
        }
      }
    }
  }

  /** An argument that leaves the token alone passes it to the next one of the list. */
  lemma MatchSkips(ids: seq<ArgId>, ts: seq<string>, st: State, i: nat)
    requires i < |ids| && |ts| > 0 && IdsIn(ids, st)
    requires MatchAt(st, ids[i], ts).outcome == Ok(0)
    ensures MatchFirst(ids, ts, st, i) == MatchFirst(ids, ts, st, i + 1)
  {
  }

  /** The first argument of the list that consumes or throws decides the loop. */
  lemma MatchTakes(ids: seq<ArgId>, ts: seq<string>, st: State, i: nat)
    requires i < |ids| && |ts| > 0 && IdsIn(ids, st)
    requires MatchAt(st, ids[i], ts).outcome != Ok(0)
    ensures MatchFirst(ids, ts, st, i) == MatchAt(st, ids[i], ts)
  {
  }

  /** An attribute loop in which no argument takes the token. */
  lemma {:induction false} NoneTake(ids: seq<ArgId>, ts: seq<string>, st: State, i: nat)
    requires i <= |ids| && |ts| > 0 && IdsIn(ids, st)
    requires forall k :: i <= k < |ids| ==> Match(st.args[ids[k]], ts).outcome == Ok(0)
    ensures MatchFirst(ids, ts, st, i) == Step(Ok(0), st)
    decreases |ids| - i
  {
    if i < |ids| {
      NoneTake(ids, ts, st, i + 1);
    }
  }

  /** The command of child `ci` of `g` does not take the current token. */
  predicate Declines(g: Group, ts: seq<string>, st: State, ci: nat)
    requires |ts| > 0 && ci < |g.parsers| && FitsGroup(g, Decls(st.args))
  {
    Match(st.args[g.parsers[ci].cmd], ts).outcome == Ok(0)
  }

  /** When no child command takes the token, the child loop takes nothing and changes nothing. */
  lemma NoChildTakes(g: Group, ts: seq<string>, st: State)
    requires |ts| > 0 && FitsGroup(g, Decls(st.args))
    requires forall k :: 0 <= k < |g.parsers| ==> Declines(g, ts, st, k)
    ensures TryChildren(g, ts, st, 0) == Step(Ok(0), st)
  {
    var k := |g.parsers|;
    while k > 0
      invariant 0 <= k <= |g.parsers|
      invariant TryChildren(g, ts, st, k) == Step(Ok(0), st)
    {
      k := k - 1;
      ChildSkipped(g, ts, st, k);
    }
  }

  /** A child whose command does not take the token passes it on, with the state untouched. */
  lemma ChildSkipped(g: Group, ts: seq<string>, st: State, ci: nat)
    requires |ts| > 0 && ci < |g.parsers| && FitsGroup(g, Decls(st.args))
    requires Declines(g, ts, st, ci)
    ensures TryChildren(g, ts, st, ci) == TryChildren(g, ts, st, ci + 1)
  {
    UnmatchedCommand(g.parsers[ci], ts, st);
  }

  /** The flag `id` occurs in `keys` from index `j` on and has the alias `-c`. */
  predicate Hit(ds: seq<Decl>, keys: seq<ArgId>, c: char, j: nat, id: ArgId) {
    exists k :: j <= k < |keys| && keys[k] == id && id < |ds| && Answers(ds[id], c)
  }

  /** A flag declaration that has `-c` among its aliases. */
  predicate Answers(d: Decl, c: char) {
    d.KeyDecl? && GlueToken(c) in d.aliases
  }

  /** Some character of `t` from index `i` on hits the flag `id`. */
  predicate GlueHit(ds: seq<Decl>, keys: seq<ArgId>, t: string, i: nat, id: ArgId) {
    exists m :: i <= m < |t| && Hit(ds, keys, t[m], 0, id)
  }

  /**
   * Offering `-c` to the flags sets exactly the flags that have `-c` as an
   * alias and leaves every other argument as it was.
   */
  lemma {:induction false} GlueCharEffect(keys: seq<ArgId>, c: char, st: State, j: nat)
    requires j <= |keys| && KeysIn(keys, Decls(st.args))
    ensures var r := GlueChar(keys, c, st, j);
      r.status.Success? ==>
        |r.state.args| == |st.args| &&
        forall id :: 0 <= id < |st.args| ==>
          r.state.args[id] == (if Hit(Decls(st.args), keys, c, j, id) then st.args[id].(isSet := true) else st.args[id])
    decreases |keys| - j
  {
    if j < |keys| {
      var ds := Decls(st.args);
      var Step(o, st1) := MatchAt(st, keys[j], [GlueToken(c)]);
      FlagMatchesItsAliases(st.args[keys[j]], [GlueToken(c)]);
      if o.Ok? {
        GlueCharEffect(keys, c, st1, j + 1);
        forall id | 0 <= id < |st.args|
          ensures Hit(ds, keys, c, j, id) <==> (id == keys[j] && Answers(ds[id], c)) || Hit(ds, keys, c, j + 1, id)
        {
          HitStep(ds, keys, c, j, id);
        }
      }
    }
  }

  /** A hit from flag `j` on is a hit at flag `j` or a hit from flag `j + 1` on. */
  lemma HitStep(ds: seq<Decl>, keys: seq<ArgId>, c: char, j: nat, id: ArgId)
    requires j < |keys| && id < |ds|
    ensures Hit(ds, keys, c, j, id) <==> (id == keys[j] && Answers(ds[id], c)) || Hit(ds, keys, c, j + 1, id)
  {
    if Hit(ds, keys, c, j, id) {
      var k :| j <= k < |keys| && keys[k] == id && id < |ds| && Answers(ds[id], c);
      if k > j {
        assert Hit(ds, keys, c, j + 1, id);
      }
    }
    if id == keys[j] && Answers(ds[id], c) {
      assert j <= j < |keys| && keys[j] == id;
    }
  }

  /**
   * The glue branch: feeding the characters of `t` from index `i` on sets
   * exactly the flags hit by one of them; nothing else changes.
   */
  lemma {:induction false} ApplyGlueEffect(keys: seq<ArgId>, t: string, st: State, i: nat)
    requires i <= |t| && KeysIn(keys, Decls(st.args))
    ensures var r := ApplyGlue(keys, t, st, i);
      r.status.Success? ==>
        |r.state.args| == |st.args| &&
        forall id :: 0 <= id < |st.args| ==>
          r.state.args[id] == (if GlueHit(Decls(st.args), keys, t, i, id) then st.args[id].(isSet := true) else st.args[id])
    decreases |t| - i
  {
    if i < |t| {
      var ds := Decls(st.args);
      var Applied(s, st1) := GlueChar(keys, t[i], st, 0);
      GlueCharEffect(keys, t[i], st, 0);
      if s.Success? {
        ApplyGlueEffect(keys, t, st1, i + 1);
        forall id | 0 <= id < |st.args|
          ensures GlueHit(ds, keys, t, i, id) <==> Hit(ds, keys, t[i], 0, id) || GlueHit(ds, keys, t, i + 1, id)
        {
          if GlueHit(ds, keys, t, i, id) {
            var m :| i <= m < |t| && Hit(ds, keys, t[m], 0, id);
            if m > i {
              assert GlueHit(ds, keys, t, i + 1, id);
            }
          }
        }
      }
    }
  }

  /**
   * A flag whose glue character occurs in a glued token is set once the
   * token has been applied: addAlias recorded it from an alias `-c`, and
   * that alias matches the `-c` the glue branch feeds it.
   */
  lemma GluedFlagIsSet(keys: seq<ArgId>, t: string, st: State, k: nat, m: nat)
    requires KeysIn(keys, Decls(st.args)) && k < |keys| && 1 <= m < |t|
    requires GlueConsistent(st.args[keys[k]].decl)
    requires t[m] == st.args[keys[k]].decl.gluableChar != NO_GLUE
    requires ApplyGlue(keys, t, st, 1).status.Success?
    ensures ApplyGlue(keys, t, st, 1).state.args[keys[k]].isSet
  {
    var ds := Decls(st.args);
    var id := keys[k];
    GlueCharHasAlias(ds[id].aliases);
    assert Hit(ds, keys, t[m], 0, id);
    assert GlueHit(ds, keys, t, 1, id);
    ApplyGlueEffect(keys, t, st, 1);
  }

  /** The discriminator decides: Unrecognized(0) exactly when the command argument does not take the first token. */
  lemma UnmatchedCommand(p: Parser, tokens: seq<string>, st: State)
    requires |tokens| > 0 && Fits(p, st)
    ensures Parse(p, tokens, st).outcome == Err(Unrecognized(0)) <==> Match(st.args[p.cmd], tokens).outcome == Ok(0)
    ensures Match(st.args[p.cmd], tokens).outcome == Ok(0) ==> Parse(p, tokens, st).state == st
  {
  }

  /** When the discriminator takes `k > 0` tokens, the loop starts at argNum `k` on the state it left. */
  lemma CommandStarts(p: Parser, tokens: seq<string>, st: State, k: nat, st1: State)
    requires |tokens| > 0 && Fits(p, st)
    requires MatchAt(st, p.cmd, tokens) == Step(Ok(k), st1) && k > 0
    ensures k <= |tokens| && Fits(p, st1)
    ensures Parse(p, tokens, st) == Consume(p, tokens, k, st1)
  {
  }

  /** A pass that takes `k > 0` tokens advances argNum by `k`. */
  lemma PassAdvances(p: Parser, tokens: seq<string>, argNum: nat, st: State, k: nat, st1: State)
    requires 0 < argNum < |tokens| && Fits(p, st)
    requires Pass(p.groups, tokens[argNum..], st, 0) == Step(Ok(k), st1) && k > 0
    ensures argNum + k <= |tokens| && Fits(p, st1)
    ensures Consume(p, tokens, argNum, st) == Consume(p, tokens, argNum + k, st1)
  {
    var Step(o, st2) := Pass(p.groups, tokens[argNum..], st, 0);
    assert o == Ok(k) && st2 == st1;
  }

  /** A loop pass in which no group takes the current token ends the parse with Unrecognized(argNum). */
  lemma StalledPassIsUnrecognized(p: Parser, tokens: seq<string>, argNum: nat, st: State)
    requires 0 < argNum < |tokens| && Fits(p, st)
    requires Pass(p.groups, tokens[argNum..], st, 0).outcome == Ok(0)
    ensures Consume(p, tokens, argNum, st) == Step(Err(Unrecognized(argNum)), Pass(p.groups, tokens[argNum..], st, 0).state)
  {
  }

  /** A loop pass that throws ends the parse with that error and the state it left. */
  lemma FailedPassEndsParse(p: Parser, tokens: seq<string>, argNum: nat, st: State)
    requires 0 < argNum < |tokens| && Fits(p, st)
    requires Pass(p.groups, tokens[argNum..], st, 0).outcome.Err?
    ensures Consume(p, tokens, argNum, st) == Pass(p.groups, tokens[argNum..], st, 0)
  {
  }

  /**
   * Once every token is consumed the validation pass decides: the parse
   * fails with MissingArg exactly when some group lacks its required choice
   * or a required member, succeeds exactly when every group is validated,
   * and leaves the state as it was.
   */
  lemma EndOfLineValidates(p: Parser, tokens: seq<string>, st: State)
    requires |tokens| > 0 && Fits(p, st)
    ensures var r := Consume(p, tokens, |tokens|, st);
      && r.state == st
      && (r.outcome == Err(MissingArg) <==> !Validated(p, st))
      && (r.outcome.Ok? <==> Validated(p, st))
  {
  }

  /**
   * A child command that throws Unrecognized(k) with k > 0 after taking its
   * first k tokens counts as having consumed them: the parent goes on at
   * the unrecognised token, and the child's own validation never ran.
   */
  lemma ChildStopCountsAsConsumed(g: Group, ts: seq<string>, st: State, ci: nat, k: nat)
    requires |ts| > 0 && ci < |g.parsers| && FitsGroup(g, Decls(st.args))
    requires Parse(g.parsers[ci], ts, st).outcome == Err(Unrecognized(k)) && k > 0
    ensures var st1 := Parse(g.parsers[ci], ts, st).state;
      TryChildren(g, ts, st, ci) ==
        if st1.args[g.parsers[ci].cmd].decl.required then Step(Ok(k), st1)
        else if g.id in st1.optionSet then Step(Err(ExcessiveCmd), st1)
        else Step(Ok(k), st1.(optionSet := st1.optionSet[g.id := g.parsers[ci].cmd]))
  {
  }

  /** Any error of a child other than Unrecognized is not caught: it ends the child loop as it is. */
  lemma ChildErrorPropagates(g: Group, ts: seq<string>, st: State, ci: nat)
    requires |ts| > 0 && ci < |g.parsers| && FitsGroup(g, Decls(st.args))
    requires Parse(g.parsers[ci], ts, st).outcome.Err? && !Parse(g.parsers[ci], ts, st).outcome.error.Unrecognized?
    ensures TryChildren(g, ts, st, ci) == Parse(g.parsers[ci], ts, st)
  {
  }

  /** An optional child that stops at Unrecognized(k) takes the free selection slot and k tokens. */
  lemma OptionalChildStops(g: Group, ts: seq<string>, st: State, ci: nat, k: nat, st1: State)
    requires |ts| > 0 && ci < |g.parsers| && FitsGroup(g, Decls(st.args))
    requires Parse(g.parsers[ci], ts, st) == Step(Err(Unrecognized(k)), st1) && k > 0
    requires !st1.args[g.parsers[ci].cmd].decl.required && g.id !in st1.optionSet
    ensures TryChildren(g, ts, st, ci) == Step(Ok(k), st1.(optionSet := st1.optionSet[g.id := g.parsers[ci].cmd]))
  {
    ChildStopCountsAsConsumed(g, ts, st, ci, k);
  }

  /** A child loop that advances or fails decides its group's step. */
  lemma ChildrenDecide(g: Group, ts: seq<string>, st: State)
    requires |ts| > 0 && FitsGroup(g, Decls(st.args))
    requires TryChildren(g, ts, st, 0).outcome != Ok(0)
    ensures GroupStep(g, ts, st) == TryChildren(g, ts, st, 0)
  {
  }

  /** The first group whose step advances or fails decides the pass. */
  lemma GroupDecides(groups: seq<Group>, ts: seq<string>, st: State, gi: nat)
    requires |ts| > 0 && gi < |groups| && FitsGroups(groups, st)
    requires GroupStep(groups[gi], ts, st).outcome != Ok(0)
    ensures Pass(groups, ts, st, gi) == GroupStep(groups[gi], ts, st)
  {
  }

  /**
   * Mutual exclusion of optional sub-commands: once a group's selection
   * slot is taken, a second optional child that advances raises
   * ExcessiveCmd, and a first one takes the slot with its own command.
   */
  lemma OptionalChildSelects(g: Group, ts: seq<string>, st: State, ci: nat)
    requires |ts| > 0 && ci < |g.parsers| && FitsGroup(g, Decls(st.args))
    requires !st.args[g.parsers[ci].cmd].decl.required
    requires Parse(g.parsers[ci], ts, st).outcome.Ok?
    ensures var st1 := Parse(g.parsers[ci], ts, st).state;
      && (g.id in st.optionSet ==> TryChildren(g, ts, st, ci).outcome == Err(ExcessiveCmd))
      && (g.id !in st1.optionSet ==>
            TryChildren(g, ts, st, ci) == Step(Ok(|ts|), st1.(optionSet := st1.optionSet[g.id := g.parsers[ci].cmd])))
  {
    var child := g.parsers[ci];
    var st1 := Parse(child, ts, st).state;
    assert Decls(st1.args)[child.cmd] == Decls(st.args)[child.cmd];
  }
}
