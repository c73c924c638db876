// The argument objects as mutable state, and the parsing engine as the
// loops that update it. Every method is proved to leave the outcome and
// the state that the specification functions of module Parsing describe.
module Engine {
  import opened Args
  import opened Tree
  import Parsing

  /**
   * The argument objects a command tree points to (indexed by ArgId) and
   * the m_optionSet slot of every group (keyed by GroupId).
   */
  class Registry {
    var args: seq<Arg>
    var optionSet: map<GroupId, ArgId>

    function State(): State
      reads this
    {
      Tree.State(args, optionSet)
    }

    constructor()
      ensures args == [] && optionSet == map[]
    {
      args := [];
      optionSet := map[];
    }

    /** Construct a KeyArg; its id is its position. */
    method AddKeyArg(name: string, help: string) returns (id: ArgId)
      modifies this
      ensures id == |old(args)| && args == old(args) + [NewKeyArg(name, help)] && optionSet == old(optionSet)
      ensures !args[id].isSet && !args[id].decl.required && args[id].decl.aliases == [name]
    {
      id := |args|;
      args := args + [NewKeyArg(name, help)];
    }

    /** Construct a ValueArg; its id is its position. */
    method AddValueArg(valueName: string, help: string) returns (id: ArgId)
      modifies this
      ensures id == |old(args)| && args == old(args) + [NewValueArg(valueName, help)] && optionSet == old(optionSet)
      ensures !args[id].isSet && !args[id].decl.required && args[id].value == ""
    {
      id := |args|;
      args := args + [NewValueArg(valueName, help)];
    }

    /** Construct a KeyValueArg; its id is its position. */
    method AddKeyValueArg(name: string, valueName: string, help: string) returns (id: ArgId)
      modifies this
      ensures id == |old(args)| && args == old(args) + [NewKeyValueArg(name, valueName, help)]
      ensures optionSet == old(optionSet)
      ensures !args[id].isSet && !args[id].decl.required && args[id].value == "" && args[id].decl.aliases == [name]
    {
      id := |args|;
      args := args + [NewKeyValueArg(name, valueName, help)];
    }

    /** KeyArg::addAlias and KeyValueArg::addAlias on object `id`. */
    method AddAlias(id: ArgId, alias: string)
      requires id < |args| && !args[id].decl.ValueDecl?
      modifies this
      ensures args == old(args)[id := old(args[id]).(decl := WithAlias(old(args[id].decl), alias))]
      ensures optionSet == old(optionSet)
      ensures GlueConsistent(old(args[id].decl)) ==> GlueConsistent(args[id].decl)
    {
      args := args[id := args[id].(decl := WithAlias(args[id].decl, alias))];
    }

    /** Arg::markSet on object `id`. */
    method MarkSet(id: ArgId) returns (s: Status)
      requires id < |args|
      modifies this
      ensures |args| == |old(args)| && Update(s, args[id]) == Args.MarkSet(old(args[id]))
      ensures args == old(args)[id := args[id]] && optionSet == old(optionSet)
    {
      if args[id].isSet {
        return Failure(AlreadySet);
      }
      args := args[id := args[id].(isSet := true)];
      s := Success;
    }

    /** ValueArg::setValue and KeyValueArg::setValue: store, then mark. */
    method SetValue(id: ArgId, v: string) returns (s: Status)
      requires id < |args|
      modifies this
      ensures |args| == |old(args)| && Update(s, args[id]) == Args.SetValue(old(args[id]), v)
      ensures args == old(args)[id := args[id]] && optionSet == old(optionSet)
    {
      args := args[id := args[id].(value := v)];
      s := MarkSet(id);
    }

    /** Arg::match of object `id` on the remaining tokens. */
    method MatchArg(id: ArgId, ts: seq<string>) returns (o: Outcome)
      requires id < |args| && |ts| > 0
      modifies this
      ensures Parsing.Step(o, State()) == Parsing.MatchAt(old(State()), id, ts)
    {
      var d := args[id].decl;
      assert args[id := args[id]] == args;
      match d
      case ValueDecl(_, _, _, _) =>
        if !args[id].isSet {
          var s := SetValue(id, ts[0]);
          o := Ok(1);
        } else {
          o := Ok(0);
        }
      case KeyDecl(_, _, aliases, _) =>
        var k := 0;
        while k < |aliases|
          invariant 0 <= k <= |aliases| && ts[0] !in aliases[..k]
          invariant State() == old(State())
        {
          if aliases[k] == ts[0] {
            var s := MarkSet(id);
            return Lift(s, 1);
          }
          assert aliases[..k + 1] == aliases[..k] + [aliases[k]];
          k := k + 1;
        }
        assert aliases[..k] == aliases;
        o := Ok(0);
      case KeyValueDecl(_, _, aliases, _, _) =>
        var t := ts[0];
        var eq := IndexOf(t, '=');
        var key := if eq.Some? then t[..eq.value] else t;
        var k := 0;
        while k < |aliases|
          invariant 0 <= k <= |aliases| && key !in aliases[..k]
          invariant State() == old(State())
        {
          if aliases[k] == key {
            if eq.None? {
              if |ts| > 1 {
                if StartsWithGlue(ts[1]) {
                  return Err(LooseValue);
                }
                var s := SetValue(id, ts[1]);
                return Lift(s, 2);
              }
              return Err(RequiresValue);
            }
            var s := SetValue(id, t[eq.value + 1..]);
            return Lift(s, 1);
          }
          assert aliases[..k + 1] == aliases[..k] + [aliases[k]];
          k := k + 1;
        }
        assert aliases[..k] == aliases;
        o := Ok(0);
    }

    /** An attribute loop: the first argument of `ids` that takes the token stops it. */
    method MatchFirst(ids: seq<ArgId>, ts: seq<string>) returns (o: Outcome)
      requires |ts| > 0 && Parsing.IdsIn(ids, State())
      modifies this
      ensures Parsing.Step(o, State()) == Parsing.MatchFirst(ids, ts, old(State()), 0)
    {
      ghost var goal := Parsing.MatchFirst(ids, ts, State(), 0);
      var i := 0;
      while i < |ids|
        invariant 0 <= i <= |ids| && Parsing.IdsIn(ids, State())
        invariant Parsing.MatchFirst(ids, ts, State(), i) == goal
        decreases |ids| - i
      {
        o := MatchArg(ids[i], ts);
        if o.Err? || o.consumed != 0 {
          return;
        }
        i := i + 1;
      }
      o := Ok(0);
    }

    /** The glue branch: offer `-c` to every flag of `keys`, for each character c of `t` after the first. */
    method ApplyGlue(keys: seq<ArgId>, t: string) returns (s: Status)
      requires 1 <= |t| && KeysIn(keys, Decls(args))
      modifies this
      ensures Parsing.Applied(s, State()) == Parsing.ApplyGlue(keys, t, old(State()), 1)
    {
      ghost var goal := Parsing.ApplyGlue(keys, t, State(), 1);
      var i := 1;
      while i < |t|
        invariant 1 <= i <= |t| && KeysIn(keys, Decls(args))
        invariant Parsing.ApplyGlue(keys, t, State(), i) == goal
        decreases |t| - i
      {
        ghost var before := State();
        var j := 0;
        while j < |keys|
          invariant 0 <= j <= |keys| && KeysIn(keys, Decls(args))
          invariant Parsing.GlueChar(keys, t[i], State(), j) == Parsing.GlueChar(keys, t[i], before, 0)
          decreases |keys| - j
        {
          var o := MatchArg(keys[j], [Parsing.GlueToken(t[i])]);
          if o.Err? {
            return Failure(o.error);
          }
          j := j + 1;
        }
        i := i + 1;
      }
      s := Success;
    }

    /** The validation of one group: its required choice, then its four kinds of member. */
    method ValidateGroup(g: Group) returns (ok: bool)
      requires FitsGroup(g, Decls(args))
      ensures ok == GroupValidated(g, State())
    {
      if g.optionRequired && g.id !in optionSet {
        return false;
      }
      for i := 0 to |g.parsers|
        invariant forall k :: 0 <= k < i ==> Done(args[g.parsers[k].cmd])
      {
        if args[g.parsers[i].cmd].decl.required && !args[g.parsers[i].cmd].isSet {
          return false;
        }
      }
      for i := 0 to |g.keyAttrs|
        invariant forall k :: 0 <= k < i ==> Done(args[g.keyAttrs[k]])
      {
        if args[g.keyAttrs[i]].decl.required && !args[g.keyAttrs[i]].isSet {
          return false;
        }
      }
      for i := 0 to |g.keyValueAttrs|
        invariant forall k :: 0 <= k < i ==> Done(args[g.keyValueAttrs[k]])
      {
        if args[g.keyValueAttrs[i]].decl.required && !args[g.keyValueAttrs[i]].isSet {
          return false;
        }
      }
      for i := 0 to |g.valueAttrs|
        invariant forall k :: 0 <= k < i ==> Done(args[g.valueAttrs[k]])
      {
        if args[g.valueAttrs[i]].decl.required && !args[g.valueAttrs[i]].isSet {
          return false;
        }
      }
      ok := true;
    }

    /** The validation pass after consumption, group by group. */
    method Validate(p: Parser) returns (ok: bool)
      requires Fits(p, State())
      ensures ok == Validated(p, State())
    {
      for gi := 0 to |p.groups|
        invariant forall k :: 0 <= k < gi ==> GroupValidated(p.groups[k], State())
      {
        ok := ValidateGroup(p.groups[gi]);
        if !ok {
          return;
        }
      }
      ok := true;
    }

    /** Parser::parse: the discriminator, the consuming loop over the groups, the validation. */
    method Parse(p: Parser, tokens: seq<string>) returns (o: Outcome)
      requires |tokens| > 0 && Fits(p, State())
      modifies this
      ensures Parsing.Step(o, State()) == Parsing.Parse(p, tokens, old(State()))
      decreases |tokens|, 3, 0
    {
      o := MatchArg(p.cmd, tokens);
      if o.Err? {
        return;
      }
      if o.consumed == 0 {
        return Err(Unrecognized(0));
      }
      o := Consume(p, tokens, o.consumed);
    }

    /** The `while (argNum < argc)` loop from `argNum` on, then the validation pass. */
    method Consume(p: Parser, tokens: seq<string>, argNum0: nat) returns (o: Outcome)
      requires 0 < argNum0 <= |tokens| && Fits(p, State())
      modifies this
      ensures Parsing.Step(o, State()) == Parsing.Consume(p, tokens, argNum0, old(State()))
      decreases |tokens|, 2, 0
    {
      ghost var goal := Parsing.Consume(p, tokens, argNum0, State());
      var argNum := argNum0;
      while argNum < |tokens|
        invariant 0 < argNum <= |tokens| && Fits(p, State())
        invariant Parsing.Consume(p, tokens, argNum, State()) == goal
        decreases |tokens| - argNum
      {
        ghost var before := State();
        var advance := Pass(p.groups, tokens[argNum..]);
        if advance.Err? {
          return advance;
        }
        if advance.consumed == 0 {
          return Err(Unrecognized(argNum));
        }
        Parsing.PassAdvances(p, tokens, argNum, before, advance.consumed, State());
        argNum := argNum + advance.consumed;
      }
      var ok := Validate(p);
      o := if ok then Ok(argNum) else Err(MissingArg);
    }

    /** One iteration of the consuming loop: the groups in order, until one advances. */
    method Pass(groups: seq<Group>, ts: seq<string>) returns (o: Outcome)
      requires |ts| > 0 && FitsGroups(groups, State())
      modifies this
      ensures Parsing.Step(o, State()) == Parsing.Pass(groups, ts, old(State()), 0)
      decreases |ts|, 6, 0
    {
      ghost var goal := Parsing.Pass(groups, ts, State(), 0);
      var gi := 0;
      while gi < |groups|
        invariant 0 <= gi <= |groups| && FitsGroups(groups, State())
        invariant Parsing.Pass(groups, ts, State(), gi) == goal
        decreases |groups| - gi
      {
        o := GroupStep(groups[gi], ts);
        if o.Err? || o.consumed != 0 {
          return;
        }
        gi := gi + 1;
      }
      o := Ok(0);
    }

    /**
     * One group's turn at the current token `ts[0]`: child commands (a
     * child's Unrecognized(k) counting as k tokens), then key-value
     * arguments, flags, glued flags and positionals.
     */
    method GroupStep(g: Group, ts: seq<string>) returns (o: Outcome)
      requires |ts| > 0 && FitsGroup(g, Decls(args))
      modifies this
      ensures Parsing.Step(o, State()) == Parsing.GroupStep(g, ts, old(State()))
      decreases |ts|, 5, 0
    {
      ghost var children := Parsing.TryChildren(g, ts, State(), 0);
      var ci := 0;
      while ci < |g.parsers|
        invariant 0 <= ci <= |g.parsers| && FitsGroup(g, Decls(args))
        invariant Parsing.TryChildren(g, ts, State(), ci) == children
        decreases |g.parsers| - ci
      {
        var child := g.parsers[ci];
        var c := Parse(child, ts);
        if c.Err? && !c.error.Unrecognized? {
          return c;
        }
        var advance := if c.Ok? then c.consumed else c.error.index;
        if advance != 0 {
          if !args[child.cmd].decl.required {
            if g.id in optionSet {
              return Err(ExcessiveCmd);
            }
            optionSet := optionSet[g.id := child.cmd];
          }
          return Ok(advance);
        }
        ci := ci + 1;
      }
      o := MatchFirst(g.keyValueAttrs, ts);
      if o.Err? || o.consumed != 0 {
        return;
      }
      o := MatchFirst(g.keyAttrs, ts);
      if o.Err? || o.consumed != 0 {
        return;
      }
      if GluedKeyArgs(Decls(args), g.keyAttrs, ts[0]) {
        var s := ApplyGlue(g.keyAttrs, ts[0]);
        return Lift(s, 1);
      }
      if !StartsWithGlue(ts[0]) {
        o := MatchFirst(g.valueAttrs, ts);
        return;
      }
      o := Ok(0);
    }
  }
}
