// The declared command tree (Parser and ArgGroup), the mutable parse state
// kept beside it, and the read-only queries the engine asks of a group:
// glue detection and the post-consumption validation.
module Tree {
  import opened Args

  /** The identity of an argument object: its slot in `State.args`. */
  type ArgId = nat

  /** The identity of an ArgGroup object: the key of its selection slot and side-table entries. */
  type GroupId = nat

  /**
   * A Parser: its command argument (the discriminator matched against the
   * first token) and its groups, the default group first.
   */
  datatype Parser = Parser(cmd: ArgId, groups: seq<Group>)

  /**
   * An ArgGroup: child parsers (sub-commands) and the three attribute lists,
   * each in declaration order. `name == ""` is an anonymous group.
   */
  datatype Group = Group(
    id: GroupId,
    name: string,
    optionRequired: bool,
    parsers: seq<Parser>,
    valueAttrs: seq<ArgId>,
    keyAttrs: seq<ArgId>,
    keyValueAttrs: seq<ArgId>)

  /**
   * Everything parsing writes: every argument object (indexed by ArgId) and
   * each group's m_optionSet, the command argument of the optional child
   * chosen in that group (absent while m_optionSet is null).
   */
  datatype State = State(args: seq<Arg>, optionSet: map<GroupId, ArgId>)

  /** The declarations of all argument objects: what parsing never changes. */
  function Decls(args: seq<Arg>): (r: seq<Decl>)
    ensures |r| == |args|
    ensures forall i :: 0 <= i < |args| ==> r[i] == args[i].decl
  {
    seq(|args|, i requires 0 <= i < |args| => args[i].decl)
  }

  // ---------------------------------------------------------------------
  // Well-formed trees

  predicate FitsParser(p: Parser, ds: seq<Decl>) {
    && p.cmd < |ds|
    && WellFormed(ds[p.cmd])
    && forall i {:trigger p.groups[i]} :: 0 <= i < |p.groups| ==> FitsGroup(p.groups[i], ds)
  }

  /** Every id names an argument of the kind of the list it is in. */
  predicate FitsGroup(g: Group, ds: seq<Decl>) {
    && (forall i {:trigger g.parsers[i]} :: 0 <= i < |g.parsers| ==>
          g.parsers[i].cmd < |ds| && WellFormed(ds[g.parsers[i].cmd]) && FitsParser(g.parsers[i], ds))
    && (forall i :: 0 <= i < |g.valueAttrs| ==> g.valueAttrs[i] < |ds| && ds[g.valueAttrs[i]].ValueDecl?)
    && KeysIn(g.keyAttrs, ds)
    && (forall i :: 0 <= i < |g.keyValueAttrs| ==>
          g.keyValueAttrs[i] < |ds| && ds[g.keyValueAttrs[i]].KeyValueDecl?
          && WellFormed(ds[g.keyValueAttrs[i]]))
  }

  /** Every id of `keys` names a well-formed flag. */
  predicate KeysIn(keys: seq<ArgId>, ds: seq<Decl>) {
    forall i :: 0 <= i < |keys| ==> keys[i] < |ds| && ds[keys[i]].KeyDecl? && WellFormed(ds[keys[i]])
  }

  predicate Fits(p: Parser, st: State) {
    FitsParser(p, Decls(st.args))
  }

  predicate FitsGroups(gs: seq<Group>, st: State) {
    forall i {:trigger gs[i]} :: 0 <= i < |gs| ==> FitsGroup(gs[i], Decls(st.args))
  }

  // ---------------------------------------------------------------------
  // How parsing may change the state

  /**
   * `st'` is reachable from `st` by parsing: declarations are untouched,
   * m_set flags only go from false to true, and a group's selection slot,
   * once filled, is never overwritten.
   */
  predicate Evolves(st: State, st': State) {
    && Decls(st'.args) == Decls(st.args)
    && (forall i :: 0 <= i < |st.args| && st.args[i].isSet ==> st'.args[i].isSet)
    && st.optionSet.Keys <= st'.optionSet.Keys
    && (forall g :: g in st.optionSet ==> st'.optionSet[g] == st.optionSet[g])
  }

  /** Replace one argument object. */
  function WithArg(st: State, id: ArgId, a: Arg): (r: State)
    requires id < |st.args|
    ensures a.decl == st.args[id].decl && (st.args[id].isSet ==> a.isSet) ==> Evolves(st, r)
  {
    var r := st.(args := st.args[id := a]);
    assert a.decl == st.args[id].decl ==> Decls(r.args) == Decls(st.args);
    r
  }

  // ---------------------------------------------------------------------
  // Glue detection (ArgGroup::gluedKeyArgs)

  /** Some flag of `keys`, from index `j` on, has glue character `c`. */
  predicate HasGlueChar(ds: seq<Decl>, keys: seq<ArgId>, c: char, j: nat)
    requires KeysIn(keys, ds)
    decreases |keys| - j
  {
    j < |keys| && (ds[keys[j]].gluableChar == c || HasGlueChar(ds, keys, c, j + 1))
  }

  /** Every character of `t` from index `i` on is some flag's glue character. */
  predicate AllGluable(ds: seq<Decl>, keys: seq<ArgId>, t: string, i: nat)
    requires KeysIn(keys, ds)
    decreases |t| - i
  {
    i >= |t| || (HasGlueChar(ds, keys, t[i], 0) && AllGluable(ds, keys, t, i + 1))
  }

  /** ArgGroup::gluedKeyArgs: is `t` a run of glued short flags of this group? */
  predicate GluedKeyArgs(ds: seq<Decl>, keys: seq<ArgId>, t: string)
    requires KeysIn(keys, ds)
  {
    StartsWithGlue(t) && |t| != 1 && AllGluable(ds, keys, t, 1)
  }

  /** The glue characters of a list of flags. */
  function GlueChars(ds: seq<Decl>, keys: seq<ArgId>): set<char>
    requires KeysIn(keys, ds)
  {
    set i | 0 <= i < |keys| :: ds[keys[i]].gluableChar
  }

  lemma {:induction false} HasGlueCharIff(ds: seq<Decl>, keys: seq<ArgId>, c: char, j: nat)
    requires KeysIn(keys, ds)
    ensures HasGlueChar(ds, keys, c, j) <==>
            exists i :: j <= i < |keys| && ds[keys[i]].gluableChar == c
    decreases |keys| - j
  {
    if j < |keys| {
      HasGlueCharIff(ds, keys, c, j + 1);
    }
  }

  lemma {:induction false} AllGluableIff(ds: seq<Decl>, keys: seq<ArgId>, t: string, i: nat)
    requires KeysIn(keys, ds)
    ensures AllGluable(ds, keys, t, i) <==>
            forall k :: i <= k < |t| ==> t[k] in GlueChars(ds, keys)
    decreases |t| - i
  {
    if i < |t| {
      AllGluableIff(ds, keys, t, i + 1);
      HasGlueCharIff(ds, keys, t[i], 0);
      if HasGlueChar(ds, keys, t[i], 0) {
        var w :| 0 <= w < |keys| && ds[keys[w]].gluableChar == t[i];
        assert t[i] in GlueChars(ds, keys);
      }
      if t[i] in GlueChars(ds, keys) {
        var w :| 0 <= w < |keys| && ds[keys[w]].gluableChar == t[i];
      }
    }
  }

  /**
   * A token is glued exactly when it starts with the glue character, has
   * more than one character, and every later character is the glue
   * character of some flag of the group.
   */
  lemma GluedKeyArgsIff(ds: seq<Decl>, keys: seq<ArgId>, t: string)
    requires KeysIn(keys, ds)
    ensures GluedKeyArgs(ds, keys, t) <==>
            StartsWithGlue(t) && |t| > 1 && forall k :: 1 <= k < |t| ==> t[k] in GlueChars(ds, keys)
  {
    AllGluableIff(ds, keys, t, 1);
  }

  // ---------------------------------------------------------------------
  // Validation (the loop after consumption)

  predicate Done(a: Arg) {
    a.decl.required ==> a.isSet
  }

  /** A group passes validation: its required choice is made and every required member is set. */
  predicate GroupValidated(g: Group, st: State)
    requires FitsGroup(g, Decls(st.args))
  {
    && (g.optionRequired ==> g.id in st.optionSet)
    && (forall i :: 0 <= i < |g.parsers| ==> Done(st.args[g.parsers[i].cmd]))
    && (forall i :: 0 <= i < |g.keyAttrs| ==> Done(st.args[g.keyAttrs[i]]))
    && (forall i :: 0 <= i < |g.keyValueAttrs| ==> Done(st.args[g.keyValueAttrs[i]]))
    && (forall i :: 0 <= i < |g.valueAttrs| ==> Done(st.args[g.valueAttrs[i]]))
  }

  predicate Validated(p: Parser, st: State)
    requires Fits(p, st)
  {
    forall i :: 0 <= i < |p.groups| ==> GroupValidated(p.groups[i], st)
  }
}
