// Leaf arguments of the recursive argument processor: flags (KeyArg),
// positionals (ValueArg) and key-value options (KeyValueArg), their
// write-once guard, how each one matches the token stream, and the text
// fragments each contributes to the help output.
module Args {

  datatype Option<T> = None | Some(value: T)

  /** The kinds of failure the parser raises (message texts are not modelled). */
  datatype Error =
    | AlreadySet                // ArgAlreadySetException
    | RequiresValue             // ArgRequiresValueException
    | LooseValue                // plain Exception: a loose value starting with the glue character
    | ExcessiveCmd              // ExcessiveCmdException
    | Unrecognized(index: nat)  // UnrecognizedArgException and its argNum
    | MissingArg                // MissingArgException

  /** Result of a matching step: the number of tokens consumed, or an error. */
  datatype Outcome = Ok(consumed: nat) | Err(error: Error)

  /** Result of a step that consumes nothing (marking, gluing). */
  datatype Status = Success | Failure(error: Error)

  /** An argument object after markSet or setValue, with whether the guard let it through. */
  datatype Update = Update(status: Status, arg: Arg)

  /** An argument object after match, with the tokens it took or the error it raised. */
  datatype Matched = Matched(outcome: Outcome, arg: Arg)

  /** Parser::GLUE_CHAR. */
  const GLUE_CHAR: char := '-'

  /** The value of m_gluableChar for a flag that cannot be glued. */
  const NO_GLUE: char := '\0'

  /**
   * The declared part of the three argument variants: what the
   * constructors, addAlias, setRequired and setDefaultValue establish.
   * `aliases[0]` is the name of a KeyArg or KeyValueArg.
   */
  datatype Decl =
    | KeyDecl(help: string, required: bool, aliases: seq<string>, gluableChar: char)
    | ValueDecl(help: string, required: bool, valueName: string, defaultValue: string)
    | KeyValueDecl(help: string, required: bool, aliases: seq<string>,
                   valueName: string, defaultValue: string)

  /**
   * An argument object: its declaration plus the two fields parsing writes,
   * m_set and m_value (a flag's value stays "").
   */
  datatype Arg = Arg(decl: Decl, isSet: bool, value: string)

  /** Keyed arguments always have a name: their constructors add it as first alias. */
  predicate WellFormed(d: Decl) {
    !d.ValueDecl? ==> |d.aliases| > 0
  }

  function Name(d: Decl): string
    requires !d.ValueDecl? && WellFormed(d)
  {
    d.aliases[0]
  }

  predicate StartsWithGlue(t: string) {
    |t| > 0 && t[0] == GLUE_CHAR
  }

  /** An alias of the form glue character plus exactly one character. */
  predicate ShortAlias(alias: string) {
    |alias| == 2 && alias[0] == GLUE_CHAR
  }

  // ---------------------------------------------------------------------
  // Construction and mutation

  /** The glue character that a sequence of addAlias calls leaves behind. */
  function LastGlue(aliases: seq<string>): char {
    if |aliases| == 0 then NO_GLUE
    else if ShortAlias(aliases[|aliases| - 1]) then aliases[|aliases| - 1][1]
    else LastGlue(aliases[..|aliases| - 1])
  }

  /** A flag's glue character is the one its aliases determine. */
  predicate GlueConsistent(d: Decl) {
    d.KeyDecl? ==> d.gluableChar == LastGlue(d.aliases)
  }

  /** KeyArg::addAlias and KeyValueArg::addAlias. */
  function WithAlias(d: Decl, alias: string): (r: Decl)
    requires !d.ValueDecl?
    ensures r.KeyDecl? == d.KeyDecl? && r.KeyValueDecl? == d.KeyValueDecl?
    ensures r.aliases == d.aliases + [alias] && WellFormed(r) && r.required == d.required
    ensures GlueConsistent(d) ==> GlueConsistent(r)
  {
    match d
    case KeyDecl(help, required, aliases, glue) =>
      KeyDecl(help, required, aliases + [alias], if ShortAlias(alias) then alias[1] else glue)
    case KeyValueDecl(help, required, aliases, valueName, defaultValue) =>
      KeyValueDecl(help, required, aliases + [alias], valueName, defaultValue)
  }

  /** The KeyArg constructor: not required, no glue char, then addAlias(name). */
  function NewKeyArg(name: string, help: string): (r: Arg)
    ensures r.decl.KeyDecl? && WellFormed(r.decl) && GlueConsistent(r.decl)
    ensures Name(r.decl) == name && r.decl.aliases == [name]
    ensures !r.isSet && !r.decl.required
  {
    Arg(WithAlias(KeyDecl(help, false, [], NO_GLUE), name), false, "")
  }

  function NewValueArg(valueName: string, help: string): (r: Arg)
    ensures r.decl.ValueDecl? && !r.isSet && !r.decl.required
    ensures r.value == "" && r.decl.defaultValue == ""
  {
    Arg(ValueDecl(help, false, valueName, ""), false, "")
  }

  function NewKeyValueArg(name: string, valueName: string, help: string): (r: Arg)
    ensures r.decl.KeyValueDecl? && WellFormed(r.decl) && Name(r.decl) == name
    ensures !r.isSet && !r.decl.required && r.value == "" && r.decl.defaultValue == ""
  {
    Arg(KeyValueDecl(help, false, [name], valueName, ""), false, "")
  }

  /** Arg::markSet: the write-once guard. */
  function MarkSet(a: Arg): (r: Update)
    ensures r.arg == a.(isSet := true)
    ensures r.status.Success? <==> !a.isSet
    ensures r.status.Failure? ==> r.status.error == AlreadySet
  {
    if a.isSet then Update(Failure(AlreadySet), a) else Update(Success, a.(isSet := true))
  }

  /** ValueArg::setValue and KeyValueArg::setValue: the value is stored before the guard runs. */
  function SetValue(a: Arg, v: string): (r: Update)
    ensures r.arg == a.(value := v, isSet := true)
    ensures r.status.Success? <==> !a.isSet
    ensures r.status.Failure? ==> r.status.error == AlreadySet
  {
    MarkSet(a.(value := v))
  }

  /** value(): the default is used when the stored value is empty. */
  function EffectiveValue(a: Arg): (r: string)
    requires !a.decl.KeyDecl?
    ensures a.value != "" ==> r == a.value
    ensures a.value == "" ==> r == a.decl.defaultValue
  {
    if |a.value| == 0 then a.decl.defaultValue else a.value
  }

  // ---------------------------------------------------------------------
  // Matching

  /** std::string::find_first_of for one character. */
  function IndexOf(s: string, c: char): (r: Option<nat>)
    ensures r.Some? ==> r.value < |s| && s[r.value] == c && c !in s[..r.value]
    ensures r.None? ==> c !in s
  {
    if |s| == 0 then None
    else if s[0] == c then Some(0)
    else
      match IndexOf(s[1..], c)
      case None => None
      case Some(i) => assert s[..i + 1] == [s[0]] + s[1..][..i]; Some(i + 1)
  }

  /** The first occurrence is the one IndexOf finds. */
  lemma IndexOfIsFirst(s: string, c: char, i: nat)
    requires i < |s| && s[i] == c && c !in s[..i]
    ensures IndexOf(s, c) == Some(i)
  {
    assert forall j :: 0 <= j < i ==> s[..i][j] == s[j];
    assert forall j :: i < j <= |s| ==> s[..j][i] == s[i];
  }

  /** The part of a token a key-value alias is compared with: up to the first '='. */
  function KeyPart(t: string): string {
    match IndexOf(t, '=')
    case None => t
    case Some(i) => t[..i]
  }

  function Lift(s: Status, n: nat): Outcome {
    if s.Success? then Ok(n) else Err(s.error)
  }

  /**
   * Arg::match for the three variants, on the remaining tokens `ts`
   * (`ts[0]` is the current token). Returns the tokens consumed (0 when
   * the argument does not match here) and the argument afterwards.
   */
  function Match(a: Arg, ts: seq<string>): (r: Matched)
    requires |ts| > 0
    ensures r.arg.decl == a.decl
    ensures a.isSet ==> r.arg.isSet
    ensures r.outcome == Ok(0) ==> r.arg == a
    ensures r.outcome.Ok? && r.outcome.consumed > 0 ==> !a.isSet && r.arg.isSet && r.outcome.consumed <= |ts|
    ensures r.outcome.Ok? ==> r.outcome.consumed <= 2
    ensures r.outcome.Err? ==> r.outcome.error in {AlreadySet, RequiresValue, LooseValue}
    ensures !a.decl.KeyValueDecl? && r.outcome.Err? ==> r.outcome.error == AlreadySet
    ensures a.decl.KeyValueDecl? && KeyPart(ts[0]) !in a.decl.aliases ==> r == Matched(Ok(0), a)
  {
    match a.decl
    case ValueDecl(_, _, _, _) =>
      if !a.isSet then Matched(Ok(1), SetValue(a, ts[0]).arg) else Matched(Ok(0), a)
    case KeyDecl(_, _, aliases, _) =>
      if ts[0] in aliases then
        var Update(s, a') := MarkSet(a);
        Matched(Lift(s, 1), a')
      else
        Matched(Ok(0), a)
    case KeyValueDecl(_, _, aliases, _, _) =>
      var t := ts[0];
      var eq := IndexOf(t, '=');
      if KeyPart(t) !in aliases then
        Matched(Ok(0), a)
      else if eq.Some? then
        var Update(s, a') := SetValue(a, t[eq.value + 1..]);
        Matched(Lift(s, 1), a')
      else if |ts| > 1 then
        if StartsWithGlue(ts[1]) then
          Matched(Err(LooseValue), a)
        else
          var Update(s, a') := SetValue(a, ts[1]);
          Matched(Lift(s, 2), a')
      else
        Matched(Err(RequiresValue), a)
  }

  // ---------------------------------------------------------------------
  // Help fragments

  /** Arg::synopsis. */
  function Synopsis(d: Decl): (r: string)
    requires WellFormed(d)
    ensures d.ValueDecl? ==> r == "<" + d.valueName + ">"
    ensures !d.ValueDecl? ==> |r| >= |Name(d)| && r[..|Name(d)|] == Name(d)
  {
    match d
    case ValueDecl(_, _, valueName, _) => "<" + valueName + ">"
    case KeyDecl(_, _, _, _) => Name(d)
    case KeyValueDecl(_, _, _, valueName, _) => Name(d) + "=<" + valueName + ">"
  }

  /** The loop `result.append(" ").append(alias)` over all aliases. */
  function AliasList(aliases: seq<string>): (r: string)
    ensures |aliases| > 0 ==> |r| > 0 && r[0] == ' '
    ensures |r| >= |aliases|
  {
    if |aliases| == 0 then "" else " " + aliases[0] + AliasList(aliases[1..])
  }

  /** Arg::options: optional arguments are bracketed, required ones are not. */
  function Options(d: Decl): (r: string)
    requires WellFormed(d)
    ensures (|r| > 0 && r[0] == '[') <==> !d.required
    ensures !d.required ==> r[|r| - 1] == ']'
  {
    match d
    case ValueDecl(_, required, valueName, _) =>
      if required then " <" + valueName + "> " else "[ <" + valueName + "> ]"
    case KeyDecl(_, required, aliases, _) =>
      if required then AliasList(aliases) else "[" + AliasList(aliases) + " ]"
    case KeyValueDecl(_, required, aliases, valueName, _) =>
      var body := AliasList(aliases) + " <" + valueName + ">";
      if required then body else "[" + body + " ]"
  }

  /** Arg::description. */
  function Description(d: Decl): (r: string)
    ensures |r| >= |d.help| && r[..|d.help|] == d.help
    ensures d.KeyDecl? <==> r == d.help
    ensures !d.KeyDecl? ==> |r| > |d.help| + 1 && r[|r| - 2..] == "\"."
  {
    if d.KeyDecl? then d.help else d.help + " Default value: \"" + d.defaultValue + "\"."
  }

  // ---------------------------------------------------------------------
  // Properties

  /** A flag's glue character, when it has one, is the character of one of its `-c` aliases. */
  lemma {:induction false} GlueCharHasAlias(aliases: seq<string>)
    requires LastGlue(aliases) != NO_GLUE
    ensures [GLUE_CHAR, LastGlue(aliases)] in aliases
  {
    var n := |aliases|;
    if ShortAlias(aliases[n - 1]) {
      assert aliases[n - 1] == [GLUE_CHAR, aliases[n - 1][1]];
    } else {
      GlueCharHasAlias(aliases[..n - 1]);
      assert aliases[..n - 1] <= aliases;
    }
  }

  /**
   * Both spellings `k=v` and `k v` leave the argument set to the same value.
   * `k=v` takes any value, `-1` included; `k v` only one that does not start
   * with the glue character.
   */
  lemma KeyValueSpellingsAgree(a: Arg, k: string, v: string, rest: seq<string>)
    requires a.decl.KeyValueDecl? && k in a.decl.aliases && '=' !in k
    ensures Match(a, [k + "=" + v] + rest).arg == a.(value := v, isSet := true)
    ensures Match(a, [k + "=" + v] + rest).outcome == (if a.isSet then Err(AlreadySet) else Ok(1))
    ensures !StartsWithGlue(v) ==> Match(a, [k, v] + rest).arg == a.(value := v, isSet := true)
    ensures !StartsWithGlue(v) ==> Match(a, [k, v] + rest).outcome == (if a.isSet then Err(AlreadySet) else Ok(2))
  {
    var t := k + "=" + v;
    assert t[..|k|] == k;
    IndexOfIsFirst(t, '=', |k|);
    assert t[|k| + 1..] == v;
    assert KeyPart(t) == k;
    assert IndexOf(k, '=') == None;
  }

  /** `k` with no value after it fails with RequiresValue; with `-x` after it, with LooseValue. */
  lemma KeyValueNeedsValue(a: Arg, k: string, next: string, rest: seq<string>)
    requires a.decl.KeyValueDecl? && k in a.decl.aliases && '=' !in k
    ensures Match(a, [k]) == Matched(Err(RequiresValue), a)
    ensures StartsWithGlue(next) ==> Match(a, [k, next] + rest) == Matched(Err(LooseValue), a)
  {
    assert IndexOf(k, '=') == None;
  }

  /** `--opt=` stores the empty value, so value() gives the default. */
  lemma EmptyAssignmentGivesDefault(a: Arg, k: string)
    requires a.decl.KeyValueDecl? && !a.isSet && k in a.decl.aliases && '=' !in k
    ensures Match(a, [k + "="]).outcome == Ok(1)
    ensures Match(a, [k + "="]).arg.isSet
    ensures EffectiveValue(Match(a, [k + "="]).arg) == a.decl.defaultValue
  {
    KeyValueSpellingsAgree(a, k, "", []);
    assert k + "=" + "" == k + "=";
  }

  /** A flag matches exactly its aliases, once. */
  lemma FlagMatchesItsAliases(a: Arg, ts: seq<string>)
    requires a.decl.KeyDecl? && |ts| > 0
    ensures ts[0] !in a.decl.aliases ==> Match(a, ts) == Matched(Ok(0), a)
    ensures ts[0] in a.decl.aliases && !a.isSet ==> Match(a, ts) == Matched(Ok(1), a.(isSet := true))
    ensures ts[0] in a.decl.aliases && a.isSet ==> Match(a, ts) == Matched(Err(AlreadySet), a)
  {
  }

  /** A positional takes exactly the current token while unset, and nothing once set. */
  lemma PositionalTakesOneTokenOnce(a: Arg, ts: seq<string>)
    requires a.decl.ValueDecl? && |ts| > 0
    ensures !a.isSet ==> Match(a, ts) == Matched(Ok(1), a.(value := ts[0], isSet := true))
    ensures a.isSet ==> Match(a, ts) == Matched(Ok(0), a)
  {
  }

  /**
   * Whatever matched once cannot match the same tokens again: a keyed
   * argument fails with AlreadySet, a positional declines.
   */
  lemma RematchRejected(a: Arg, ts: seq<string>)
    requires |ts| > 0
    requires Match(a, ts).outcome.Ok? && Match(a, ts).outcome.consumed > 0
    ensures a.decl.ValueDecl? ==> Match(Match(a, ts).arg, ts).outcome == Ok(0)
    ensures !a.decl.ValueDecl? ==> Match(Match(a, ts).arg, ts).outcome == Err(AlreadySet)
  {
  }
}
