# C++RAP argument engine in Dafny

This project models the recursive command-line engine of C++RAP
(`include/crap.hpp`), a git-style argument parser. It covers:

- the three leaf argument kinds and their write-once guard:
  - `KeyArg`, a flag with aliases and an optional glue character;
  - `ValueArg`, a positional;
  - `KeyValueArg`, written `k=v` or `k v`;
- `ArgGroup`: typed members, child parsers and the slot that records the chosen optional child;
- `Parser::parse`, which works in three stages:
  - it matches the command's discriminator;
  - it dispatches each remaining token over the groups in a fixed priority order: child commands, key-value arguments, flags, glued flags, positionals;
  - it validates the result;
- glue detection;
- the usage line and option tables that `synopsis` and `description` render.

Layout, one module per file:

| module | file | contents |
|---|---|---|
| `Args` | `args.dfy` | The leaf arguments. A `Decl` is what construction and `addAlias` fix. An `Arg` is a `Decl` plus the two fields parsing writes, `m_set` and `m_value`. This module also holds matching and the help fragments. |
| `Tree` | `tree.dfy` | The command tree, `Parser` and `Group`, as immutable values that refer to argument objects by index, plus the parse `State`. `State` holds every argument object and each group's selection slot. This module also holds glue detection and the validation predicate. |
| `Parsing` | `parsing.dfy` | `Parser::parse` as specification functions. Every one returns the outcome together with the state afterwards. The state comes back even on errors, because the source updates objects in place before it throws. |
| `Engine` | `engine.dfy` | `Registry`, a class whose fields are the argument objects and the selection slots. Its methods are the loops of `Parser::parse` and the mutators of `Arg`. Each is proved to produce exactly what the `Parsing` function predicts. |
| `Text` | `text.dfy` | `Parser::synopsis`, `ArgGroup::synopsis`, `Parser::description` and `ArgGroup::description` as pure functions. The side tables (`synopsisLines`, `descriptionParagraphs`) are threaded through them. |
| `Example` | `example.dfy` | The command tree of `example/example.cpp`, with end-to-end parse scenarios proved on it. |

Errors are values: `AlreadySet`, `RequiresValue`, `LooseValue` (the plain exception for a loose value that starts with `-`), `ExcessiveCmd`, `Unrecognized(index)` and `MissingArg`.

## Model

| member | source | states |
|---|---|---|
| Args.MarkSet | include/crap.hpp:434-440 | The write-once guard. The argument is set afterwards in every case. The call succeeds exactly when it was unset; otherwise it fails with AlreadySet. |
| Args.SetValue | include/crap.hpp:662-667 | The value is stored even when the guard then fails. Afterwards the argument is set and holds the new value. The call succeeds exactly when it was unset. |
| Args.WithAlias | include/crap.hpp:546-554 | `addAlias` appends the alias and keeps the kind and `required`. It keeps the glue character equal to the one a `-c` alias last set, so glue consistency is preserved. |
| Args.NewKeyArg | include/crap.hpp:526-532 | A new flag is unset, not required, and has its name as its only alias. Its glue character is consistent with that alias. |
| Args.NewValueArg | include/crap.hpp:444-451 | A new positional is unset, not required, and has an empty value and an empty default. |
| Args.NewKeyValueArg | include/crap.hpp:599-607 | A new key-value argument is unset and not required. Its name is its first alias, and its value and default are empty. |
| Args.EffectiveValue | include/crap.hpp:628-634 | `value()` returns the stored value when it is non-empty and the default otherwise. It does not look at whether the argument is set. |
| Args.IndexOf | include/crap.hpp:676 | `find_first_of('=')` returns the position of the first `=`, or none when there is no `=`. |
| Args.IndexOfIsFirst | include/crap.hpp:676 | Any first occurrence is the one that IndexOf reports. |
| Args.Match | include/crap.hpp:669-701 | `match` for all three kinds keeps the declaration and never clears `m_set`. Consuming 0 tokens changes nothing. Consuming tokens requires the argument to have been unset, and at most 2 tokens are taken. Flags and positionals can fail only with AlreadySet. A key-value argument whose key part matches no alias consumes 0. |
| Args.Synopsis | include/crap.hpp:568-572 | A positional is shown as `<name>`. A keyed argument's synopsis starts with its name. |
| Args.Options | include/crap.hpp:574-585 | The options column starts with `[` and ends with `]` exactly when the argument is optional. |
| Args.Description | include/crap.hpp:513-516 | A row's text starts with the help text. For a flag (lines 587-591) it is exactly the help text. A positional or key-value argument (lines 723-727) appends the default-value note, which ends in `".`. |
| Args.GlueCharHasAlias | include/crap.hpp:546-554 | Whenever a flag has a glue character `c`, `-c` is one of its aliases. |
| Args.KeyValueSpellingsAgree | include/crap.hpp:676-697 | `k=v` consumes 1 token for every value, one starting with `-` included. `k v` consumes 2 when `v` does not start with `-`. Both leave the argument set to `v`, and both fail with AlreadySet when it was already set. |
| Args.KeyValueNeedsValue | include/crap.hpp:684-693 | A key with nothing after it fails with RequiresValue. A key followed by a token starting with `-` fails with LooseValue. Both leave the argument unchanged. |
| Args.EmptyAssignmentGivesDefault | include/crap.hpp:628-634 | `k=` sets the argument, and `value()` then returns the default. |
| Args.FlagMatchesItsAliases | include/crap.hpp:556-566 | A flag consumes 0 tokens and stays unchanged for a non-alias. For an alias it consumes 1 and becomes set when unset, and fails with AlreadySet when set. |
| Args.PositionalTakesOneTokenOnce | include/crap.hpp:487-495 | A positional takes exactly the current token, as its value, while unset. Once set it consumes 0 and is unchanged. |
| Args.RematchRejected | include/crap.hpp:434-440 | Offering the same tokens again after a successful match fails with AlreadySet for a keyed argument, and consumes 0 for a positional. |
| Tree.HasGlueCharIff | include/crap.hpp:837-842 | The inner search of `gluedKeyArgs` succeeds exactly when some flag from the start index on has the character as its glue character. |
| Tree.AllGluableIff | include/crap.hpp:836-846 | The outer loop succeeds exactly when every remaining character is the glue character of some flag of the group. |
| Tree.GluedKeyArgsIff | include/crap.hpp:824-848 | `gluedKeyArgs(t)` holds exactly when `t` starts with `-`, is longer than one character, and every later character is some flag's glue character. |
| Tree.GluedKeyArgs | include/crap.hpp:824-848 | The predicate `gluedKeyArgs`. It has no contract of its own; Tree.GluedKeyArgsIff states what it decides. |
| Tree.GroupValidated | include/crap.hpp:1193-1208 | One group's validation: the required choice is recorded, and every required child command, flag, key-value argument and positional is set. It has no contract of its own; Engine.Registry.ValidateGroup is proved equal to it. |
| Tree.Validated | include/crap.hpp:1190-1209 | The validation pass: every group of the parser is validated. Parsing.EndOfLineValidates ties it to the MissingArg outcome. |
| Parsing.MatchAt | include/crap.hpp:1156 | One `match` call, written back into the state: only that argument changes, and its outcome is never Unrecognized. |
| Parsing.MatchFirst | include/crap.hpp:1154-1159 | An attribute loop keeps the selection slots and changes nothing when no argument takes the token. It never consumes more tokens than remain. |
| Parsing.GlueChar | include/crap.hpp:1165-1168 | Offering `-c` to every flag keeps declarations and slots, and can fail only with AlreadySet. |
| Parsing.ApplyGlue | include/crap.hpp:1161-1171 | The glue loop over the characters keeps declarations and slots, and can fail only with AlreadySet. |
| Parsing.Parse | include/crap.hpp:1115-1212 | Parsing only marks arguments, stores values and fills empty slots. A successful parse returns exactly the token count, leaves every group validated and has the discriminator set. An Unrecognized index is always the position of a real token. The MissingArg outcome is stated by Parsing.EndOfLineValidates and Parsing.ChildErrorPropagates, and shown by Example.VerboseAloneMissesCommand and Example.RenameWithoutNewName. |
| Parsing.Consume | include/crap.hpp:1122-1211 | The consuming loop plus validation. On success it has consumed every token and every group is validated. An Unrecognized index lies between the current argNum and the end. With nothing left to consume the state is untouched. Parsing.EndOfLineValidates states when that end fails with MissingArg. |
| Parsing.Pass | include/crap.hpp:1125-1183 | One pass over the groups never consumes more tokens than remain and never ends in Unrecognized: a child's Unrecognized is always caught. |
| Parsing.GroupStep | include/crap.hpp:1128-1182 | One group's dispatch of the current token in priority order. It has the same bounds as Pass and evolves the state monotonically. |
| Parsing.TryChildren | include/crap.hpp:1129-1143 | The child-command loop turns a child's Unrecognized into consumed tokens, never consumes more than remain, and only fills slots. |
| Parsing.FirstUnsetPositionalWins | include/crap.hpp:1173-1179 | The token goes to the first unset positional as its value, and nothing else changes. When every positional is set, the token is not taken. |
| Parsing.GlueCharEffect | include/crap.hpp:1165-1168 | Offering `-c` sets exactly the flags that have the alias `-c`. Every other argument is unchanged. |
| Parsing.ApplyGlueEffect | include/crap.hpp:1161-1171 | A glued token sets exactly the flags that one of its characters hits. Nothing else changes. |
| Parsing.GluedFlagIsSet | include/crap.hpp:1161-1171 | A flag whose glue character occurs in the glued token is set after a successful glue step. |
| Parsing.UnmatchedCommand | include/crap.hpp:1118-1120 | The parse fails with Unrecognized(0) exactly when the discriminator consumes nothing. In that case the state is untouched. |
| Parsing.StalledPassIsUnrecognized | include/crap.hpp:1184-1187 | A pass in which no group advances ends the parse with Unrecognized(argNum). |
| Parsing.FailedPassEndsParse | include/crap.hpp:1122-1188 | An exception from a loop pass is not caught by `parse`: the parse ends with that error and the state the pass left. |
| Parsing.EndOfLineValidates | include/crap.hpp:1190-1211 | Once every token is consumed, the parse fails with MissingArg exactly when some group misses its required choice or a required member. It succeeds exactly when every group is validated. The state is unchanged either way. |
| Parsing.ChildErrorPropagates | include/crap.hpp:1130-1134 | Only Unrecognized is caught from a child parser. Any other error of a child, MissingArg included, ends the child loop as it is. |
| Parsing.ChildStopCountsAsConsumed | include/crap.hpp:1130-1141 | A child that stops with Unrecognized(k), k > 0, counts as k consumed tokens, and the child's own validation is skipped. An optional child then takes the slot, or fails with ExcessiveCmd if the slot is taken. |
| Parsing.OptionalChildSelects | include/crap.hpp:1136-1139 | A second optional child that advances in the same group fails with ExcessiveCmd. A first one records its command in the group's slot. |
| Parsing.MatchSkips | include/crap.hpp:1154-1159 | An argument that leaves the token alone (advance 0) hands it on to the next argument of the list, unchanged. |
| Parsing.MatchTakes | include/crap.hpp:1154-1159 | The first argument that consumes tokens or throws decides the attribute loop: its outcome and state are the loop's. |
| Parsing.NoneTake | include/crap.hpp:1154-1159 | When no argument of the list takes the token, the loop advances by 0 and leaves the state exactly as it was. |
| Parsing.NoChildTakes | include/crap.hpp:1129-1143 | When no child's command argument takes the token, the child loop advances by 0 and leaves the state untouched, selection slot included. |
| Parsing.ChildSkipped | include/crap.hpp:1130-1135 | A child whose discriminator does not match fails with Unrecognized(0). That is caught as advance 0, so the loop moves on to the next child with the state untouched. |
| Parsing.HitStep | include/crap.hpp:1165-1168 | A flag is hit from position `j` on exactly when it is the flag at `j` and has the alias `-c`, or it is hit from `j + 1` on. |
| Parsing.CommandStarts | include/crap.hpp:1118-1122 | When the discriminator takes `k > 0` tokens, the consuming loop starts at argNum `k` on the state the discriminator left. |
| Parsing.PassAdvances | include/crap.hpp:1184-1185 | A pass that takes `k > 0` tokens moves argNum forward by exactly `k`, and the loop goes on from there. |
| Parsing.OptionalChildStops | include/crap.hpp:1130-1141 | An optional child that stops with Unrecognized(k), k > 0, in a group whose slot is free, counts as `k` consumed tokens and puts its command in the slot. |
| Parsing.ChildrenDecide | include/crap.hpp:1146-1174 | A child loop that advances or throws decides the group's step: the key-value, key, glue and positional branches are skipped. |
| Parsing.GroupDecides | include/crap.hpp:1181-1182 | The first group whose step advances or throws decides the pass, and later groups are not consulted. |
| Engine.Registry.AddAlias | include/crap.hpp:546-554 | `addAlias` updates object `id` in place, and nothing else changes. Glue consistency is preserved. |
| Engine.Registry.MarkSet | include/crap.hpp:434-440 | The in-place guard agrees with `Args.MarkSet`, and no other object changes. |
| Engine.Registry.SetValue | include/crap.hpp:518-523 | The in-place update stores the value and then marks the argument, agreeing with `Args.SetValue`. No other object changes. |
| Engine.Registry.AddKeyArg | include/crap.hpp:526-532 | Constructing a flag appends `Args.NewKeyArg`: unset, not required, its name as its only alias. Its id is its position, and nothing else changes. |
| Engine.Registry.AddValueArg | include/crap.hpp:444-451 | Constructing a positional appends `Args.NewValueArg`: unset, not required, with an empty value. Its id is its position, and nothing else changes. |
| Engine.Registry.AddKeyValueArg | include/crap.hpp:599-607 | Constructing a key-value argument appends `Args.NewKeyValueArg`: unset, not required, empty value, its name as its only alias. Its id is its position. |
| Engine.Registry.MatchArg | include/crap.hpp:669-701 | The alias loops of `match`, in place, leave the outcome and the state that `Parsing.MatchAt` describes. |
| Engine.Registry.MatchFirst | include/crap.hpp:1154-1159 | The attribute loop, in place, agrees with `Parsing.MatchFirst`. |
| Engine.Registry.ApplyGlue | include/crap.hpp:1161-1171 | The two nested glue loops, in place, agree with `Parsing.ApplyGlue`. |
| Engine.Registry.ValidateGroup | include/crap.hpp:1193-1208 | A group passes validation exactly when a required choice has been recorded and every required child, flag, key-value argument and positional is set. |
| Engine.Registry.Validate | include/crap.hpp:1190-1209 | The validation loop passes exactly when every group of the parser passes. |
| Engine.Registry.Parse | include/crap.hpp:1115-1212 | `Parser::parse` matches the discriminator in place and then runs the loop. It leaves the outcome and state that `Parsing.Parse` describes. |
| Engine.Registry.Consume | include/crap.hpp:1122-1211 | The `while (argNum < argc)` loop and the validation after it, in place, agree with `Parsing.Consume`. |
| Engine.Registry.Pass | include/crap.hpp:1125-1183 | The group loop, in place, agrees with `Parsing.Pass`. |
| Engine.Registry.GroupStep | include/crap.hpp:1128-1182 | One group's dispatch, in place, agrees with `Parsing.GroupStep`. This includes the child loop with its catch and the selection slot. |
| Text.OptionalCmds | include/crap.hpp:850-861 | `optionalCmdsSynopsis` is empty exactly when no optional child has a non-empty synopsis. |
| Text.OptionalCmdsSynopsis | include/crap.hpp:850-861 | `optionalCmdsSynopsis()` is empty exactly when every optional child command has an empty synopsis. |
| Text.ParserSynopsis | include/crap.hpp:1214-1228 | The usage line starts with the command's synopsis. Every named group of the parser has an entry in the side table, and existing entries are never overwritten. |
| Text.GroupsSynopsis | include/crap.hpp:1218-1226 | Every named group from the index on gets a table entry, and existing entries are kept. |
| Text.SynopsisPart | include/crap.hpp:1219-1225 | An unnamed group contributes its synopsis inline. A named group contributes ` (name)` inline. When the table has no entry for the group, the new entry is `(name) :=` followed by the group's synopsis. An existing entry is kept, and the table only grows. |
| Text.SynopsisEntryIsExpansion | include/crap.hpp:1222-1224 | A named group's new synopsis entry is `(name) :=` plus the group's synopsis rendered against an empty table. So what the table already held changes nothing, and skipping an already entered group loses nothing. |
| Text.GroupSynopsis | include/crap.hpp:863-935 | `ArgGroup::synopsis` only adds to the side table. |
| Text.RequiredCmds | include/crap.hpp:877-879 | The required-children part only adds to the side table. |
| Text.OptionalKids | include/crap.hpp:881-886 | The bar-joined optional children are non-empty once anything has been joined. They only add to the side table. |
| Text.GlueString | include/crap.hpp:894-904 | Every character in the glued part of the synopsis is a real glue character of some flag of the group. |
| Text.MembersSynopsis | include/crap.hpp:894-933 | The part of a group's synopsis after its child commands is empty or starts with a space. It is non-empty whenever a key-value argument or a positional is listed. |
| Text.FlagsSynopsis | include/crap.hpp:894-911 | The flags' part, glued characters first and then the listed flags, is empty or starts with a space. |
| Text.KindSynopsis | include/crap.hpp:912-924 | One kind's listed arguments, required ones first, are empty exactly when no argument of that kind is listed. Otherwise they start with a space. |
| Text.Items | include/crap.hpp:905-925 | The listed synopses of one kind and one requiredness are empty exactly when no argument of that list is listed with that requiredness. Otherwise they start with a space. |
| Text.RequiredGlued | include/crap.hpp:895-899 | The required glued flags appear as ` -` followed only by real glue characters of the group's flags. |
| Text.OptionalGlued | include/crap.hpp:900-911 | The optional glued flags appear as ` [-`, then only real glue characters, then `]`. |
| Text.Entries | include/crap.hpp:946-993 | A group has one option row per child command, flag, key-value argument and positional. The child commands' rows come first, in declaration order. |
| Text.Lines | include/crap.hpp:955-993 | A block of rows is empty exactly when no row has the block's requiredness. Otherwise it ends with a newline. |
| Text.JoinCmds | include/crap.hpp:928-930 | The join keeps the required part as a prefix and the total length unchanged. It puts a bar in place of the first optional character only when both parts are non-empty. |
| Text.JoinCmdsAsWritten | include/crap.hpp:928-930 | The statement as written: defined only when an empty required part or a non-empty optional part makes `[0]` valid. Where defined, it agrees with JoinCmds. |
| Text.JoinCmdsAsWrittenUndefined | include/crap.hpp:927-929 | A group with one required child and no optional ones reaches the join with a non-empty required part and an empty optional part. |
| Text.ParserSynopsisIgnoresTable | include/crap.hpp:1214-1228 | The usage line does not depend on what the side table already holds. |
| Text.GroupsSynopsisIgnoresTable | include/crap.hpp:1218-1226 | The groups' part of the usage line does not depend on the side table. |
| Text.GroupSynopsisIgnoresTable | include/crap.hpp:863-935 | A group's synopsis text does not depend on the side table. |
| Text.RequiredCmdsIgnoreTable | include/crap.hpp:877-879 | The required-children text does not depend on the side table. |
| Text.OptionalKidsIgnoreTable | include/crap.hpp:881-886 | The optional-children text does not depend on the side table. |
| Text.MaxWidth | include/crap.hpp:946-953 | `maxWide` is at least every row's options width and equals one of them, or is 0 for no rows. The padding `maxWide - len` therefore never underflows. |
| Text.Line | include/crap.hpp:962 | A row is the options, spaces up to column `maxWide`, ` - `, the text and a newline. |
| Text.EveryRowOnce | include/crap.hpp:955-995 | The required block and the optional block together render every row exactly once, each at `maxWide + 4` characters plus its text. |
| Text.GroupDescription | include/crap.hpp:937-1000 | `ArgGroup::description` only adds to the side table. |
| Text.KidsDescription | include/crap.hpp:996-997 | The children's descriptions only add to the side table. |
| Text.ParserDescription | include/crap.hpp:1230-1245 | `Parser::description` is empty exactly when the unnamed groups produced no text; otherwise it starts with `<synopsis> options:` and a newline. Every named group has a paragraph in the table. |
| Text.GroupsDescription | include/crap.hpp:1234-1240 | Every named group from the index on gets a paragraph in the table, and existing paragraphs are kept. |
| Text.GroupPart | include/crap.hpp:1235-1240 | A named group contributes no inline text, only a table paragraph, and an existing paragraph is not replaced. The content of a new paragraph is stated by Text.DescriptionEntryIsExpansion. |
| Text.DescriptionEntryIsExpansion | include/crap.hpp:1238-1239 | A named group's new paragraph is `(name):` and a newline followed by the group's description. That description does not depend on what the table already held, and an existing paragraph is kept. |
| Text.ParserDescriptionIgnoresTable | include/crap.hpp:1230-1245 | A parser's description text does not depend on the side table. |
| Text.GroupsDescriptionIgnoresTable | include/crap.hpp:1234-1240 | The groups' part of the description does not depend on the side table. |
| Text.GroupDescriptionIgnoresTable | include/crap.hpp:937-1000 | A group's description text does not depend on the side table. |
| Text.KidsDescriptionIgnoreTable | include/crap.hpp:996-997 | The children's descriptions do not depend on the side table. |
| Example.ProgramFits | example/example.cpp:5-48 | The demonstration program's command tree is well formed over its argument objects. |
| Example.Fresh | example/example.cpp:5-48 | The argument objects as the program declares them: every declaration as written, nothing set, every value empty, no sub-command chosen. |
| Example.InitStopsAtVerbose | include/crap.hpp:1115-1187 | Run as a child on `init pstones=500 -v`, `init` takes its key and the key-value argument, then stops at `-v` with Unrecognized(2). |
| Example.InitStopsAtOnce | include/crap.hpp:1115-1187 | Run as a child on `init -v`, `init` takes its key and stops at `-v` with Unrecognized(1), with `pstones` never validated. |
| Example.InitChosen | include/crap.hpp:1130-1141 | Whenever `init` stops with Unrecognized(k), k > 0, and no sub-command is chosen yet, the program's pass takes `k` tokens and records `init` as the choice. |
| Example.ProgramTakesInit | include/crap.hpp:1125-1183 | The program's pass on `init pstones=500 -v` takes 2 tokens, chooses `init` and stores `500` in `pstones`. |
| Example.ProgramTakesBareInit | include/crap.hpp:1125-1183 | The program's pass on `init -v` takes 1 token and chooses `init`. |
| Example.ProgramChildrenSkipVerbose | include/crap.hpp:1129-1143 | None of the five sub-commands takes `-v`, so the child loop advances by 0 and changes nothing. |
| Example.ProgramTakesVerbose | include/crap.hpp:1125-1183 | The program's pass on `-v` falls through the sub-commands and sets `--verbose` through its alias, taking 1 token. |
| Example.ProgramValidated | include/crap.hpp:1190-1209 | The program's validation holds exactly when a sub-command has been chosen. No member of its group is required; the required program argument is the discriminator, not a member. |
| Example.FinishWithVerbose | include/crap.hpp:1122-1211 | With a sub-command chosen, a last token `-v` sets `--verbose` and the parse ends successfully with every token consumed. |
| Example.StonesRun | include/crap.hpp:1115-1212 | The whole run of `prog init pstones=500 -v` from any clean state: the exact final state, built step by step. |
| Example.BareInitRun | include/crap.hpp:1115-1212 | The whole run of `prog init -v` from any clean state: the exact final state, built step by step. |
| Example.InitWithStonesAndVerbose | example/example.cpp:17-26 | From any clean state (declarations as written, nothing set, nothing chosen), `prog init pstones=500 -v` parses with 4 tokens consumed. `init` is recorded as the chosen sub-command, `pstones` holds `500`, `pname` is unset and `-v` is set. |
| Example.InitWithoutStones | example/example.cpp:21-26 | From any clean state, `prog init -v` succeeds with 3 tokens consumed even though the required `pstones` is unset: `init` stops at `-v`, and its validation never runs. |
| Example.InitStopsAfterSplitStones | include/crap.hpp:684-690 | Run as a child on `init pstones 500 -v`, `init` takes `pstones` with the next token as its value, then stops at `-v` with Unrecognized(3). |
| Example.SplitStonesRun | include/crap.hpp:1115-1212 | The whole run of `prog init pstones 500 -v` from any clean state: 5 tokens consumed, and the exact final state. |
| Example.StonesSpellingsAgree | include/crap.hpp:676-697 | `prog init pstones=500 -v` and `prog init pstones 500 -v` both succeed, consuming 4 and 5 tokens, and leave the same state. |
| Example.VerboseAloneMissesCommand | include/crap.hpp:1193-1194 | `prog -v` from any clean state takes the flag but chooses no sub-command. The program requires a choice, so the parse fails with MissingArg. |
| Example.RenameMissesNewName | include/crap.hpp:1197-1208 | Run as a child on `rename a`, `rename` gives `a` to `old_name` and consumes the rest of the line. Its validation then fails with MissingArg because the required `new_name` is unset. |
| Example.ProgramPassFailsOnRename | include/crap.hpp:1130-1134 | The program's pass does not catch the MissingArg that `rename` throws. It fails with it, leaving `rename` and `old_name` set and no choice recorded. |
| Example.RenameWithoutNewName | include/crap.hpp:1115-1212 | `prog rename a` from any clean state fails with MissingArg from `rename`'s own validation. `old_name` holds `a`. |

## Left out

- Exception message texts and the exception class hierarchy: only the error kind is modelled, plus the index for Unrecognized.
- `printSynopsis`, `printDescription` and `printHelp` (include/crap.hpp:1087-1113): these write to a stream. The side tables they print are maps whose order depends on pointer addresses. The model keys them by group id and leaves the order unspecified.
- Header, footer and help texts are not modelled beyond the help text carried in each declaration.
- Setters are not modelled as operations, because they only fix declarations before parsing: `setRequired`, `setDefaultValue`, `setValueName`, `setHeader`, `setFooter`, `setCmd`, `setOptionRequired`, `addAttr`, `addSubCmd`, `addArgGroup`. A declaration's fields, or the `Parser`/`Group` value, state what they leave behind.
- Pointer ownership: `unique_ptr` and raw pointers are not modelled. Argument objects are referred to by index, and groups by an id that keys their selection slot and their table entries. Two `Group` values with one id stand for one shared object; the model does not check that their members agree.
- C-string mechanics are not modelled: `argv`/`argc` become a sequence of strings, and reading `argv[1][0]` of an empty token becomes "does not start with `-`".
- An empty `argv` is excluded. `Parsing.Parse` and `Engine.Registry.Parse` require at least one token, because the source reads `argv[0]` unconditionally.
- `gluedKeyArgs` is modelled as a predicate over the group rather than as its two nested loops: it only reads the tree.
- The side tables of the text functions are threaded through as values instead of being updated in place.
- Characters stand for bytes. The model agrees with the source only for ASCII tokens, aliases and help text. A Dafny `string` counts characters, but `std::string::length()` and `strlen` count bytes. So an alias like `-é` has length 3 in the source (line 550) and never becomes gluable. `gluedKeyArgs` (line 836) walks bytes, and `maxWide` and the padding (lines 946-962) count bytes. This affects Args.ShortAlias, Tree.AllGluable, Tree.GluedKeyArgs, Text.MaxWidth and Text.Line.
- Engine.Registry.constructor: it only builds the empty argument arena that the argument constructors extend. The example program is stated over the declarations its setters leave, so no model member calls the constructor.
- Integer widths are not modelled (`int argNum`, `std::size_t` widths). Token counts are unbounded naturals.
- Text.GroupSynopsis: the contract states only that the table grows. The fixed concatenation order of the usage line is its definition. The same holds for Text.GroupDescription, Text.KidsDescription and Text.MembersSynopsis.
- Text.Entries: the contract states the row count and the order of the child commands' rows, not the order of the member rows that follow them.
- Parsing.GroupStep: the contract states only the bounds and the monotone evolution. The priority order is its definition, and FirstUnsetPositionalWins, GlueCharEffect and ChildStopCountsAsConsumed state its individual branches.

## Findings

| source | as written | input that shows it | evidently intended | confidence | as-written member | corrected member |
|---|---|---|---|---|---|---|
| include/crap.hpp:929 | The assignment of a bar to `subParserOptionalSynopsis[0]` runs whenever the required-children part is non-empty, even when the optional part is empty. Writing a non-null character through `operator[]` at `size()` is undefined behaviour. | A group with one required child command `status` and no optional children. | Append the optional part with a bar in place of its leading character only when it is non-empty, so the line is ` status`. | not executed | Text.JoinCmdsAsWritten (Text.JoinCmdsAsWrittenUndefined) | Text.JoinCmds |
