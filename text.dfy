// Help text: the usage line (Parser::synopsis, ArgGroup::synopsis) and the
// option tables (Parser::description, ArgGroup::description). Named groups
// are rendered by name only; their expansion goes once into a side table
// keyed by the group.
module Text {
  import opened Args
  import opened Tree

  /** The synopsisLines / descriptionParagraphs side tables. */
  type Table = map<GroupId, string>

  /** A piece of help text and the side table after rendering it. */
  datatype Rendered = Rendered(text: string, table: Table)

  /** Entries are added, never overwritten. */
  predicate Grows(t: Table, t': Table) {
    t.Keys <= t'.Keys && forall k :: k in t ==> t'[k] == t[k]
  }

  /** One step of the `if (!result.empty()) result += '|'` joins. */
  function Bar(acc: string, s: string): (r: string)
    ensures r == "" <==> acc == "" && s == ""
  {
    if acc == "" then s else acc + "|" + s
  }

  /** ArgGroup::optionalCmdsSynopsis, from child index `i` on, appended to `acc`. */
  function OptionalCmds(g: Group, ds: seq<Decl>, i: nat, acc: string): (r: string)
    requires FitsGroup(g, ds) && i <= |g.parsers|
    ensures r == "" <==>
      acc == "" && forall k :: i <= k < |g.parsers| && !ds[g.parsers[k].cmd].required ==>
                      Synopsis(ds[g.parsers[k].cmd]) == ""
    decreases |g.parsers| - i
  {
    if i == |g.parsers| then acc
    else
      var d := ds[g.parsers[i].cmd];
      OptionalCmds(g, ds, i + 1, if d.required then acc else Bar(acc, Synopsis(d)))
  }

  /** ArgGroup::optionalCmdsSynopsis: the `|`-joined synopses of the optional children. */
  function OptionalCmdsSynopsis(g: Group, ds: seq<Decl>): (r: string)
    requires FitsGroup(g, ds)
    ensures r == "" <==>
      forall k :: 0 <= k < |g.parsers| && !ds[g.parsers[k].cmd].required ==> Synopsis(ds[g.parsers[k].cmd]) == ""
  {
    OptionalCmds(g, ds, 0, "")
  }

  // ---------------------------------------------------------------------
  // Usage line

  /** Leaf arguments the synopsis lists by name: all but flags with a glue character. */
  predicate Listed(d: Decl) {
    !d.KeyDecl? || d.gluableChar == NO_GLUE
  }

  /** One listed argument: required ones and flags plain, other optional ones bracketed. */
  function Item(d: Decl): string
    requires WellFormed(d)
  {
    if d.required || d.KeyDecl? then " " + Synopsis(d) else " [" + Synopsis(d) + "]"
  }

  /** The listed arguments of `ids` whose `required` is `req`, in declaration order. */
  function Items(ids: seq<ArgId>, ds: seq<Decl>, req: bool): (r: string)
    requires forall k :: 0 <= k < |ids| ==> ids[k] < |ds| && WellFormed(ds[ids[k]])
    ensures r == "" <==> forall k :: 0 <= k < |ids| ==> !(ds[ids[k]].required == req && Listed(ds[ids[k]]))
    ensures r != "" ==> r[0] == ' '
  {
    if |ids| == 0 then ""
    else
      var d := ds[ids[0]];
      var rest := Items(ids[1..], ds, req);
      assert forall k :: 1 <= k < |ids| ==> ids[k] == ids[1..][k - 1];
      (if d.required == req && Listed(d) then Item(d) else "") + rest
  }

  /** The glue characters of the flags of `keys` whose `required` is `req`, in order. */
  function GlueString(keys: seq<ArgId>, ds: seq<Decl>, req: bool): (r: string)
    requires KeysIn(keys, ds)
    ensures forall c :: c in r ==> c != NO_GLUE && c in GlueChars(ds, keys)
  {
    if |keys| == 0 then ""
    else
      var d := ds[keys[0]];
      var rest := GlueString(keys[1..], ds, req);
      assert forall c :: c in GlueChars(ds, keys[1..]) ==> c in GlueChars(ds, keys) by {
        forall c | c in GlueChars(ds, keys[1..])
          ensures c in GlueChars(ds, keys)
        {
          var i :| 0 <= i < |keys[1..]| && ds[keys[1..][i]].gluableChar == c;
          assert ds[keys[i + 1]].gluableChar == c;
        }
      }
      assert d.gluableChar in GlueChars(ds, keys) by {
        assert ds[keys[0]].gluableChar == d.gluableChar;
      }
      (if d.gluableChar != NO_GLUE && d.required == req then [d.gluableChar] else "") + rest
  }

  /** ` -abc` for required glued flags. */
  function RequiredGlued(keys: seq<ArgId>, ds: seq<Decl>): (r: string)
    requires KeysIn(keys, ds)
    ensures r != "" ==> |r| > 2 && r[..2] == " -" && forall k :: 2 <= k < |r| ==> r[k] in GlueChars(ds, keys)
  {
    var s := GlueString(keys, ds, true);
    if s == "" then "" else " -" + s
  }

  /** ` [-abc]` for optional glued flags. */
  function OptionalGlued(keys: seq<ArgId>, ds: seq<Decl>): (r: string)
    requires KeysIn(keys, ds)
    ensures r != "" ==> |r| > 4 && r[..3] == " [-" && r[|r| - 1] == ']'
    ensures forall k :: 3 <= k < |r| - 1 ==> r[k] in GlueChars(ds, keys)
  {
    var s := GlueString(keys, ds, false);
    if s == "" then "" else " [-" + s + "]"
  }

  /**
   * Parser::synopsis: the command's own synopsis, then each group in
   * order; a named group is shown as ` (name)` and its expansion is put in
   * the table unless the table already has an entry for it.
   */
  function ParserSynopsis(p: Parser, ds: seq<Decl>, t: Table): (r: Rendered)
    requires FitsParser(p, ds)
    ensures Grows(t, r.table)
    ensures forall i :: 0 <= i < |p.groups| && p.groups[i].name != "" ==> p.groups[i].id in r.table
    ensures |r.text| >= |Synopsis(ds[p.cmd])| && r.text[..|Synopsis(ds[p.cmd])|] == Synopsis(ds[p.cmd])
    decreases p, 2
  {
    var Rendered(s, t1) := GroupsSynopsis(p, ds, t, 0);
    Rendered(Synopsis(ds[p.cmd]) + s, t1)
  }

  function GroupsSynopsis(p: Parser, ds: seq<Decl>, t: Table, i: nat): (r: Rendered)
    requires FitsParser(p, ds) && i <= |p.groups|
    ensures Grows(t, r.table)
    ensures forall k :: i <= k < |p.groups| && p.groups[k].name != "" ==> p.groups[k].id in r.table
    decreases p, 1, |p.groups| - i
  {
    if i == |p.groups| then Rendered("", t)
    else
      var Rendered(s, t1) := SynopsisPart(p.groups[i], ds, t);
      var Rendered(rest, t2) := GroupsSynopsis(p, ds, t1, i + 1);
      Rendered(s + rest, t2)
  }

  /**
   * One group's share of Parser::synopsis: an unnamed group's synopsis
   * inline; a named group as ` (name)`, its expansion into the table once.
   */
  function SynopsisPart(g: Group, ds: seq<Decl>, t: Table): (r: Rendered)
    requires FitsGroup(g, ds)
    ensures Grows(t, r.table)
    ensures g.name != "" ==> r.text == " (" + g.name + ")" && g.id in r.table
    ensures g.name != "" && g.id in t ==> r.table == t
    ensures g.name != "" && g.id !in t ==> r.table[g.id] == "(" + g.name + ") :=" + GroupSynopsis(g, ds, t).text
    decreases g, 3
  {
    if g.name == "" then GroupSynopsis(g, ds, t)
    else if g.id in t then Rendered(" (" + g.name + ")", t)
    else
      var Rendered(gs, t') := GroupSynopsis(g, ds, t);
      Rendered(" (" + g.name + ")", t'[g.id := "(" + g.name + ") :=" + gs])
  }

  /**
   * The joining of the child-command parts (the statement that overwrites
   * the first character of the optional part with '|'), applied only when
   * that part is non-empty.
   */
  function JoinCmds(required: string, optional: string): (r: string)
    ensures |r| == |required| + |optional| && r[..|required|] == required
    ensures required == "" || optional == "" ==> r == required + optional
    ensures required != "" && optional != "" ==>
              r[|required|] == '|' && r[|required| + 1..] == optional[1..]
  {
    if required != "" && optional != "" then required + "|" + optional[1..] else required + optional
  }

  /**
   * The same statement as the source writes it: defined only where the
   * optional part has a first character to overwrite.
   */
  function JoinCmdsAsWritten(required: string, optional: string): (r: string)
    requires required != "" ==> optional != ""
    ensures r == JoinCmds(required, optional)
  {
    if required != "" then required + "|" + optional[1..] else optional
  }

  /** ArgGroup::synopsis. */
  function GroupSynopsis(g: Group, ds: seq<Decl>, t: Table): (r: Rendered)
    requires FitsGroup(g, ds)
    ensures Grows(t, r.table)
    decreases g, 2
  {
    var Rendered(req, t1) := RequiredCmds(g, ds, t, 0);
    var Rendered(opt, t2) := OptionalKids(g, ds, t1, 0, "");
    Rendered(JoinCmds(req, CmdsPart(g, opt)) + MembersSynopsis(g, ds), t2)
  }

  /** The optional child commands, bracketed unless the group requires a choice. */
  function CmdsPart(g: Group, joined: string): string {
    if joined == "" then ""
    else if g.optionRequired then " " + joined
    else " [" + joined + "]"
  }

  /** One kind's listed arguments, the required ones first. */
  function KindSynopsis(ids: seq<ArgId>, ds: seq<Decl>): (r: string)
    requires forall k :: 0 <= k < |ids| ==> ids[k] < |ds| && WellFormed(ds[ids[k]])
    ensures r == "" || r[0] == ' '
    ensures r == "" <==> forall k :: 0 <= k < |ids| ==> !Listed(ds[ids[k]])
  {
    var req := Items(ids, ds, true);
    var opt := Items(ids, ds, false);
    assert req + opt == "" <==> req == "" && opt == "";
    req + opt
  }

  /** The flags' part: glued characters first, then the listed flags. */
  function FlagsSynopsis(g: Group, ds: seq<Decl>): (r: string)
    requires FitsGroup(g, ds)
    ensures r == "" || r[0] == ' '
  {
    assert forall k :: 0 <= k < |g.keyAttrs| ==> g.keyAttrs[k] < |ds| && WellFormed(ds[g.keyAttrs[k]]);
    var glued := RequiredGlued(g.keyAttrs, ds) + OptionalGlued(g.keyAttrs, ds);
    assert glued == "" || glued[0] == ' ';
    glued + KindSynopsis(g.keyAttrs, ds)
  }

  /** Everything after the child commands, in the source's fixed order. */
  function MembersSynopsis(g: Group, ds: seq<Decl>): (r: string)
    requires FitsGroup(g, ds)
    ensures r == "" || r[0] == ' '
    ensures r == "" ==> forall k :: 0 <= k < |g.keyValueAttrs| ==> !Listed(ds[g.keyValueAttrs[k]])
    ensures r == "" ==> forall k :: 0 <= k < |g.valueAttrs| ==> !Listed(ds[g.valueAttrs[k]])
  {
    var flags := FlagsSynopsis(g, ds);
    var keyValues := KindSynopsis(g.keyValueAttrs, ds);
    var values := KindSynopsis(g.valueAttrs, ds);
    var r := flags + keyValues + values;
    assert |r| == |flags| + |keyValues| + |values|;
    r
  }

  /** ` ` plus the full synopsis of every required child, from index `i` on. */
  function RequiredCmds(g: Group, ds: seq<Decl>, t: Table, i: nat): (r: Rendered)
    requires FitsGroup(g, ds) && i <= |g.parsers|
    ensures Grows(t, r.table)
    decreases g, 1, |g.parsers| - i
  {
    if i == |g.parsers| then Rendered("", t)
    else
      var c := g.parsers[i];
      if ds[c.cmd].required then
        var Rendered(s, t1) := ParserSynopsis(c, ds, t);
        var Rendered(rest, t2) := RequiredCmds(g, ds, t1, i + 1);
        Rendered(" " + s + rest, t2)
      else
        RequiredCmds(g, ds, t, i + 1)
  }

  /** The full synopses of the optional children from index `i` on, `|`-joined onto `acc`. */
  function OptionalKids(g: Group, ds: seq<Decl>, t: Table, i: nat, acc: string): (r: Rendered)
    requires FitsGroup(g, ds) && i <= |g.parsers|
    ensures Grows(t, r.table)
    ensures acc != "" ==> r.text != ""
    decreases g, 1, |g.parsers| - i
  {
    if i == |g.parsers| then Rendered(acc, t)
    else
      var c := g.parsers[i];
      if ds[c.cmd].required then
        OptionalKids(g, ds, t, i + 1, acc)
      else
        var Rendered(s, t1) := ParserSynopsis(c, ds, t);
        OptionalKids(g, ds, t1, i + 1, Bar(acc, s))
  }

  // ---------------------------------------------------------------------
  // The usage line does not depend on the table

  lemma {:induction false} ParserSynopsisIgnoresTable(p: Parser, ds: seq<Decl>, t1: Table, t2: Table)
    requires FitsParser(p, ds)
    ensures ParserSynopsis(p, ds, t1).text == ParserSynopsis(p, ds, t2).text
    decreases p, 2
  {
    GroupsSynopsisIgnoresTable(p, ds, t1, t2, 0);
  }

  lemma {:induction false} GroupsSynopsisIgnoresTable(p: Parser, ds: seq<Decl>, t1: Table, t2: Table, i: nat)
    requires FitsParser(p, ds) && i <= |p.groups|
    ensures GroupsSynopsis(p, ds, t1, i).text == GroupsSynopsis(p, ds, t2, i).text
    decreases p, 1, |p.groups| - i
  {
    if i < |p.groups| {
      var g := p.groups[i];
      if g.name == "" {
        GroupSynopsisIgnoresTable(g, ds, t1, t2);
      }
      GroupsSynopsisIgnoresTable(p, ds, SynopsisPart(g, ds, t1).table, SynopsisPart(g, ds, t2).table, i + 1);
    }
  }

  lemma {:induction false} GroupSynopsisIgnoresTable(g: Group, ds: seq<Decl>, t1: Table, t2: Table)
    requires FitsGroup(g, ds)
    ensures GroupSynopsis(g, ds, t1).text == GroupSynopsis(g, ds, t2).text
    decreases g, 2
  {
    RequiredCmdsIgnoreTable(g, ds, t1, t2, 0);
    OptionalKidsIgnoreTable(g, ds, RequiredCmds(g, ds, t1, 0).table, RequiredCmds(g, ds, t2, 0).table, 0, "");
  }

  lemma {:induction false} RequiredCmdsIgnoreTable(g: Group, ds: seq<Decl>, t1: Table, t2: Table, i: nat)
    requires FitsGroup(g, ds) && i <= |g.parsers|
    ensures RequiredCmds(g, ds, t1, i).text == RequiredCmds(g, ds, t2, i).text
    decreases g, 1, |g.parsers| - i
  {
    if i < |g.parsers| {
      var c := g.parsers[i];
      if ds[c.cmd].required {
        ParserSynopsisIgnoresTable(c, ds, t1, t2);
        RequiredCmdsIgnoreTable(g, ds, ParserSynopsis(c, ds, t1).table, ParserSynopsis(c, ds, t2).table, i + 1);
      } else {
        RequiredCmdsIgnoreTable(g, ds, t1, t2, i + 1);
      }
    }
  }

  lemma {:induction false} OptionalKidsIgnoreTable(g: Group, ds: seq<Decl>, t1: Table, t2: Table, i: nat, acc: string)
    requires FitsGroup(g, ds) && i <= |g.parsers|
    ensures OptionalKids(g, ds, t1, i, acc).text == OptionalKids(g, ds, t2, i, acc).text
    decreases g, 1, |g.parsers| - i
  {
    if i < |g.parsers| {
      var c := g.parsers[i];
      if ds[c.cmd].required {
        OptionalKidsIgnoreTable(g, ds, t1, t2, i + 1, acc);
      } else {
        ParserSynopsisIgnoresTable(c, ds, t1, t2);
        OptionalKidsIgnoreTable(g, ds, ParserSynopsis(c, ds, t1).table, ParserSynopsis(c, ds, t2).table, i + 1,
                                Bar(acc, ParserSynopsis(c, ds, t1).text));
      }
    }
  }

  /**
   * The entry a named group puts in the synopsis table is its expansion,
   * whatever the table held before: skipping a group already entered loses
   * nothing.
   */
  lemma SynopsisEntryIsExpansion(g: Group, ds: seq<Decl>, t: Table)
    requires FitsGroup(g, ds) && g.name != ""
    ensures var r := SynopsisPart(g, ds, t);
      g.id in r.table && (g.id !in t ==> r.table[g.id] == "(" + g.name + ") :=" + GroupSynopsis(g, ds, map[]).text)
  {
    GroupSynopsisIgnoresTable(g, ds, t, map[]);
  }

  // ---------------------------------------------------------------------
  // Option tables

  /** One row of a group's option table. */
  datatype Entry = Entry(options: string, text: string, required: bool)

  function EntryOf(d: Decl): Entry
    requires WellFormed(d)
  {
    Entry(Options(d), Description(d), d.required)
  }

  function EntriesOf(ids: seq<ArgId>, ds: seq<Decl>): (r: seq<Entry>)
    requires forall k :: 0 <= k < |ids| ==> ids[k] < |ds| && WellFormed(ds[ids[k]])
    ensures |r| == |ids| && forall k :: 0 <= k < |ids| ==> r[k] == EntryOf(ds[ids[k]])
  {
    seq(|ids|, k requires 0 <= k < |ids| => EntryOf(ds[ids[k]]))
  }

  /** The rows of a group: child commands, flags, key-value arguments, positionals. */
  function Entries(g: Group, ds: seq<Decl>): (r: seq<Entry>)
    requires FitsGroup(g, ds)
    ensures |r| == |g.parsers| + |g.keyAttrs| + |g.keyValueAttrs| + |g.valueAttrs|
    ensures forall k :: 0 <= k < |g.parsers| ==> r[k] == EntryOf(ds[g.parsers[k].cmd])
  {
    assert forall k :: 0 <= k < |g.keyAttrs| ==> g.keyAttrs[k] < |ds| && WellFormed(ds[g.keyAttrs[k]]);
    assert forall k :: 0 <= k < |g.valueAttrs| ==> g.valueAttrs[k] < |ds| && WellFormed(ds[g.valueAttrs[k]]);
    var cmds := EntriesOf(seq(|g.parsers|, k requires 0 <= k < |g.parsers| => g.parsers[k].cmd), ds);
    var members := EntriesOf(g.keyAttrs, ds) + EntriesOf(g.keyValueAttrs, ds);
    var values := EntriesOf(g.valueAttrs, ds);
    assert forall k :: 0 <= k < |g.parsers| ==> (cmds + members + values)[k] == cmds[k];
    cmds + members + values
  }

  /** maxWide: the widest options column of the rows. */
  function MaxWidth(es: seq<Entry>): (w: nat)
    ensures forall k :: 0 <= k < |es| ==> |es[k].options| <= w
    ensures w == 0 || exists k :: 0 <= k < |es| && |es[k].options| == w
  {
    if |es| == 0 then 0
    else
      var w' := MaxWidth(es[1..]);
      assert forall k :: 1 <= k < |es| ==> es[k] == es[1..][k - 1];
      if |es[0].options| > w' then |es[0].options|
      else
        assert w' == 0 || exists k :: 1 <= k < |es| && |es[k].options| == w' by {
          if w' != 0 {
            var k :| 0 <= k < |es[1..]| && |es[1..][k].options| == w';
            assert es[k + 1] == es[1..][k];
          }
        }
        w'
  }

  function Spaces(n: nat): (r: string)
    ensures |r| == n && forall k :: 0 <= k < n ==> r[k] == ' '
  {
    if n == 0 then "" else " " + Spaces(n - 1)
  }

  /** A row rendered at width `w`: options, padding to column `w`, ` - `, text, newline. */
  function Line(e: Entry, w: nat): (r: string)
    requires |e.options| <= w
    ensures |r| == w + 3 + |e.text| + 1
    ensures r[..|e.options|] == e.options
    ensures forall k :: |e.options| <= k < w ==> r[k] == ' '
    ensures r[w..w + 3] == " - " && r[w + 3..|r| - 1] == e.text && r[|r| - 1] == '\n'
  {
    e.options + Spaces(w - |e.options|) + " - " + e.text + "\n"
  }

  /** The rows of `es` whose `required` is `req`, each rendered at width `w`. */
  function Lines(es: seq<Entry>, w: nat, req: bool): (r: string)
    requires forall k :: 0 <= k < |es| ==> |es[k].options| <= w
    ensures r == "" <==> forall k :: 0 <= k < |es| ==> es[k].required != req
    ensures r != "" ==> r[|r| - 1] == '\n'
  {
    if |es| == 0 then ""
    else
      var rest := Lines(es[1..], w, req);
      assert forall k :: 1 <= k < |es| ==> es[k] == es[1..][k - 1];
      (if es[0].required == req then Line(es[0], w) else "") + rest
  }

  /**
   * ArgGroup::description: the required rows, then the optional rows, all
   * aligned on the widest options column, then the descriptions of the
   * child commands.
   */
  function GroupDescription(g: Group, ds: seq<Decl>, t: Table): (r: Rendered)
    requires FitsGroup(g, ds)
    ensures Grows(t, r.table)
    decreases g, 2
  {
    var es := Entries(g, ds);
    var w := MaxWidth(es);
    var Rendered(kids, t1) := KidsDescription(g, ds, t, 0);
    Rendered(Lines(es, w, true) + Lines(es, w, false) + kids, t1)
  }

  function KidsDescription(g: Group, ds: seq<Decl>, t: Table, i: nat): (r: Rendered)
    requires FitsGroup(g, ds) && i <= |g.parsers|
    ensures Grows(t, r.table)
    decreases g, 1, |g.parsers| - i
  {
    if i == |g.parsers| then Rendered("", t)
    else
      var Rendered(s, t1) := ParserDescription(g.parsers[i], ds, t);
      var Rendered(rest, t2) := KidsDescription(g, ds, t1, i + 1);
      Rendered(s + rest, t2)
  }

  /** The heading Parser::description puts above a non-empty text. */
  function OptionsHeading(p: Parser, ds: seq<Decl>): string
    requires FitsParser(p, ds)
  {
    Synopsis(ds[p.cmd]) + " options:\n"
  }

  /**
   * Parser::description: the texts of the unnamed groups under a heading,
   * or "" when they are all empty; named groups go to the table once.
   */
  function ParserDescription(p: Parser, ds: seq<Decl>, t: Table): (r: Rendered)
    requires FitsParser(p, ds)
    ensures Grows(t, r.table)
    ensures forall i :: 0 <= i < |p.groups| && p.groups[i].name != "" ==> p.groups[i].id in r.table
    ensures r.text == "" <==> GroupsDescription(p, ds, t, 0).text == ""
    ensures r.text != "" ==> |r.text| > |OptionsHeading(p, ds)| && r.text[..|OptionsHeading(p, ds)|] == OptionsHeading(p, ds)
    decreases p, 2
  {
    var Rendered(s, t1) := GroupsDescription(p, ds, t, 0);
    Rendered(if s != "" then OptionsHeading(p, ds) + s else "", t1)
  }

  function GroupsDescription(p: Parser, ds: seq<Decl>, t: Table, i: nat): (r: Rendered)
    requires FitsParser(p, ds) && i <= |p.groups|
    ensures Grows(t, r.table)
    ensures forall k :: i <= k < |p.groups| && p.groups[k].name != "" ==> p.groups[k].id in r.table
    decreases p, 1, |p.groups| - i
  {
    if i == |p.groups| then Rendered("", t)
    else
      var Rendered(s, t1) := GroupPart(p.groups[i], ds, t);
      var Rendered(rest, t2) := GroupsDescription(p, ds, t1, i + 1);
      Rendered(s + rest, t2)
  }

  /**
   * One group's share of Parser::description: an unnamed group's text
   * inline; a named group's paragraph into the table, once.
   */
  function GroupPart(g: Group, ds: seq<Decl>, t: Table): (r: Rendered)
    requires FitsGroup(g, ds)
    ensures Grows(t, r.table)
    ensures g.name != "" ==> r.text == "" && g.id in r.table
    ensures g.name != "" && g.id in t ==> r.table == t
    decreases g, 3
  {
    if g.name == "" then GroupDescription(g, ds, t)
    else if g.id in t then Rendered("", t)
    else
      var Rendered(gd, t') := GroupDescription(g, ds, t);
      Rendered("", t'[g.id := "(" + g.name + "):\n" + gd])
  }

  // ---------------------------------------------------------------------
  // The description does not depend on the table

  lemma {:induction false} ParserDescriptionIgnoresTable(p: Parser, ds: seq<Decl>, t1: Table, t2: Table)
    requires FitsParser(p, ds)
    ensures ParserDescription(p, ds, t1).text == ParserDescription(p, ds, t2).text
    decreases p, 2
  {
    GroupsDescriptionIgnoresTable(p, ds, t1, t2, 0);
  }

  lemma {:induction false} GroupsDescriptionIgnoresTable(p: Parser, ds: seq<Decl>, t1: Table, t2: Table, i: nat)
    requires FitsParser(p, ds) && i <= |p.groups|
    ensures GroupsDescription(p, ds, t1, i).text == GroupsDescription(p, ds, t2, i).text
    decreases p, 1, |p.groups| - i
  {
    if i < |p.groups| {
      var g := p.groups[i];
      if g.name == "" {
        GroupDescriptionIgnoresTable(g, ds, t1, t2);
      }
      GroupsDescriptionIgnoresTable(p, ds, GroupPart(g, ds, t1).table, GroupPart(g, ds, t2).table, i + 1);
    }
  }

  lemma {:induction false} GroupDescriptionIgnoresTable(g: Group, ds: seq<Decl>, t1: Table, t2: Table)
    requires FitsGroup(g, ds)
    ensures GroupDescription(g, ds, t1).text == GroupDescription(g, ds, t2).text
    decreases g, 2
  {
    KidsDescriptionIgnoreTable(g, ds, t1, t2, 0);
  }

  lemma {:induction false} KidsDescriptionIgnoreTable(g: Group, ds: seq<Decl>, t1: Table, t2: Table, i: nat)
    requires FitsGroup(g, ds) && i <= |g.parsers|
    ensures KidsDescription(g, ds, t1, i).text == KidsDescription(g, ds, t2, i).text
    decreases g, 1, |g.parsers| - i
  {
    if i < |g.parsers| {
      var c := g.parsers[i];
      ParserDescriptionIgnoresTable(c, ds, t1, t2);
      KidsDescriptionIgnoreTable(g, ds, ParserDescription(c, ds, t1).table, ParserDescription(c, ds, t2).table, i + 1);
    }
  }

  /**
   * The paragraph a named group puts in the description table is its
   * description, whatever the table held before.
   */
  lemma DescriptionEntryIsExpansion(g: Group, ds: seq<Decl>, t: Table)
    requires FitsGroup(g, ds) && g.name != ""
    ensures var r := GroupPart(g, ds, t);
      && g.id in r.table
      && (g.id !in t ==> r.table[g.id] == "(" + g.name + "):\n" + GroupDescription(g, ds, t).text)
      && (g.id !in t ==> r.table[g.id] == "(" + g.name + "):\n" + GroupDescription(g, ds, map[]).text)
  {
    GroupDescriptionIgnoresTable(g, ds, t, map[]);
  }

  // ---------------------------------------------------------------------
  // Properties of the help text

  /**
   * A group with a required child command and no optional one reaches the
   * joining statement with a non-empty required part and an empty optional
   * part: the case outside the domain of JoinCmdsAsWritten.
   */
  lemma JoinCmdsAsWrittenUndefined()
    ensures var ds := [KeyDecl("", true, ["status"], NO_GLUE)];
            var g := Group(0, "", false, [Parser(0, [])], [], [], []);
            var Rendered(req, t1) := RequiredCmds(g, ds, map[], 0);
            var opt := CmdsPart(g, OptionalKids(g, ds, t1, 0, "").text);
            FitsGroup(g, ds) && req == " status" && opt == "" &&
            JoinCmds(req, opt) == " status"
  {
    var ds := [KeyDecl("", true, ["status"], NO_GLUE)];
    var c := Parser(0, []);
    var g := Group(0, "", false, [c], [], [], []);
    assert FitsParser(c, ds);
    assert ParserSynopsis(c, ds, map[]).text == "status" by {
      assert GroupsSynopsis(c, ds, map[], 0).text == "";
    }
  }

  /** The length of the rows of `es` at width `w`, each counted once. */
  function RowsLength(es: seq<Entry>, w: nat): nat {
    if |es| == 0 then 0 else w + 4 + |es[0].text| + RowsLength(es[1..], w)
  }

  /**
   * Every row is rendered exactly once, in one of the two blocks, and every
   * rendered row is `w + 4` characters plus its text.
   */
  lemma {:induction false} EveryRowOnce(es: seq<Entry>, w: nat)
    requires forall k :: 0 <= k < |es| ==> |es[k].options| <= w
    ensures |Lines(es, w, true)| + |Lines(es, w, false)| == RowsLength(es, w)
  {
    if |es| > 0 {
      EveryRowOnce(es[1..], w);
    }
  }
}
