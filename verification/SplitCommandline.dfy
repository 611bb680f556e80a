/** cmdutils.c: split_commandline, which sorts the arguments of a program into
    global options and groups of per-file options, each group closed by a
    separator such as -i or by a bare file name.

    `Parse` reads the arguments as a sequence of items; the class runs the
    source's loop on its own fields, and is proved to hold afterwards what
    `Collect` makes of those items. AVOptions are decided by an oracle. */
module SplitCommandline {
  import opened Options

  // exits: OPT_EXIT. perFile: any of OPT_PERFILE, OPT_SPEC and OPT_OFFSET.
  datatype OptionDef = OptionDef(name: string, hasArg: bool, isBool: bool, exits: bool, perFile: bool)

  // What opt_default says of an option and the argument after it.
  datatype AvResult = Accepted | NotFound | Rejected

  // separators[g] is the name that closes groups of definition g, if it has one.
  datatype Config = Config(options: seq<OptionDef>, separators: seq<Option<string>>, avOption: (string, string) -> AvResult)

  // ----- Looking names up

  // find_option compares up to the first colon.
  function BaseName(opt: string): string {
    if opt == [] || opt[0] == ':' then [] else [opt[0]] + BaseName(opt[1..])
  }

  function FindOption(options: seq<OptionDef>, opt: string): Option<OptionDef> {
    if options == [] then None
    else if options[0].name == BaseName(opt) then Some(options[0])
    else FindOption(options[1..], opt)
  }

  lemma {:induction false} BaseNameEndsAtColon(opt: string)
    ensures BaseName(opt) <= opt && ':' !in BaseName(opt)
    ensures |BaseName(opt)| < |opt| ==> opt[|BaseName(opt)|] == ':'
  {
    if opt != [] && opt[0] != ':' {
      BaseNameEndsAtColon(opt[1..]);
    }
  }

  // The first option of that name, or there is none.
  lemma {:induction false} FindOptionIsFirst(options: seq<OptionDef>, opt: string)
    ensures match FindOption(options, opt)
      case Some(def) =>
        exists k :: 0 <= k < |options| && options[k] == def && def.name == BaseName(opt)
                    && forall j :: 0 <= j < k ==> options[j].name != BaseName(opt)
      case None => forall k :: 0 <= k < |options| ==> options[k].name != BaseName(opt)
  {
    if options != [] && options[0].name != BaseName(opt) {
      FindOptionIsFirst(options[1..], opt);
      assert options == [options[0]] + options[1..];
      var found := FindOption(options[1..], opt);
      if found.Some? {
        var k :| 0 <= k < |options[1..]| && options[1..][k] == found.value && found.value.name == BaseName(opt)
                 && forall j :: 0 <= j < k ==> options[1..][j].name != BaseName(opt);
        assert options[k + 1] == found.value;
        assert forall j :: 0 < j < k + 1 ==> options[j] == options[1..][j - 1];
      }
    }
  }

  function MatchSeparator(separators: seq<Option<string>>, opt: string, from: nat): (g: Option<nat>)
    ensures g.Some? ==> from <= g.value < |separators| && separators[g.value] == Some(opt)
    ensures forall k :: from <= k < (if g.Some? then g.value else |separators|) ==> separators[k] != Some(opt)
    decreases |separators| - from
  {
    if from >= |separators| then None
    else if separators[from] == Some(opt) then Some(from)
    else MatchSeparator(separators, opt, from + 1)
  }

  // ----- The arguments as items

  // value is None for an exit option that ends the command line.
  datatype Item =
    | DashDash
    | File(name: string)
    | Separator(group: nat, opt: string, arg: string)
    | Opt(def: OptionDef, key: string, value: Option<string>)
    | AvOption(key: string, val: string)
    | NoOption(def: OptionDef, key: string)

  // The arguments an item stands for.
  function Spelled(item: Item): seq<string> {
    match item
    case DashDash => ["--"]
    case File(name) => [name]
    case Separator(_, opt, arg) => ["-" + opt, arg]
    case Opt(def, key, value) =>
      if value.Some? && (def.exits || def.hasArg) then ["-" + key, value.value] else ["-" + key]
    case AvOption(key, val) => ["-" + key, val]
    case NoOption(_, key) => ["-" + key]
  }

  datatype Error = MissingArgument(opt: string) | BadArgument(opt: string) | Unrecognized(opt: string)

  datatype Read = Ok(item: Item) | Fail(error: Error)

  // The item that begins at argv[i]; literal when "--" came just before it.
  function ReadItem(c: Config, argv: seq<string>, i: nat, literal: bool): Read
    requires i < |argv|
  {
    var arg, next := argv[i], if i + 1 < |argv| then Some(argv[i + 1]) else None;
    if arg == "--" then Ok(DashDash)
    else if |arg| == 0 || arg[0] != '-' || |arg| == 1 || literal then Ok(File(arg))
    else
      var opt := arg[1..];
      var separator := MatchSeparator(c.separators, opt, 0);
      var def := FindOption(c.options, opt);
      if separator.Some? then
        if next.Some? then Ok(Separator(separator.value, opt, next.value)) else Fail(MissingArgument(opt))
      else if def.Some? then
        if def.value.exits then Ok(Opt(def.value, opt, next))
        else if !def.value.hasArg then Ok(Opt(def.value, opt, Some("1")))
        else if next.Some? then Ok(Opt(def.value, opt, next))
        else Fail(MissingArgument(opt))
      else if next.Some? && c.avOption(opt, next.value) == Accepted then Ok(AvOption(opt, next.value))
      else if next.Some? && c.avOption(opt, next.value) == Rejected then Fail(BadArgument(opt))
      else ReadNoOption(c, opt)
  }

  // Boolean -nofoo options.
  function ReadNoOption(c: Config, opt: string): Read {
    var def := if "no" <= opt then FindOption(c.options, opt[2..]) else None;
    if def.Some? && def.value.isBool then Ok(NoOption(def.value, opt)) else Fail(Unrecognized(opt))
  }

  datatype Result = Items(items: seq<Item>) | Failed(error: Error)

  function Parse(c: Config, argv: seq<string>, i: nat, literal: bool): Result
    decreases |argv| - i
  {
    if i >= |argv| then Items([])
    else
      match ReadItem(c, argv, i, literal)
      case Fail(error) => Failed(error)
      case Ok(item) =>
        match Parse(c, argv, i + |Spelled(item)|, item.DashDash?)
        case Failed(error) => Failed(error)
        case Items(items) => Items([item] + items)
  }

  function SpelledAll(items: seq<Item>): seq<string> {
    if items == [] then [] else Spelled(items[0]) + SpelledAll(items[1..])
  }

  lemma ReadItemSpells(c: Config, argv: seq<string>, i: nat, literal: bool)
    requires i < |argv| && ReadItem(c, argv, i, literal).Ok?
    ensures Spelled(ReadItem(c, argv, i, literal).item) <= argv[i..]
  {
    var arg := argv[i];
    if |arg| > 1 && arg[0] == '-' {
      assert arg == "-" + arg[1..];
    }
  }

  // Every argument is accounted for exactly once, in order.
  lemma {:induction false} ItemsSpellTheArguments(c: Config, argv: seq<string>, i: nat, literal: bool)
    requires i <= |argv| && Parse(c, argv, i, literal).Items?
    ensures SpelledAll(Parse(c, argv, i, literal).items) == argv[i..]
    decreases |argv| - i
  {
    hide ReadItem;
    if i < |argv| {
      ReadItemSpells(c, argv, i, literal);
      hide Spelled;
      var item := ReadItem(c, argv, i, literal).item;
      ItemsSpellTheArguments(c, argv, i + |Spelled(item)|, item.DashDash?);
      assert argv[i..] == Spelled(item) + argv[i + |Spelled(item)|..];
      var rest := Parse(c, argv, i + |Spelled(item)|, item.DashDash?).items;
      assert Parse(c, argv, i, literal).items == [item] + rest;
      assert SpelledAll([item] + rest) == Spelled(item) + SpelledAll(rest);
    }
  }

  // ----- Collecting the items

  // An option with the value it was given.
  datatype Setting = Setting(def: OptionDef, key: string, val: Option<string>)

  // av holds the AVOptions of the group, kept in the dictionaries of the source.
  datatype Group = Group(arg: string, opts: seq<Setting>, av: seq<(string, string)>)

  datatype Context = Context(groups: seq<seq<Group>>, cur: seq<Setting>, av: seq<(string, string)>, global: seq<Setting>)

  function Close(x: Context, g: nat, arg: string): Context
    requires g < |x.groups|
  {
    Context(x.groups[g := x.groups[g] + [Group(arg, x.cur, x.av)]], [], [], x.global)
  }

  function AddOpt(x: Context, s: Setting): Context {
    if s.def.perFile then x.(cur := x.cur + [s]) else x.(global := x.global + [s])
  }

  function Add(x: Context, item: Item): Context
    requires (item.File? ==> 0 < |x.groups|) && (item.Separator? ==> item.group < |x.groups|)
  {
    match item
    case DashDash => x
    case File(name) => Close(x, 0, name)
    case Separator(g, _, arg) => Close(x, g, arg)
    case Opt(def, key, value) => AddOpt(x, Setting(def, key, value))
    case AvOption(key, val) => x.(av := x.av + [(key, val)])
    case NoOption(def, key) => AddOpt(x, Setting(def, key, Some("0")))
  }

  // Groups exist for every item that closes one.
  ghost predicate Closable(items: seq<Item>, n: nat) {
    forall k :: 0 <= k < |items| ==> (items[k].File? ==> 0 < n) && (items[k].Separator? ==> items[k].group < n)
  }

  function Collect(items: seq<Item>, n: nat): (x: Context)
    requires Closable(items, n)
    ensures |x.groups| == n
  {
    if items == [] then Context(seq(n, _ => []), [], [], [])
    else Add(Collect(items[..|items| - 1], n), items[|items| - 1])
  }

  // ----- Where everything ends up

  predicate Closes(item: Item) { item.File? || item.Separator? }

  // The group definition a closing item belongs to, and its argument.
  function GroupOf(item: Item): nat
    requires Closes(item)
  {
    if item.File? then 0 else item.group
  }

  function ArgOf(item: Item): string
    requires Closes(item)
  {
    if item.File? then item.name else item.arg
  }

  function SettingOf(item: Item): Option<Setting> {
    match item
    case Opt(def, key, value) => Some(Setting(def, key, value))
    case NoOption(def, key) => Some(Setting(def, key, Some("0")))
    case _ => None
  }

  // The per-file settings of some items, in order, and their global ones.
  function PerFile(items: seq<Item>): seq<Setting> {
    if items == [] then []
    else
      var s := SettingOf(items[|items| - 1]);
      PerFile(items[..|items| - 1]) + if s.Some? && s.value.def.perFile then [s.value] else []
  }

  function Global(items: seq<Item>): seq<Setting> {
    if items == [] then []
    else
      var s := SettingOf(items[|items| - 1]);
      Global(items[..|items| - 1]) + if s.Some? && !s.value.def.perFile then [s.value] else []
  }

  function AvOptions(items: seq<Item>): seq<(string, string)> {
    if items == [] then []
    else
      var item := items[|items| - 1];
      AvOptions(items[..|items| - 1]) + if item.AvOption? then [(item.key, item.val)] else []
  }

  // Where the items after the last closing one begin.
  function OpenFrom(items: seq<Item>): (k: nat)
    ensures k <= |items|
    ensures k > 0 ==> Closes(items[k - 1])
    ensures forall i :: k <= i < |items| ==> !Closes(items[i])
  {
    if items == [] || Closes(items[|items| - 1]) then |items| else OpenFrom(items[..|items| - 1])
  }

  // The positions of the items that close groups of definition g.
  function ClosingsOf(items: seq<Item>, g: nat): (ps: seq<nat>)
    ensures forall m :: 0 <= m < |ps| ==> ps[m] < |items| && Closes(items[ps[m]]) && GroupOf(items[ps[m]]) == g
    ensures forall m, n :: 0 <= m < n < |ps| ==> ps[m] < ps[n]
    ensures forall p :: 0 <= p < |items| && Closes(items[p]) && GroupOf(items[p]) == g ==> p in ps
  {
    if items == [] then []
    else
      var last := |items| - 1;
      ClosingsOf(items[..last], g) + if Closes(items[last]) && GroupOf(items[last]) == g then [last] else []
  }

  // The group closed at p: the settings between the closing item before p and p.
  function GroupAt(items: seq<Item>, p: nat): Group
    requires p < |items| && Closes(items[p])
  {
    var open := items[OpenFrom(items[..p])..p];
    Group(ArgOf(items[p]), PerFile(open), AvOptions(open))
  }

  // What a context holds, said of the whole sequence of items.
  ghost predicate Holds(x: Context, items: seq<Item>) {
    && x.global == Global(items)
    && x.cur == PerFile(items[OpenFrom(items)..])
    && x.av == AvOptions(items[OpenFrom(items)..])
    && (forall g :: 0 <= g < |x.groups| ==> GroupHolds(x, items, g))
  }

  // The m-th group of a definition is the one its m-th closing item closed.
  ghost predicate GroupHolds(x: Context, items: seq<Item>, g: nat)
    requires g < |x.groups|
  {
    var ps := ClosingsOf(items, g);
    |x.groups[g]| == |ps| && forall m :: 0 <= m < |ps| ==> x.groups[g][m] == GroupAt(items, ps[m])
  }

  lemma Appended(items: seq<Item>, item: Item)
    ensures var s := SettingOf(item);
      && PerFile(items + [item]) == PerFile(items) + (if s.Some? && s.value.def.perFile then [s.value] else [])
      && Global(items + [item]) == Global(items) + (if s.Some? && !s.value.def.perFile then [s.value] else [])
      && AvOptions(items + [item]) == AvOptions(items) + (if item.AvOption? then [(item.key, item.val)] else [])
      && OpenFrom(items + [item]) == (if Closes(item) then |items| + 1 else OpenFrom(items))
  {
    assert (items + [item])[..|items|] == items;
  }

  lemma AddKeepsOpen(x: Context, items: seq<Item>, item: Item)
    requires x.global == Global(items)
    requires x.cur == PerFile(items[OpenFrom(items)..]) && x.av == AvOptions(items[OpenFrom(items)..])
    requires (item.File? ==> 0 < |x.groups|) && (item.Separator? ==> item.group < |x.groups|)
    ensures var y, more := Add(x, item), items + [item];
      && y.global == Global(more)
      && y.cur == PerFile(more[OpenFrom(more)..]) && y.av == AvOptions(more[OpenFrom(more)..])
  {
    hide OpenFrom, PerFile, Global, AvOptions;
    var more, k := items + [item], OpenFrom(items);
    Appended(items, item);
    if Closes(item) {
      Nothing();
      assert more[OpenFrom(more)..] == [];
    } else {
      Appended(items[k..], item);
      assert more[OpenFrom(more)..] == items[k..] + [item];
    }
  }

  lemma Nothing()
    ensures PerFile([]) == [] && AvOptions([]) == []
  {
  }

  lemma GroupAtPrefix(items: seq<Item>, item: Item, p: nat)
    requires p < |items| && Closes(items[p])
    ensures GroupAt(items + [item], p) == GroupAt(items, p)
  {
    assert (items + [item])[..p] == items[..p];
    var k := OpenFrom(items[..p]);
    assert (items + [item])[k..p] == items[k..p];
  }

  lemma AddKeepsGroups(x: Context, items: seq<Item>, item: Item, g: nat)
    requires g < |x.groups| && GroupHolds(x, items, g)
    requires x.cur == PerFile(items[OpenFrom(items)..]) && x.av == AvOptions(items[OpenFrom(items)..])
    requires (item.File? ==> 0 < |x.groups|) && (item.Separator? ==> item.group < |x.groups|)
    ensures GroupHolds(Add(x, item), items + [item], g)
  {
    hide ClosingsOf, GroupAt, PerFile, AvOptions, Global, OpenFrom, SettingOf;
    var ps, more := ClosingsOf(items, g), items + [item];
    ClosingsAppend(items, item, g);
    forall m | 0 <= m < |ps| ensures GroupAt(more, ps[m]) == GroupAt(items, ps[m]) {
      GroupAtPrefix(items, item, ps[m]);
    }
    if Closes(item) {
      GroupAtLast(x, items, item);
    }
  }

  lemma ClosingsAppend(items: seq<Item>, item: Item, g: nat)
    ensures ClosingsOf(items + [item], g) ==
            ClosingsOf(items, g) + if Closes(item) && GroupOf(item) == g then [|items|] else []
  {
    assert (items + [item])[..|items|] == items;
  }

  lemma GroupAtLast(x: Context, items: seq<Item>, item: Item)
    requires Closes(item)
    requires x.cur == PerFile(items[OpenFrom(items)..]) && x.av == AvOptions(items[OpenFrom(items)..])
    ensures GroupAt(items + [item], |items|) == Group(ArgOf(item), x.cur, x.av)
  {
    var more, k := items + [item], OpenFrom(items);
    assert more[..|items|] == items;
    assert more[k..|items|] == items[k..];
  }

  lemma AddKeepsHolds(x: Context, items: seq<Item>, item: Item)
    requires Holds(x, items)
    requires (item.File? ==> 0 < |x.groups|) && (item.Separator? ==> item.group < |x.groups|)
    ensures |Add(x, item).groups| == |x.groups| && Holds(Add(x, item), items + [item])
  {
    hide PerFile, Global, AvOptions, OpenFrom, GroupHolds;
    AddKeepsOpen(x, items, item);
    forall g | 0 <= g < |x.groups| ensures GroupHolds(Add(x, item), items + [item], g) {
      AddKeepsGroups(x, items, item, g);
    }
  }

  lemma {:induction false} CollectHolds(items: seq<Item>, n: nat)
    requires Closable(items, n)
    ensures Holds(Collect(items, n), items)
  {
    if items == [] {
      NothingHolds(n);
    } else {
      hide Holds, Add;
      var init, item := items[..|items| - 1], items[|items| - 1];
      assert items == init + [item];
      CollectHolds(init, n);
      AddKeepsHolds(Collect(init, n), init, item);
    }
  }

  lemma NothingHolds(n: nat)
    ensures Holds(Collect([], n), [])
  {
  }

  // ----- The source's loop

  class OptionParseContext {
    var groups: seq<seq<Group>>
    var curOpts: seq<Setting>
    var avOpts: seq<(string, string)>   // codec_opts, format_opts and the other dictionaries
    var globalOpts: seq<Setting>

    ghost function Value(): Context
      reads this
    {
      Context(groups, curOpts, avOpts, globalOpts)
    }

    // init_parse_context
    constructor (nbGroups: nat)
      ensures Value() == Collect([], nbGroups)
    {
      groups, curOpts, avOpts, globalOpts := seq(nbGroups, _ => []), [], [], [];
    }

    method FinishGroup(g: nat, arg: string)
      requires g < |groups|
      modifies this
      ensures Value() == Close(old(Value()), g, arg)
    {
      groups := groups[g := groups[g] + [Group(arg, curOpts, avOpts)]];
      avOpts, curOpts := [], [];
    }

    method AddOption(def: OptionDef, key: string, val: Option<string>)
      modifies this
      ensures Value() == AddOpt(old(Value()), Setting(def, key, val))
    {
      if !def.perFile {
        globalOpts := globalOpts + [Setting(def, key, val)];
      } else {
        curOpts := curOpts + [Setting(def, key, val)];
      }
    }

    // One turn of the loop, from argv[i] on.
    method Take(c: Config, argv: seq<string>, i: nat, dashdash: int) returns (failed: Option<Error>, next: nat, dashdash': int)
      requires i < |argv| && |groups| == |c.separators| > 0
      modifies this
      ensures match ReadItem(c, argv, i, dashdash == i)
        case Fail(error) => failed == Some(error)
        case Ok(item) =>
          && failed == None && next == i + |Spelled(item)|
          && (item.Separator? ==> item.group < |old(groups)|)
          && Value() == Add(old(Value()), item)
          && (if item.DashDash? then dashdash' == next else dashdash' == dashdash)
      ensures |groups| == |c.separators|
    {
      failed, next, dashdash' := None, i + 1, dashdash;
      var arg := argv[i];
      if arg == "--" {
        dashdash' := next;
        return;
      }
      if |arg| == 0 || arg[0] != '-' || |arg| == 1 || dashdash + 1 == next {
        FinishGroup(0, arg);
        return;
      }
      var opt := arg[1..];
      var ret := MatchSeparator(c.separators, opt, 0);
      if ret.Some? {
        if next >= |argv| {
          return Some(MissingArgument(opt)), next, dashdash;
        }
        FinishGroup(ret.value, argv[next]);
        next := next + 1;
        return;
      }
      var po := FindOption(c.options, opt);
      if po.Some? {
        if po.value.exits {
          if next < |argv| {
            AddOption(po.value, opt, Some(argv[next]));
            next := next + 1;
          } else {
            AddOption(po.value, opt, None);
          }
        } else if po.value.hasArg {
          if next >= |argv| {
            return Some(MissingArgument(opt)), next, dashdash;
          }
          AddOption(po.value, opt, Some(argv[next]));
          next := next + 1;
        } else {
          AddOption(po.value, opt, Some("1"));
        }
        return;
      }
      if next < |argv| {
        var av := c.avOption(opt, argv[next]);
        if av == Accepted {
          avOpts := avOpts + [(opt, argv[next])];
          next := next + 1;
          return;
        } else if av == Rejected {
          return Some(BadArgument(opt)), next, dashdash;
        }
      }
      if "no" <= opt {
        po := FindOption(c.options, opt[2..]);
        if po.Some? && po.value.isBool {
          AddOption(po.value, opt, Some("0"));
          return;
        }
      }
      return Some(Unrecognized(opt)), next, dashdash;
    }

    // The loop. The items it read are returned for the specification only.
    method Split(c: Config, argv: seq<string>) returns (failed: Option<Error>, ghost items: seq<Item>)
      requires argv != [] && Value() == Collect([], |c.separators|) && c.separators != []
      modifies this
      ensures match Parse(c, argv, 1, false)
        case Failed(error) => failed == Some(error)
        case Items(all) => failed == None && items == all && Closable(items, |c.separators|) && Value() == Collect(items, |c.separators|)
    {
      hide ReadItem, Spelled, Add, Parse, Collect, Closable, Resume;
      var optindex, dashdash := 1, -2;
      items := [];
      NothingRead(Parse(c, argv, 1, false), |c.separators|);
      while optindex < |argv|
        invariant 1 <= optindex && dashdash <= optindex && |groups| == |c.separators|
        invariant Closable(items, |c.separators|) && Value() == Collect(items, |c.separators|)
        invariant Parse(c, argv, 1, false) == Resume(items, Parse(c, argv, optindex, dashdash == optindex))
        decreases |argv| - optindex
      {
        SpelledSomething(ReadItem(c, argv, optindex, dashdash == optindex));
        ParseStep(c, argv, items, optindex, dashdash == optindex);
        ghost var item := ReadItem(c, argv, optindex, dashdash == optindex);
        failed, optindex, dashdash := Take(c, argv, optindex, dashdash);
        if failed.Some? {
          return;
        }
        CollectStep(items, item.item, |c.separators|);
        items := items + [item.item];
      }
      ParseEnd(c, argv, items, optindex, dashdash == optindex);
      failed := None;
    }
  }

  // What is parsed when these items were read first.
  function Resume(items: seq<Item>, rest: Result): Result {
    match rest
    case Failed(error) => rest
    case Items(more) => Items(items + more)
  }

  lemma ParseStep(c: Config, argv: seq<string>, items: seq<Item>, i: nat, literal: bool)
    requires i < |argv|
    ensures Resume(items, Parse(c, argv, i, literal)) ==
      match ReadItem(c, argv, i, literal)
      case Fail(error) => Failed(error)
      case Ok(item) => Resume(items + [item], Parse(c, argv, i + |Spelled(item)|, item.DashDash?))
  {
    hide ReadItem, Spelled;
    var read := ReadItem(c, argv, i, literal);
    if read.Ok? {
      var rest := Parse(c, argv, i + |Spelled(read.item)|, read.item.DashDash?);
      if rest.Items? {
        assert items + ([read.item] + rest.items) == (items + [read.item]) + rest.items;
      }
    }
  }

  lemma SpelledSomething(read: Read)
    ensures read.Ok? ==> |Spelled(read.item)| >= 1
  {
  }

  lemma ParseEnd(c: Config, argv: seq<string>, items: seq<Item>, i: nat, literal: bool)
    requires i >= |argv|
    ensures Resume(items, Parse(c, argv, i, literal)) == Items(items)
  {
    assert items + [] == items;
  }

  lemma NothingRead(rest: Result, n: nat)
    ensures Resume([], rest) == rest && Closable([], n)
  {
    ResumeNothing(rest);
  }

  lemma CollectStep(items: seq<Item>, item: Item, n: nat)
    requires Closable(items, n) && (item.File? ==> 0 < n) && (item.Separator? ==> item.group < n)
    ensures Closable(items + [item], n)
    ensures |Collect(items, n).groups| == n && Collect(items + [item], n) == Add(Collect(items, n), item)
  {
    assert (items + [item])[..|items|] == items;
  }

  // ----- What split_commandline promises

  // On success every argument after the program name is spelled exactly once,
  // and the context holds every setting in the group the arguments put it in.
  lemma ArgumentsAreSorted(c: Config, argv: seq<string>, items: seq<Item>)
    requires argv != [] && c.separators != [] && Parse(c, argv, 1, false) == Items(items)
    ensures SpelledAll(items) == argv[1..]
    ensures Closable(items, |c.separators|) && Holds(Collect(items, |c.separators|), items)
  {
    ItemsSpellTheArguments(c, argv, 1, false);
    ParsedIsClosable(c, argv, 1, false);
    CollectHolds(items, |c.separators|);
  }

  lemma {:induction false} ParsedIsClosable(c: Config, argv: seq<string>, i: nat, literal: bool)
    requires c.separators != [] && Parse(c, argv, i, literal).Items?
    ensures Closable(Parse(c, argv, i, literal).items, |c.separators|)
    decreases |argv| - i
  {
    if i < |argv| {
      hide ReadItem, Spelled, Closable, FindOption, MatchSeparator;
      var item := ReadItem(c, argv, i, literal).item;
      SeparatorExists(c, argv, i, literal);
      SpelledSomething(Ok(item));
      ParsedIsClosable(c, argv, i + |Spelled(item)|, item.DashDash?);
      ClosableStep(item, Parse(c, argv, i + |Spelled(item)|, item.DashDash?).items, |c.separators|);
    } else {
      NothingRead(Items([]), |c.separators|);
    }
  }

  lemma ClosableStep(item: Item, items: seq<Item>, n: nat)
    requires Closable(items, n) && (item.File? ==> 0 < n) && (item.Separator? ==> item.group < n)
    ensures Closable([item] + items, n)
  {
  }

  lemma SeparatorExists(c: Config, argv: seq<string>, i: nat, literal: bool)
    requires i < |argv|
    ensures var read := ReadItem(c, argv, i, literal);
            read.Ok? && read.item.Separator? ==> read.item.group < |c.separators|
  {
  }

  // A per-file option is in the group closed by the first closing item after
  // it, after the per-file options that precede it there.
  lemma PerFileOptionIsInNextGroup(items: seq<Item>, e: nat, p: nat)
    requires e < p < |items| && SettingOf(items[e]).Some? && SettingOf(items[e]).value.def.perFile
    requires Closes(items[p]) && forall k :: e < k < p ==> !Closes(items[k])
    ensures
      var lo := OpenFrom(items[..p]);
      var rank := |PerFile(items[lo..e])|;
      lo <= e && rank < |GroupAt(items, p).opts| && GroupAt(items, p).opts[rank] == SettingOf(items[e]).value
  {
    var lo := OpenFrom(items[..p]);
    assert lo > 0 ==> Closes(items[..p][lo - 1]);
    assert items[lo..p] == items[lo..e] + [items[e]] + items[e + 1..p];
    Appended(items[lo..e], items[e]);
    PerFilePrefix(items[lo..e] + [items[e]], items[e + 1..p]);
  }

  lemma {:induction false} PerFilePrefix(items: seq<Item>, more: seq<Item>)
    ensures PerFile(items) <= PerFile(items + more)
  {
    if more == [] {
      assert items + more == items;
    } else {
      var init, item := more[..|more| - 1], more[|more| - 1];
      assert items + more == (items + init) + [item];
      Appended(items + init, item);
      PerFilePrefix(items, init);
    }
  }

  // "--" protects the next argument only: it is a file name whatever it looks
  // like, unless it is another "--".
  lemma DashDashProtectsOne(c: Config, argv: seq<string>, i: nat, literal: bool)
    requires i + 1 < |argv| && argv[i] == "--" && argv[i + 1] != "--"
    ensures Parse(c, argv, i, literal) == Resume([DashDash, File(argv[i + 1])], Parse(c, argv, i + 2, false))
  {
    hide Parse, Resume, ReadItem;
    ReadsLiterally(c, argv, i, literal);
    ReadsLiterally(c, argv, i + 1, true);
    ParseStep(c, argv, [], i, literal);
    ParseStep(c, argv, [DashDash], i + 1, true);
    assert [] + [DashDash] == [DashDash];
    assert [DashDash] + [File(argv[i + 1])] == [DashDash, File(argv[i + 1])];
    ResumeNothing(Parse(c, argv, i, literal));
  }

  lemma ReadsLiterally(c: Config, argv: seq<string>, i: nat, literal: bool)
    requires i < |argv|
    ensures argv[i] == "--" ==> ReadItem(c, argv, i, literal) == Ok(DashDash)
    ensures argv[i] != "--" && literal ==> ReadItem(c, argv, i, literal) == Ok(File(argv[i]))
  {
  }

  lemma ResumeNothing(rest: Result)
    ensures Resume([], rest) == rest
  {
    if rest.Items? {
      assert [] + rest.items == rest.items;
    }
  }

  // ----- Reading a command line back

  // An argument that is read as an option, unless "--" protects it.
  predicate LooksLikeOption(arg: string) {
    |arg| > 1 && arg[0] == '-' && arg != "--"
  }

  // No separator and no option has this name.
  ghost predicate Unknown(c: Config, key: string) {
    (forall g :: 0 <= g < |c.separators| ==> c.separators[g] != Some(key)) && FindOption(c.options, key) == None
  }

  ghost predicate IsSeparator(c: Config, key: string, g: nat) {
    && g < |c.separators| && c.separators[g] == Some(key)
    && forall k :: 0 <= k < g ==> c.separators[k] != Some(key)
  }

  ghost predicate IsOption(c: Config, key: string, def: OptionDef) {
    (forall g :: 0 <= g < |c.separators| ==> c.separators[g] != Some(key)) && FindOption(c.options, key) == Some(def)
  }

  // key is "no" and the name of a boolean option.
  ghost predicate Negates(c: Config, key: string, def: OptionDef) {
    "no" <= key && FindOption(c.options, key[2..]) == Some(def) && def.isBool
  }

  // What a user may mean by an item that rest follows: a flag stands for "1",
  // an option with argument for the argument, an exit option for the next
  // argument if there is one; separators come before options, options before
  // AVOptions, and those before negated flags.
  ghost predicate Fits(c: Config, item: Item, literal: bool, rest: seq<string>) {
    match item
    case DashDash => true
    case File(name) => name != "--" && (literal || !LooksLikeOption(name))
    case Separator(g, opt, arg) => !literal && LooksLikeOption("-" + opt) && IsSeparator(c, opt, g)
    case Opt(def, key, value) =>
      && !literal && LooksLikeOption("-" + key) && IsOption(c, key, def)
      && (if def.exits then value == None ==> rest == []
          else if def.hasArg then value.Some? else value == Some("1"))
    case AvOption(key, val) =>
      !literal && LooksLikeOption("-" + key) && Unknown(c, key) && c.avOption(key, val) == Accepted
    case NoOption(def, key) =>
      && !literal && LooksLikeOption("-" + key) && Unknown(c, key) && Negates(c, key, def)
      && (rest != [] ==> c.avOption(key, rest[0]) == NotFound)
  }

  ghost predicate WellFormed(c: Config, items: seq<Item>, literal: bool) {
    items == [] ||
    (Fits(c, items[0], literal, SpelledAll(items[1..])) && WellFormed(c, items[1..], items[0].DashDash?))
  }

  lemma SeparatorIsFound(c: Config, key: string)
    ensures match MatchSeparator(c.separators, key, 0)
      case Some(g) => IsSeparator(c, key, g)
      case None => forall g :: 0 <= g < |c.separators| ==> c.separators[g] != Some(key)
  {
  }

  // One item is read exactly where it fits.
  lemma ReadsIff(c: Config, argv: seq<string>, i: nat, literal: bool, item: Item)
    requires i < |argv|
    ensures ReadItem(c, argv, i, literal) == Ok(item) <==>
              Spelled(item) <= argv[i..] && Fits(c, item, literal, argv[i..][|Spelled(item)|..])
  {
    if ReadItem(c, argv, i, literal) == Ok(item) {
      ReadItemSpells(c, argv, i, literal);
      ReadFits(c, argv, i, literal);
    } else if Spelled(item) <= argv[i..] && Fits(c, item, literal, argv[i..][|Spelled(item)|..]) {
      FitsIsRead(c, argv, i, literal, item);
    }
  }

  lemma ReadFits(c: Config, argv: seq<string>, i: nat, literal: bool)
    requires i < |argv| && ReadItem(c, argv, i, literal).Ok?
    requires Spelled(ReadItem(c, argv, i, literal).item) <= argv[i..]
    ensures var item := ReadItem(c, argv, i, literal).item; Fits(c, item, literal, argv[i..][|Spelled(item)|..])
  {
    hide FindOption, MatchSeparator;
    var arg := argv[i];
    if LooksLikeOption(arg) && !literal {
      assert arg == "-" + arg[1..];
      SeparatorIsFound(c, arg[1..]);
    }
  }

  lemma FitsIsRead(c: Config, argv: seq<string>, i: nat, literal: bool, item: Item)
    requires i < |argv| && Spelled(item) <= argv[i..] && Fits(c, item, literal, argv[i..][|Spelled(item)|..])
    ensures ReadItem(c, argv, i, literal) == Ok(item)
  {
    hide FindOption, MatchSeparator;
    var arg := argv[i];
    assert arg == argv[i..][0] == Spelled(item)[0];
    if |Spelled(item)| == 2 {
      assert argv[i + 1] == argv[i..][1] == Spelled(item)[1];
    }
    if LooksLikeOption(arg) && !literal && !item.DashDash? && !item.File? {
      assert arg[1..] == (match item
        case Separator(_, opt, _) => opt
        case Opt(_, key, _) => key
        case AvOption(key, _) => key
        case NoOption(_, key) => key);
      SeparatorIsFound(c, arg[1..]);
    }
  }

  // What fits nowhere is an error of its own kind.
  ghost predicate IsError(c: Config, args: seq<string>, error: Error)
    requires args != [] && LooksLikeOption(args[0])
  {
    var opt := args[0][1..];
    match error
    case MissingArgument(o) =>
      && o == opt && |args| == 1
      && ((exists g :: IsSeparator(c, opt, g)) || (exists def :: IsOption(c, opt, def) && !def.exits && def.hasArg))
    case BadArgument(o) => o == opt && Unknown(c, opt) && |args| > 1 && c.avOption(opt, args[1]) == Rejected
    case Unrecognized(o) =>
      && o == opt && Unknown(c, opt) && (|args| > 1 ==> c.avOption(opt, args[1]) == NotFound)
      && forall def :: !Negates(c, opt, def)
  }

  lemma FailsIff(c: Config, argv: seq<string>, i: nat, literal: bool, error: Error)
    requires i < |argv|
    ensures ReadItem(c, argv, i, literal) == Fail(error) <==>
              !literal && LooksLikeOption(argv[i]) && IsError(c, argv[i..], error)
  {
    hide FindOption, MatchSeparator;
    var arg := argv[i];
    assert argv[i..][0] == arg && (i + 1 < |argv| ==> argv[i..][1] == argv[i + 1]);
    if LooksLikeOption(arg) && !literal {
      SeparatorIsFound(c, arg[1..]);
      NegationIsFound(c, arg[1..]);
    }
  }

  lemma NegationIsFound(c: Config, key: string)
    ensures ReadNoOption(c, key).Fail? <==> forall def :: !Negates(c, key, def)
  {
    hide FindOption;
    if "no" <= key && FindOption(c.options, key[2..]).Some? {
      var def := FindOption(c.options, key[2..]).value;
      assert def.isBool ==> Negates(c, key, def);
    }
  }

  // A command line is parsed as some items exactly when it spells them and
  // they are well formed, so it has no second reading.
  lemma {:induction false} ParsesIff(c: Config, argv: seq<string>, i: nat, literal: bool, items: seq<Item>)
    requires i <= |argv|
    ensures Parse(c, argv, i, literal) == Items(items) <==>
              SpelledAll(items) == argv[i..] && WellFormed(c, items, literal)
    decreases |argv| - i
  {
    hide ReadItem, Spelled, Fits;
    if i == |argv| {
      SpelledNothing(items);
    } else {
      if items == [] {
        assert argv[i..] != [];
        ParsesSomething(c, argv, i, literal);
      } else {
        var item := items[0];
        ReadsIff(c, argv, i, literal, item);
        SpelledSomething(Ok(item));
        if Spelled(item) <= argv[i..] {
          var next := i + |Spelled(item)|;
          assert argv[i..][|Spelled(item)|..] == argv[next..];
          assert argv[i..] == Spelled(item) + argv[next..];
          ParsesIff(c, argv, next, item.DashDash?, items[1..]);
          SpelledFirst(item, items[1..], argv[next..]);
          ParsedFirst(c, argv, i, literal, items);
        } else {
          ParsedFirst(c, argv, i, literal, items);
          assert Spelled(item) <= SpelledAll(items);
        }
      }
    }
  }

  lemma SpelledNothing(items: seq<Item>)
    ensures SpelledAll(items) == [] <==> items == []
  {
    if items != [] {
      SpelledSomething(Ok(items[0]));
    }
  }

  lemma SpelledFirst(item: Item, items: seq<Item>, rest: seq<string>)
    ensures SpelledAll([item] + items) == Spelled(item) + rest <==> SpelledAll(items) == rest
  {
    hide Spelled;
    var first := Spelled(item);
    assert SpelledAll([item] + items) == first + SpelledAll(items);
    assert (first + SpelledAll(items))[|first|..] == SpelledAll(items) && (first + rest)[|first|..] == rest;
  }

  lemma ParsesSomething(c: Config, argv: seq<string>, i: nat, literal: bool)
    requires i < |argv|
    ensures Parse(c, argv, i, literal) != Items([])
  {
    hide ReadItem;
  }

  lemma ParsedFirst(c: Config, argv: seq<string>, i: nat, literal: bool, items: seq<Item>)
    requires i < |argv| && items != []
    ensures Parse(c, argv, i, literal) == Items(items) <==>
              ReadItem(c, argv, i, literal) == Ok(items[0]) &&
              Parse(c, argv, i + |Spelled(items[0])|, items[0].DashDash?) == Items(items[1..])
  {
    hide ReadItem, Spelled;
    assert items == [items[0]] + items[1..];
  }

  // Well-formed items, spelled after a program name, are read back exactly.
  lemma ReadsBack(c: Config, name: string, items: seq<Item>)
    requires WellFormed(c, items, false)
    ensures Parse(c, [name] + SpelledAll(items), 1, false) == Items(items)
  {
    assert ([name] + SpelledAll(items))[1..] == SpelledAll(items);
    ParsesIff(c, [name] + SpelledAll(items), 1, false, items);
  }

  // The value of every setting that takes no argument: "1" under the name of
  // the option, "0" under its negation.
  lemma {:induction false} FlagsAreOneOrZero(c: Config, items: seq<Item>, literal: bool, k: nat)
    requires WellFormed(c, items, literal) && k < |items| && SettingOf(items[k]).Some?
    ensures var s := SettingOf(items[k]).value;
      && (items[k].NoOption? || (!s.def.exits && !s.def.hasArg) ==>
            s.val == Some(if FindOption(c.options, s.key) == Some(s.def) then "1" else "0"))
      && (items[k].Opt? ==> s.val == items[k].value)
      && (FindOption(c.options, s.key) == Some(s.def) || Negates(c, s.key, s.def))
  {
    if k > 0 {
      FlagsAreOneOrZero(c, items[1..], items[0].DashDash?, k - 1);
    }
  }
}
