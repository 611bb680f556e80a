/** compat/getopt.c: an option parser that keeps its place in argv between calls.

    `Next` is one call as a function of that place and `Parse` the repeated
    calls; the class makes the call on its static variables. */
module Getopt {
  import opened Options

  const NUL := '\0'

  // The character of a C string at k, the terminator included.
  function At(s: string, k: nat): char {
    if k < |s| then s[k] else NUL
  }

  ghost predicate IsCString(s: string) {
    NUL !in s
  }

  ghost predicate IsArgv(argv: seq<string>) {
    forall i :: 0 <= i < |argv| ==> IsCString(argv[i])
  }

  // What one call reports. Illegal and MissingArg both return '?' and leave
  // the character in optopt.
  datatype Outcome =
    | Eof
    | Opt(c: char, arg: Option<string>)
    | Illegal(c: char)
    | MissingArg(c: char)

  // optind and sp.
  datatype Place = Place(optind: nat, sp: nat)

  // sp is 1, or it indexes a character of argv[optind].
  predicate InPlace(argv: seq<string>, p: Place) {
    p.sp == 1 || (p.sp > 1 && p.optind < |argv| && p.sp < |argv[p.optind]|)
  }

  // strchr
  function Find(opts: string, c: char): Option<nat> {
    if opts == [] then None
    else if opts[0] == c then Some(0)
    else
      var rest := Find(opts[1..], c);
      if rest.Some? then Some(rest.value + 1) else None
  }

  lemma {:induction false} FindIsFirst(opts: string, c: char)
    ensures match Find(opts, c)
      case Some(k) => k < |opts| && opts[k] == c && c !in opts[..k]
      case None => c !in opts
  {
    if opts != [] && opts[0] != c {
      FindIsFirst(opts[1..], c);
      assert opts == [opts[0]] + opts[1..];
      var rest := Find(opts[1..], c);
      if rest.Some? {
        assert opts[..rest.value + 1] == [opts[0]] + opts[1..][..rest.value];
      }
    }
  }

  predicate IsOption(opts: string, c: char) {
    c != ':' && Find(opts, c).Some?
  }

  predicate TakesArg(opts: string, c: char)
    requires IsOption(opts, c)
  {
    At(opts, Find(opts, c).value + 1) == ':'
  }

  // Not an option argument: an operand, or nothing.
  predicate IsOperand(argv: seq<string>, i: nat) {
    i >= |argv| || At(argv[i], 0) != '-' || At(argv[i], 1) == NUL
  }

  // One character further, or on to the next argument.
  function Advance(argv: seq<string>, p: Place): Place
    requires p.optind < |argv|
  {
    if At(argv[p.optind], p.sp + 1) == NUL then Place(p.optind + 1, 1) else p.(sp := p.sp + 1)
  }

  function Next(argv: seq<string>, opts: string, p: Place): (Outcome, Place)
    requires InPlace(argv, p)
  {
    if p.sp == 1 && IsOperand(argv, p.optind) then (Eof, p)
    else if p.sp == 1 && argv[p.optind] == "--" then (Eof, Place(p.optind + 1, 1))
    else
      var s := argv[p.optind];
      var c := At(s, p.sp);
      if !IsOption(opts, c) then (Illegal(c), Advance(argv, p))
      else if !TakesArg(opts, c) then (Opt(c, None), Advance(argv, p))
      else if At(s, p.sp + 1) != NUL then (Opt(c, Some(s[p.sp + 1..])), Place(p.optind + 1, 1))
      else if p.optind + 1 >= |argv| then (MissingArg(c), Place(p.optind + 1, 1))
      else (Opt(c, Some(argv[p.optind + 1])), Place(p.optind + 2, 1))
  }

  class Parser {
    var optind: nat
    var optopt: char
    var optarg: Option<string>
    var sp: nat

    ghost function Where(): Place
      reads this
    {
      Place(optind, sp)
    }

    constructor ()
      ensures Where() == Place(1, 1)
    {
      optind, optopt, optarg, sp := 1, NUL, None, 1;
    }

    method GetOpt(argv: seq<string>, opts: string) returns (outcome: Outcome)
      requires IsArgv(argv) && InPlace(argv, Where())
      modifies this
      ensures (outcome, Where()) == Next(argv, opts, old(Where()))
      ensures InPlace(argv, Where())
      ensures outcome.Opt? ==> optopt == outcome.c && optarg == outcome.arg
      ensures outcome.Illegal? || outcome.MissingArg? ==> optopt == outcome.c && optarg == old(optarg)
      ensures outcome.Eof? ==> optopt == old(optopt) && optarg == old(optarg)
    {
      if sp == 1 {
        if optind >= |argv| || At(argv[optind], 0) != '-' || At(argv[optind], 1) == NUL {
          return Eof;
        } else if argv[optind] == "--" {
          optind := optind + 1;
          return Eof;
        }
      }
      var s := argv[optind];
      var c := At(s, sp);
      optopt := c;
      var cp := Find(opts, c);
      if c == ':' || cp.None? {
        sp := sp + 1;
        if At(s, sp) == NUL {
          optind := optind + 1;
          sp := 1;
        }
        return Illegal(c);
      }
      if At(opts, cp.value + 1) == ':' {
        if At(s, sp + 1) != NUL {
          optarg := Some(s[sp + 1..]);
          optind := optind + 1;
        } else {
          optind := optind + 1;
          if optind >= |argv| {
            sp := 1;
            return MissingArg(c);
          }
          optarg := Some(argv[optind]);
          optind := optind + 1;
        }
        sp := 1;
      } else {
        sp := sp + 1;
        if At(s, sp) == NUL {
          sp := 1;
          optind := optind + 1;
        }
        optarg := None;
      }
      return Opt(c, optarg);
    }

    // Calls until EOF.
    method GetAll(argv: seq<string>, opts: string) returns (outcomes: seq<Outcome>)
      requires IsArgv(argv) && InPlace(argv, Where())
      modifies this
      ensures Parse(argv, opts, old(Where())) == Parsed(outcomes, optind)
    {
      outcomes := [];
      var outcome := Eof;
      var done := false;
      while !done
        invariant InPlace(argv, Where())
        invariant !done ==>
          var rest := Parse(argv, opts, Where());
          Parse(argv, opts, old(Where())) == Parsed(outcomes + rest.outcomes, rest.optind)
        invariant done ==> Parse(argv, opts, old(Where())) == Parsed(outcomes, optind)
        decreases !done, Remaining(argv, Where())
      {
        NextConsumes(argv, opts, Where());
        outcome := GetOpt(argv, opts);
        if outcome.Eof? {
          done := true;
        } else {
          outcomes := outcomes + [outcome];
        }
      }
    }
  }

  // ----- Progress

  function CharsFrom(argv: seq<string>, i: nat): nat
    decreases |argv| - i
  {
    if i >= |argv| then 0 else |argv[i]| + 1 + CharsFrom(argv, i + 1)
  }

  // The characters not yet consumed.
  function Remaining(argv: seq<string>, p: Place): nat
    requires InPlace(argv, p)
  {
    CharsFrom(argv, p.optind) - (p.sp - 1)
  }

  // Every call that does not end the parse consumes something and stays in place.
  lemma NextConsumes(argv: seq<string>, opts: string, p: Place)
    requires IsArgv(argv) && InPlace(argv, p)
    ensures var (outcome, p') := Next(argv, opts, p);
      InPlace(argv, p') && (!outcome.Eof? ==> Remaining(argv, p') < Remaining(argv, p))
  {
    if p.optind < |argv| {
      assert CharsFrom(argv, p.optind) == |argv[p.optind]| + 1 + CharsFrom(argv, p.optind + 1);
    }
    if p.optind + 1 < |argv| {
      assert CharsFrom(argv, p.optind + 1) == |argv[p.optind + 1]| + 1 + CharsFrom(argv, p.optind + 2);
    }
  }

  datatype Parsed = Parsed(outcomes: seq<Outcome>, optind: nat)

  function Parse(argv: seq<string>, opts: string, p: Place): Parsed
    requires InPlace(argv, p)
    requires IsArgv(argv)
    decreases Remaining(argv, p)
  {
    NextConsumes(argv, opts, p);
    var (outcome, p') := Next(argv, opts, p);
    if outcome.Eof? then Parsed([], p'.optind)
    else
      var rest := Parse(argv, opts, p');
      Parsed([outcome] + rest.outcomes, rest.optind)
  }

  // ----- Rendering a list of options, and reading it back

  datatype LastOption = LastOption(c: char, arg: string, attached: bool)

  // One option argument: a cluster of characters that are flags or no options
  // at all, then perhaps an option with its argument, attached to it or in the
  // next element of argv.
  datatype Cluster = Cluster(flags: string, last: Option<LastOption>)

  function Text(g: Cluster): string {
    "-" + g.flags + match g.last
      case None => ""
      case Some(l) => [l.c] + if l.attached then l.arg else ""
  }

  function RenderOne(g: Cluster): seq<string> {
    if g.last.Some? && !g.last.value.attached then [Text(g), g.last.value.arg] else [Text(g)]
  }

  function Render(gs: seq<Cluster>): seq<string> {
    if gs == [] then [] else RenderOne(gs[0]) + Render(gs[1..])
  }

  // What one character stands for that takes no argument.
  function Flag(opts: string, f: char): (r: Outcome)
    ensures !r.Eof?
  {
    if f != ':' && f in opts then Opt(f, None) else Illegal(f)
  }

  function Flags(opts: string, flags: string): seq<Outcome> {
    if flags == [] then [] else [Flag(opts, flags[0])] + Flags(opts, flags[1..])
  }

  function Meaning(opts: string, g: Cluster): seq<Outcome> {
    Flags(opts, g.flags) + match g.last
      case None => []
      case Some(l) => [Opt(l.c, Some(l.arg))]
  }

  function Meanings(opts: string, gs: seq<Cluster>): seq<Outcome> {
    if gs == [] then [] else Meaning(opts, gs[0]) + Meanings(opts, gs[1..])
  }

  // No flag takes an argument and the last option does; an attached argument
  // is not empty, and the whole does not read "--".
  ghost predicate Fits(opts: string, g: Cluster) {
    && (forall f :: f in g.flags ==> IsOption(opts, f) ==> !TakesArg(opts, f))
    && (g.last.Some? ==>
         var l := g.last.value;
         IsOption(opts, l.c) && TakesArg(opts, l.c) && (l.attached ==> l.arg != ""))
    && Text(g) != "-" && Text(g) != "--"
  }

  // Where the parser is before the k-th flag of a cluster at i, or past its last one.
  function FlagPlace(i: nat, g: Cluster, k: nat): Place {
    if k < |g.flags| || g.last.Some? then Place(i, k + 1) else Place(i + |RenderOne(g)|, 1)
  }

  // Where the parts of a cluster stand in its text.
  lemma TextParts(g: Cluster)
    ensures var s, n := Text(g), |g.flags|;
      && |s| > n && s[0] == '-' && s[1..n + 1] == g.flags
      && (g.last.None? ==> |s| == n + 1)
      && (g.last.Some? ==>
           && |s| > n + 1 && s[n + 1] == g.last.value.c
           && s[n + 2..] == if g.last.value.attached then g.last.value.arg else "")
  {
    assert "-" + g.flags + "" == "-" + g.flags;
  }

  lemma ReadsFlag(argv: seq<string>, opts: string, i: nat, g: Cluster, k: nat)
    requires IsArgv(argv) && i < |argv| && argv[i] == Text(g) && Fits(opts, g) && k < |g.flags|
    ensures InPlace(argv, Place(i, k + 1))
    ensures Next(argv, opts, Place(i, k + 1)) == (Flag(opts, g.flags[k]), FlagPlace(i, g, k + 1))
  {
    hide Text;
    FindIsFirst(opts, g.flags[k]);
    TextParts(g);
    var s := argv[i];
    assert s[k + 1] == s[1..|g.flags| + 1][k] == g.flags[k];
    if k + 2 < |s| {
      assert s[k + 2] in s;
    }
  }

  lemma LastFits(opts: string, g: Cluster)
    requires Fits(opts, g) && g.last.Some?
    ensures var l := g.last.value;
      && IsOption(opts, l.c) && TakesArg(opts, l.c) && (l.attached ==> l.arg != "") && Text(g) != "--"
  {
  }

  lemma ReadsLast(argv: seq<string>, opts: string, i: nat, g: Cluster)
    requires IsArgv(argv) && i < |argv| && argv[i] == Text(g) && Fits(opts, g) && g.last.Some?
    requires !g.last.value.attached ==> i + 1 < |argv| && argv[i + 1] == g.last.value.arg
    ensures InPlace(argv, Place(i, |g.flags| + 1))
    ensures Next(argv, opts, Place(i, |g.flags| + 1)) ==
            (Opt(g.last.value.c, Some(g.last.value.arg)), Place(i + |RenderOne(g)|, 1))
  {
    hide Find, Fits, Text, IsOption, TakesArg;
    LastFits(opts, g);
    TextParts(g);
    var s, l, sp := argv[i], g.last.value, |g.flags| + 1;
    assert s[sp + 1..] == if l.attached then l.arg else "";
    assert At(s, sp + 1) == NUL <==> !l.attached by {
      if l.attached {
        assert s[sp + 1] == l.arg[0] && s[sp + 1] in s;
      }
    }
  }

  lemma ParseUnfolds(argv: seq<string>, opts: string, p: Place)
    requires IsArgv(argv) && InPlace(argv, p) && !Next(argv, opts, p).0.Eof?
    ensures InPlace(argv, Next(argv, opts, p).1)
    ensures var rest := Parse(argv, opts, Next(argv, opts, p).1);
      Parse(argv, opts, p) == Parsed([Next(argv, opts, p).0] + rest.outcomes, rest.optind)
  {
    NextConsumes(argv, opts, p);
  }

  // Reading a cluster from its k-th flag on.
  lemma {:induction false} ReadsCluster(argv: seq<string>, opts: string, i: nat, g: Cluster, k: nat)
    requires IsArgv(argv) && i < |argv| && argv[i] == Text(g) && Fits(opts, g) && k <= |g.flags|
    requires g.last.Some? && !g.last.value.attached ==> i + 1 < |argv| && argv[i + 1] == g.last.value.arg
    ensures InPlace(argv, FlagPlace(i, g, k))
    ensures
      var rest := Parse(argv, opts, Place(i + |RenderOne(g)|, 1));
      Parse(argv, opts, FlagPlace(i, g, k)) ==
        Parsed(Meaning(opts, Cluster(g.flags[k..], g.last)) + rest.outcomes, rest.optind)
    decreases |g.flags| - k
  {
    hide Next, Fits, Text, Parse, Flag, IsOption, TakesArg, IsArgv;
    var rest := Parse(argv, opts, Place(i + |RenderOne(g)|, 1));
    if k < |g.flags| {
      ReadsFlag(argv, opts, i, g, k);
      ParseUnfolds(argv, opts, Place(i, k + 1));
      ReadsCluster(argv, opts, i, g, k + 1);
      assert g.flags[k..][1..] == g.flags[k + 1..];
      assert Flags(opts, g.flags[k..]) == [Flag(opts, g.flags[k])] + Flags(opts, g.flags[k + 1..]);
      assert Meaning(opts, Cluster(g.flags[k..], g.last)) + rest.outcomes ==
             [Flag(opts, g.flags[k])] + (Meaning(opts, Cluster(g.flags[k + 1..], g.last)) + rest.outcomes);
    } else if g.last.Some? {
      ReadsLast(argv, opts, i, g);
      ParseUnfolds(argv, opts, Place(i, |g.flags| + 1));
      assert g.flags[k..] == [];
      assert Meaning(opts, Cluster([], g.last)) == [Opt(g.last.value.c, Some(g.last.value.arg))];
    } else {
      assert g.flags[k..] == [];
      assert Meaning(opts, Cluster([], None)) == [] && [] + rest.outcomes == rest.outcomes;
    }
  }

  // A list of options rendered in clusters is read back exactly, and the
  // parse goes on with what follows it.
  lemma {:induction false} ReadsBack(argv: seq<string>, opts: string, i: nat, gs: seq<Cluster>)
    requires IsArgv(argv) && i <= |argv| && Render(gs) <= argv[i..]
    requires forall k :: 0 <= k < |gs| ==> Fits(opts, gs[k])
    ensures
      var rest := Parse(argv, opts, Place(i + |Render(gs)|, 1));
      Parse(argv, opts, Place(i, 1)) == Parsed(Meanings(opts, gs) + rest.outcomes, rest.optind)
    decreases |gs|
  {
    hide Next, Parse, Text, Fits, Meaning;
    var rest := Parse(argv, opts, Place(i + |Render(gs)|, 1));
    if gs == [] {
      assert [] + rest.outcomes == rest.outcomes;
    } else {
      var g := gs[0];
      ReadsOne(argv, opts, i, g, Render(gs[1..]));
      assert Render(gs[1..]) <= argv[i + |RenderOne(g)|..];
      ReadsBack(argv, opts, i + |RenderOne(g)|, gs[1..]);
      assert Meaning(opts, g) + (Meanings(opts, gs[1..]) + rest.outcomes) == Meanings(opts, gs) + rest.outcomes;
    }
  }

  lemma ReadsOne(argv: seq<string>, opts: string, i: nat, g: Cluster, tail: seq<string>)
    requires IsArgv(argv) && i <= |argv| && RenderOne(g) + tail <= argv[i..] && Fits(opts, g)
    ensures
      var rest := Parse(argv, opts, Place(i + |RenderOne(g)|, 1));
      Parse(argv, opts, Place(i, 1)) == Parsed(Meaning(opts, g) + rest.outcomes, rest.optind)
  {
    hide Next, Parse, Meaning;
    var one := RenderOne(g);
    assert argv[i] == argv[i..][0] == one[0];
    if |one| == 2 {
      assert argv[i + 1] == argv[i..][1] == one[1];
    }
    ReadsCluster(argv, opts, i, g, 0);
    assert g.flags[0..] == g.flags;
    assert FlagPlace(i, g, 0) == Place(i, 1);
  }

  lemma ParseStops(argv: seq<string>, opts: string, i: nat)
    requires IsArgv(argv)
    ensures IsOperand(argv, i) ==> Parse(argv, opts, Place(i, 1)) == Parsed([], i)
    ensures i < |argv| && argv[i] == "--" ==> Parse(argv, opts, Place(i, 1)) == Parsed([], i + 1)
  {
  }

  // From the program name on: the options, and then the first operand stops the parse.
  lemma OptionsThenOperands(name: string, gs: seq<Cluster>, operands: seq<string>, opts: string)
    requires IsArgv([name] + Render(gs) + operands)
    requires forall k :: 0 <= k < |gs| ==> Fits(opts, gs[k])
    requires operands == [] || operands[0] in ["", "-"] || operands[0][0] != '-'
    ensures Parse([name] + Render(gs) + operands, opts, Place(1, 1)) == Parsed(Meanings(opts, gs), 1 + |Render(gs)|)
  {
    hide Next, Parse, Render, Meanings, Fits;
    var argv := [name] + Render(gs) + operands;
    assert argv[1..] == Render(gs) + operands;
    ReadsBack(argv, opts, 1, gs);
    assert operands != [] ==> argv[1 + |Render(gs)|] == operands[0];
    ParseStops(argv, opts, 1 + |Render(gs)|);
    assert Meanings(opts, gs) + [] == Meanings(opts, gs);
  }

  // Or "--" does, and it is consumed.
  lemma OptionsThenDashDash(name: string, gs: seq<Cluster>, operands: seq<string>, opts: string)
    requires IsArgv([name] + Render(gs) + ["--"] + operands)
    requires forall k :: 0 <= k < |gs| ==> Fits(opts, gs[k])
    ensures Parse([name] + Render(gs) + ["--"] + operands, opts, Place(1, 1)) == Parsed(Meanings(opts, gs), 2 + |Render(gs)|)
  {
    hide Next, Parse, Render, Meanings, Fits;
    var argv := [name] + Render(gs) + ["--"] + operands;
    assert argv[1..] == Render(gs) + (["--"] + operands);
    ReadsBack(argv, opts, 1, gs);
    assert argv[1 + |Render(gs)|] == "--";
    ParseStops(argv, opts, 1 + |Render(gs)|);
    assert Meanings(opts, gs) + [] == Meanings(opts, gs);
  }

  // An option whose argument is missing, because argv ends with it.
  lemma ReadsMissing(argv: seq<string>, opts: string, i: nat, flags: string, c: char)
    requires IsArgv(argv) && i + 1 == |argv| && argv[i] == "-" + flags + [c]
    requires IsOption(opts, c) && TakesArg(opts, c) && (flags == "" ==> c != '-')
    ensures InPlace(argv, Place(i, |flags| + 1))
    ensures Parse(argv, opts, Place(i, |flags| + 1)) == Parsed([MissingArg(c)], i + 1)
  {
    var s, sp := argv[i], |flags| + 1;
    assert |s| > 1 && s[0] == '-' && s[sp] == c && At(s, sp + 1) == NUL;
    assert sp == 1 ==> s[1] != '-';
    assert c in argv[i];
    assert Next(argv, opts, Place(i, sp)) == (MissingArg(c), Place(i + 1, 1));
    ParseStops(argv, opts, i + 1);
  }

  lemma {:induction false} ReadsUpToMissing(argv: seq<string>, opts: string, i: nat, flags: string, c: char, k: nat)
    requires IsArgv(argv) && i + 1 == |argv| && argv[i] == "-" + flags + [c] && k <= |flags|
    requires IsOption(opts, c) && TakesArg(opts, c) && argv[i] != "--"
    requires forall f :: f in flags ==> IsOption(opts, f) ==> !TakesArg(opts, f)
    ensures InPlace(argv, Place(i, k + 1))
    ensures Parse(argv, opts, Place(i, k + 1)) == Parsed(Flags(opts, flags[k..]) + [MissingArg(c)], i + 1)
    decreases |flags| - k
  {
    if k == |flags| {
      assert flags == "" ==> argv[i] == "-" + [c];
      ReadsMissing(argv, opts, i, flags, c);
      assert flags[k..] == [] && [] + [MissingArg(c)] == [MissingArg(c)];
    } else {
      NextFlag(argv, opts, i, flags, c, k);
      hide Next;
      ReadsUpToMissing(argv, opts, i, flags, c, k + 1);
      assert flags[k..][1..] == flags[k + 1..];
      assert [Flag(opts, flags[k])] + (Flags(opts, flags[k + 1..]) + [MissingArg(c)]) == Flags(opts, flags[k..]) + [MissingArg(c)];
    }
  }

  lemma NextFlag(argv: seq<string>, opts: string, i: nat, flags: string, c: char, k: nat)
    requires IsArgv(argv) && i < |argv| && argv[i] == "-" + flags + [c] && k < |flags| && argv[i] != "--"
    requires forall f :: f in flags ==> IsOption(opts, f) ==> !TakesArg(opts, f)
    ensures InPlace(argv, Place(i, k + 1))
    ensures Next(argv, opts, Place(i, k + 1)) == (Flag(opts, flags[k]), Place(i, k + 2))
  {
    FindIsFirst(opts, flags[k]);
    var s := argv[i];
    assert |s| == |flags| + 2 && s[0] == '-' && s[k + 1] == flags[k] && flags[k] in flags;
    assert s[k + 2] in s;
  }

  // After any options, one that lacks its argument is reported as such and ends the parse.
  lemma MissingArgumentIsReported(name: string, gs: seq<Cluster>, flags: string, c: char, opts: string)
    requires IsArgv([name] + Render(gs) + ["-" + flags + [c]])
    requires forall k :: 0 <= k < |gs| ==> Fits(opts, gs[k])
    requires IsOption(opts, c) && TakesArg(opts, c) && "-" + flags + [c] != "--"
    requires forall f :: f in flags ==> IsOption(opts, f) ==> !TakesArg(opts, f)
    ensures Parse([name] + Render(gs) + ["-" + flags + [c]], opts, Place(1, 1))
            == Parsed(Meanings(opts, gs) + (Flags(opts, flags) + [MissingArg(c)]), 2 + |Render(gs)|)
  {
    hide Next, Parse, Render, Meanings, Fits, Flags;
    var argv := [name] + Render(gs) + ["-" + flags + [c]];
    assert argv[1..] == Render(gs) + ["-" + flags + [c]];
    ReadsBack(argv, opts, 1, gs);
    ReadsUpToMissing(argv, opts, 1 + |Render(gs)|, flags, c, 0);
    assert flags[0..] == flags;
  }
}
