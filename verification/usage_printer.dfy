/**
 * UsagePrinter: the usage text of one command and the listing of all
 * commands, both built left to right into a string buffer.
 */
module UsagePrinter {
  import opened Outcomes
  import opened Params
  import opened Text
  import Sorting
  import TypeParser

  // ---------------------------------------------------------------------
  // Type labels

  /** Class.getSimpleName for the declared type. */
  function SimpleName(k: Kind): string {
    match k
    case Int => "int"
    case Long => "long"
    case Float => "float"
    case Double => "double"
    case Bool => "boolean"
    case Char => "char"
    case Str => "String"
    case Enum(name, _) => name
    case Array(e) => SimpleName(e) + "[]"
    case Other(name) => name
  }

  /** Class.toString for an array's element type: the bare name for a primitive, "class " before any other. */
  function ComponentName(k: Kind): string {
    if TypeParser.IsPrimitive(k) then SimpleName(k) else "class " + SimpleName(k)
  }

  /** What stands between "<" and ">" for a positional parameter. */
  function Label(p: ParamSpec): string {
    if p.kind.Array? then ComponentName(p.kind.elem) else SimpleName(p.kind)
  }

  /** The text of an optional @Usage annotation, "" without one. */
  function UsageOf(u: Option<string>): string {
    if u.Some? then u.value else ""
  }

  // ---------------------------------------------------------------------
  // The signature line

  /** The parameters shown in the signature: neither Flag nor Meta. */
  function Arguments(ps: seq<ParamSpec>): (r: seq<ParamSpec>)
    ensures forall i :: 0 <= i < |r| ==> IsPositional(r[i])
  {
    if ps == [] then []
    else Arguments(ps[..|ps| - 1]) + (if IsPositional(ps[|ps| - 1]) then [ps[|ps| - 1]] else [])
  }

  /** One argument: " ", "[" when optional, "<T>", and "..." for an array. */
  function ArgText(p: ParamSpec): string {
    " " + (if IsOptional(p) then "[" else "") + "<" + Label(p) + ">" + (if p.kind.Array? then "..." else "")
  }

  function ArgsText(args: seq<ParamSpec>): string {
    if args == [] then "" else ArgsText(args[..|args| - 1]) + ArgText(args[|args| - 1])
  }

  lemma ArgsTextSnoc(args: seq<ParamSpec>, i: nat)
    requires i < |args|
    ensures ArgsText(args[..i + 1]) == ArgsText(args[..i]) + ArgText(args[i])
    ensures OptionalCount(args[..i + 1]) == OptionalCount(args[..i]) + (if IsOptional(args[i]) then 1 else 0)
  {
    assert args[..i + 1][..i] == args[..i];
  }

  /** How many of the arguments are optional or defaulted. */
  function OptionalCount(args: seq<ParamSpec>): nat {
    if args == [] then 0 else OptionalCount(args[..|args| - 1]) + (if IsOptional(args[|args| - 1]) then 1 else 0)
  }

  /** The first line of the usage text, without its line break. */
  function Signature(c: CommandSpec): string {
    var args := Arguments(c.params);
    "Usage: " + c.name + (if |Flags(c.params)| > 0 then " [FLAG...]" else "")
      + ArgsText(args) + Repeat(']', OptionalCount(args))
  }

  // ---------------------------------------------------------------------
  // The flag table

  /** The Flag parameters in declaration order. */
  function Flags(ps: seq<ParamSpec>): (r: seq<ParamSpec>)
    ensures forall i :: 0 <= i < |r| ==> r[i].role.Flag?
  {
    if ps == [] then []
    else Flags(ps[..|ps| - 1]) + (if ps[|ps| - 1].role.Flag? then [ps[|ps| - 1]] else [])
  }

  function Trigger(p: ParamSpec): char {
    if p.role.Flag? then p.role.trigger else 0 as char
  }

  /** The comparator of the flag list: by trigger character. */
  predicate TriggerLe(a: ParamSpec, b: ParamSpec) {
    Trigger(a) <= Trigger(b)
  }

  /** The flags in the order the table lists them. */
  function SortedFlags(ps: seq<ParamSpec>): seq<ParamSpec> {
    Sorting.Sort(Flags(ps), TriggerLe)
  }

  function Alternative(p: ParamSpec): string {
    if p.role.Flag? then p.role.alternative else ""
  }

  /** The width of ", --alt", or 0 without an alternative. */
  function AltWidth(p: ParamSpec): nat {
    if Alternative(p) == "" then 0 else |Alternative(p)| + 4
  }

  /** The widest ", --alt" among the flags, or 0. */
  function LongestAlternative(flags: seq<ParamSpec>): (w: nat)
    ensures forall i :: 0 <= i < |flags| ==> AltWidth(flags[i]) <= w
    ensures w == 0 || exists i :: 0 <= i < |flags| && Alternative(flags[i]) != "" && w == |Alternative(flags[i])| + 4
  {
    if flags == [] then 0
    else
      var rest := LongestAlternative(flags[..|flags| - 1]);
      var here := AltWidth(flags[|flags| - 1]);
      if here > rest then here else rest
  }

  /** "  -c" followed by ", --alt" when there is an alternative. */
  function FlagHead(p: ParamSpec): string {
    "  -" + [Trigger(p)] + (if Alternative(p) == "" then "" else ", --" + Alternative(p))
  }

  /** The spaces that bring a flag's head to the common width `w`. */
  function Padding(p: ParamSpec, w: nat): nat {
    if AltWidth(p) < w then w - AltWidth(p) else 0
  }

  function FlagLine(p: ParamSpec, w: nat): string {
    FlagHead(p) + Spaces(Padding(p, w)) + "  " + UsageOf(p.usage) + "\n"
  }

  function FlagLines(flags: seq<ParamSpec>, w: nat): string {
    if flags == [] then "" else FlagLines(flags[..|flags| - 1], w) + FlagLine(flags[|flags| - 1], w)
  }

  lemma FlagLinesSnoc(flags: seq<ParamSpec>, i: nat, w: nat)
    requires i < |flags|
    ensures FlagLines(flags[..i + 1], w) == FlagLines(flags[..i], w) + FlagLine(flags[i], w)
  {
    assert flags[..i + 1][..i] == flags[..i];
  }

  /** The whole text commandUsage returns. */
  function UsageText(c: CommandSpec): string {
    var flags := SortedFlags(c.params);
    Signature(c) + "\n"
      + (if c.usage.Some? then c.usage.value + "\n" else "")
      + (if |flags| > 0 then "\nFLAGS:\n" else "")
      + FlagLines(flags, LongestAlternative(flags))
  }

  /** The signature part of commandUsage: name, flag marker, arguments, closing brackets. */
  method SignatureLine(c: CommandSpec) returns (sb: string)
    ensures sb == Signature(c)
  {
    var arguments := Arguments(c.params);
    sb := "Usage: ";
    sb := sb + c.name;
    if |Flags(c.params)| > 0 {
      sb := sb + " [FLAG...]";
    }
    ghost var head := sb;
    var optionalCounter := 0;
    for i := 0 to |arguments|
      invariant sb == head + ArgsText(arguments[..i])
      invariant optionalCounter == OptionalCount(arguments[..i])
    {
      var p := arguments[i];
      var optional := IsOptional(p);
      optionalCounter := optionalCounter + if optional then 1 else 0;
      var text := " " + (if optional then "[" else "") + "<" + Label(p) + ">" + (if p.kind.Array? then "..." else "");
      assert text == ArgText(p);
      ArgsTextSnoc(arguments, i);
      ConcatAssoc(head, ArgsText(arguments[..i]), text);
      sb := sb + text;
    }
    assert arguments[..|arguments|] == arguments;
    head := sb;
    for i := 0 to optionalCounter
      invariant sb == head + Repeat(']', i)
    {
      ConcatAssoc(head, Repeat(']', i), "]");
      sb := sb + "]";
    }
    ConcatAssoc(head, ArgsText(arguments), Repeat(']', optionalCounter));
  }

  /** One row of the flag table, padded to the width `w`. */
  method FlagRow(p: ParamSpec, w: nat) returns (sb: string)
    ensures sb == FlagLine(p, w)
  {
    sb := "  -";
    sb := sb + [Trigger(p)];
    var curLen := 0;
    if Alternative(p) != "" {
      sb := sb + ", --";
      sb := sb + Alternative(p);
      curLen := curLen + 4 + |Alternative(p)|;
    }
    while curLen < w
      invariant AltWidth(p) <= curLen
      invariant curLen <= w || curLen == AltWidth(p)
      invariant sb == FlagHead(p) + Spaces(curLen - AltWidth(p))
    {
      sb := sb + " ";
      curLen := curLen + 1;
    }
    sb := sb + "  ";
    sb := sb + UsageOf(p.usage);
    sb := sb + "\n";
  }

  /** The flag rows of commandUsage, in the order given. */
  method FlagTable(flags: seq<ParamSpec>, longestAlternative: nat) returns (sb: string)
    ensures sb == FlagLines(flags, longestAlternative)
  {
    sb := "";
    for i := 0 to |flags|
      invariant sb == FlagLines(flags[..i], longestAlternative)
    {
      FlagLinesSnoc(flags, i, longestAlternative);
      var row := FlagRow(flags[i], longestAlternative);
      sb := sb + row;
    }
    assert flags[..|flags|] == flags;
  }

  /** commandUsage: the signature, the command's usage text, and the flag table. */
  method CommandUsage(c: CommandSpec) returns (sb: string)
    ensures sb == UsageText(c)
  {
    var flags := SortedFlags(c.params);
    sb := SignatureLine(c);
    sb := sb + "\n";
    sb := sb + if c.usage.Some? then c.usage.value + "\n" else "";
    if |flags| > 0 {
      sb := sb + "\nFLAGS:\n";
    }
    var table := FlagTable(flags, LongestAlternative(flags));
    sb := sb + table;
  }

  // ---------------------------------------------------------------------
  // The command listing

  /** The comparator of the listing: String.compareTo on the names. */
  predicate NameLe(a: CommandSpec, b: CommandSpec) {
    StrLe(a.name, b.name)
  }

  /** The length of the longest name, or 0. */
  function LongestName(cmds: seq<CommandSpec>): (w: nat)
    ensures forall i :: 0 <= i < |cmds| ==> |cmds[i].name| <= w
    ensures w == 0 || exists i :: 0 <= i < |cmds| && w == |cmds[i].name|
  {
    if cmds == [] then 0
    else
      var rest := LongestName(cmds[..|cmds| - 1]);
      var here := |cmds[|cmds| - 1].name|;
      if here > rest then here else rest
  }

  /** `s` followed by spaces up to width `w`. */
  function PadRight(s: string, w: nat): string {
    if |s| < w then s + Spaces(w - |s|) else s
  }

  function ListLine(c: CommandSpec, w: nat): string {
    PadRight(c.name, w) + "  " + UsageOf(c.usage) + "\n"
  }

  function ListLines(cmds: seq<CommandSpec>, w: nat): string {
    if cmds == [] then "" else ListLines(cmds[..|cmds| - 1], w) + ListLine(cmds[|cmds| - 1], w)
  }

  lemma ListLinesSnoc(cmds: seq<CommandSpec>, i: nat, w: nat)
    requires i < |cmds|
    ensures ListLines(cmds[..i + 1], w) == ListLines(cmds[..i], w) + ListLine(cmds[i], w)
  {
    assert cmds[..i + 1][..i] == cmds[..i];
  }

  /** The whole text listCommands returns. */
  function ListText(cmds: seq<CommandSpec>): string {
    var sorted := Sorting.Sort(cmds, NameLe);
    ListLines(sorted, LongestName(sorted))
  }

  /** The padding loop of listCommands: appends spaces until the name is `w` long. */
  method PadName(name: string, w: nat) returns (cmd: string)
    ensures cmd == PadRight(name, w)
  {
    cmd := name;
    while |cmd| < w
      invariant |name| <= |cmd|
      invariant |cmd| <= w || cmd == name
      invariant cmd == name + Spaces(|cmd| - |name|)
      decreases w - |cmd|
    {
      ConcatAssoc(name, Spaces(|cmd| - |name|), " ");
      cmd := cmd + " ";
    }
  }

  /** The loop of listCommands: one padded line per command, in the given order. */
  method EmitLines(methods: seq<CommandSpec>, longestCommand: nat) returns (sb: string)
    ensures sb == ListLines(methods, longestCommand)
  {
    sb := "";
    for i := 0 to |methods|
      invariant sb == ListLines(methods[..i], longestCommand)
    {
      ListLinesSnoc(methods, i, longestCommand);
      var cmd := PadName(methods[i].name, longestCommand);
      var line := cmd + "  " + UsageOf(methods[i].usage) + "\n";
      assert line == ListLine(methods[i], longestCommand);
      sb := sb + line;
    }
    assert methods[..|methods|] == methods;
  }

  /** listCommands: sort by name, measure the longest name, emit one padded line per command. */
  method ListCommands(cmds: seq<CommandSpec>) returns (sb: string)
    ensures sb == ListText(cmds)
  {
    var methods := Sorting.Sort(cmds, NameLe);
    var longestCommand := LongestName(methods);
    sb := EmitLines(methods, longestCommand);
  }

  // ---------------------------------------------------------------------
  // What the texts promise

  /** The signature shows exactly the positional parameters. */
  lemma {:induction false} ArgumentsMembership(ps: seq<ParamSpec>, p: ParamSpec)
    ensures p in Arguments(ps) <==> p in ps && IsPositional(p)
  {
    if ps != [] {
      ArgumentsMembership(ps[..|ps| - 1], p);
      assert ps == ps[..|ps| - 1] + [ps[|ps| - 1]];
    }
  }

  lemma {:induction false} FlagsMembership(ps: seq<ParamSpec>, p: ParamSpec)
    ensures p in Flags(ps) <==> p in ps && p.role.Flag?
  {
    if ps != [] {
      FlagsMembership(ps[..|ps| - 1], p);
      assert ps == ps[..|ps| - 1] + [ps[|ps| - 1]];
    }
  }

  /** The first argument's text opens the argument part. */
  lemma {:induction false} ArgsTextFirst(args: seq<ParamSpec>)
    requires args != []
    ensures ArgText(args[0]) <= ArgsText(args)
  {
    if |args| > 1 {
      ArgsTextFirst(args[..|args| - 1]);
    }
  }

  /**
   * The signature starts with "Usage: " and the command name, followed by
   * " [FLAG...]" exactly when the command has a flag.
   */
  lemma SignatureHeader(c: CommandSpec)
    ensures "Usage: " + c.name <= Signature(c)
    ensures "Usage: " + c.name + " [FLAG...]" <= Signature(c) <==> |Flags(c.params)| > 0
  {
    var head := "Usage: " + c.name;
    var args := Arguments(c.params);
    var rest := ArgsText(args) + Repeat(']', OptionalCount(args));
    if |Flags(c.params)| == 0 {
      ConcatAssoc(head, ArgsText(args), Repeat(']', OptionalCount(args)));
      assert Signature(c) == head + rest;
      if args != [] {
        ArgsTextFirst(args);
        var first := ArgText(args[0]);
        assert rest[..|first|] == first;
        assert rest[1] == '<' || rest[2] == '<';
        assert Signature(c)[|head| + 1] == rest[1] && Signature(c)[|head| + 2] == rest[2];
      }
    } else {
      ConcatAssoc(head, " [FLAG...]", rest);
      ConcatAssoc(head + " [FLAG...]", ArgsText(args), Repeat(']', OptionalCount(args)));
    }
  }

  /**
   * The usage text opens with the signature on a line of its own, followed by
   * the @Usage text on the next line when there is one; with neither a @Usage
   * text nor a flag, that line is all there is.
   */
  lemma UsageFirstLine(c: CommandSpec)
    ensures Signature(c) + "\n" <= UsageText(c)
    ensures c.usage.Some? ==> Signature(c) + "\n" + c.usage.value + "\n" <= UsageText(c)
    ensures c.usage.None? && |SortedFlags(c.params)| == 0 ==> UsageText(c) == Signature(c) + "\n"
  {
    var flags := SortedFlags(c.params);
    var line := Signature(c) + "\n";
    var u := if c.usage.Some? then c.usage.value + "\n" else "";
    var rest := (if |flags| > 0 then "\nFLAGS:\n" else "") + FlagLines(flags, LongestAlternative(flags));
    ConcatAssoc(line + u, (if |flags| > 0 then "\nFLAGS:\n" else ""), FlagLines(flags, LongestAlternative(flags)));
    assert UsageText(c) == (line + u) + rest;
    assert ((line + u) + rest)[..|line + u|] == line + u;
    assert (line + u)[..|line|] == line;
    if c.usage.Some? {
      ConcatAssoc(line, c.usage.value, "\n");
      assert line + u == Signature(c) + "\n" + c.usage.value + "\n";
    } else if |flags| == 0 {
      assert FlagLines(flags, LongestAlternative(flags)) == "";
      assert rest == "";
    }
  }

  /** One argument's text holds one "[" when it is optional, and no "]". */
  lemma ArgTextBracket(p: ParamSpec, b: char)
    requires b == '[' || b == ']'
    requires b !in Label(p)
    ensures Occurrences(b, ArgText(p)) == if b == '[' && IsOptional(p) then 1 else 0
  {
    var opt := if IsOptional(p) then "[" else "";
    var tail := "<" + Label(p) + ">" + (if p.kind.Array? then "..." else "");
    assert ArgText(p) == " " + opt + tail;
    OccurrencesAppend(b, " " + opt, tail);
    OccurrencesAppend(b, " ", opt);
    OccurrencesAbsent(b, " ");
    OccurrencesAbsent(b, tail);
    assert Occurrences(b, opt) == if b == '[' && IsOptional(p) then 1 else 0 by {
      if IsOptional(p) { assert opt[..0] == []; }
    }
  }

  /** Java class names carry no square brackets. */
  predicate PlainLabels(args: seq<ParamSpec>) {
    forall i :: 0 <= i < |args| ==> '[' !in Label(args[i]) && ']' !in Label(args[i])
  }

  lemma {:induction false} ArgsTextBrackets(args: seq<ParamSpec>)
    requires PlainLabels(args)
    ensures Occurrences('[', ArgsText(args)) == OptionalCount(args)
    ensures Occurrences(']', ArgsText(args)) == 0
  {
    if args != [] {
      var init := args[..|args| - 1];
      var p := args[|args| - 1];
      assert PlainLabels(init) by {
        forall i | 0 <= i < |init| ensures '[' !in Label(init[i]) && ']' !in Label(init[i]) {
          assert init[i] == args[i];
        }
      }
      ArgsTextBrackets(init);
      ArgTextBracket(p, '[');
      ArgTextBracket(p, ']');
      OccurrencesAppend('[', ArgsText(init), ArgText(p));
      OccurrencesAppend(']', ArgsText(init), ArgText(p));
    }
  }

  /**
   * After the command name, every optional argument opens one "[" and the
   * closing "]"s all follow the last argument, so the brackets balance.
   */
  lemma BracketsBalance(c: CommandSpec)
    requires PlainLabels(Arguments(c.params))
    ensures var head := "Usage: " + c.name + (if |Flags(c.params)| > 0 then " [FLAG...]" else "");
            var tail := Signature(c)[|head|..];
            var n := OptionalCount(Arguments(c.params));
            Occurrences('[', tail) == n && Occurrences(']', tail) == n &&
            tail[|tail| - n..] == Repeat(']', n)
  {
    var args := Arguments(c.params);
    var head := "Usage: " + c.name + (if |Flags(c.params)| > 0 then " [FLAG...]" else "");
    var n := OptionalCount(args);
    assert Signature(c) == head + (ArgsText(args) + Repeat(']', n));
    assert Signature(c)[|head|..] == ArgsText(args) + Repeat(']', n);
    ArgsTextBrackets(args);
    OccurrencesAppend('[', ArgsText(args), Repeat(']', n));
    OccurrencesAppend(']', ArgsText(args), Repeat(']', n));
    OccurrencesRepeat('[', ']', n);
    OccurrencesRepeat(']', ']', n);
  }

  lemma TriggerOrder()
    ensures Sorting.TotalPreorder(TriggerLe)
  {
  }

  /** The flag table lists every flag, and no other parameter, by ascending trigger. */
  lemma FlagOrder(ps: seq<ParamSpec>)
    ensures Sorting.Sorted(SortedFlags(ps), TriggerLe)
    ensures forall p :: p in SortedFlags(ps) <==> p in ps && p.role.Flag?
    ensures multiset(SortedFlags(ps)) == multiset(Flags(ps))
  {
    TriggerOrder();
    Sorting.SortSorted(Flags(ps), TriggerLe);
    forall p
      ensures p in SortedFlags(ps) <==> p in ps && p.role.Flag?
    {
      FlagsMembership(ps, p);
      assert p in SortedFlags(ps) <==> p in multiset(SortedFlags(ps));
      assert p in Flags(ps) <==> p in multiset(Flags(ps));
    }
  }

  /** The layout of a table row: head, padding, two spaces, then the rest. */
  lemma RowLayout(head: string, pad: string, u: string)
    ensures var line := head + pad + "  " + u + "\n";
            |line| == |head| + |pad| + 3 + |u| && line[..|head|] == head &&
            line[|head| + |pad|..|head| + |pad| + 2] == "  " && line[|head| + |pad| + 2..] == u + "\n"
  {
    var line := head + pad + "  " + u + "\n";
    assert line == (head + pad) + ("  " + u + "\n");
    assert line[..|head|] == head;
  }

  /** The layout of one flag row at a width that fits its head. */
  lemma FlagRowLayout(p: ParamSpec, w: nat)
    requires AltWidth(p) <= w
    ensures var line := FlagLine(p, w);
            |line| >= 6 + w && line[4 + w..6 + w] == "  " &&
            line[6 + w..] == UsageOf(p.usage) + "\n" &&
            line[..4 + AltWidth(p)] == FlagHead(p)
  {
    assert |FlagHead(p)| == 4 + AltWidth(p);
    RowLayout(FlagHead(p), Spaces(Padding(p, w)), UsageOf(p.usage));
  }

  /** In every row of the flag table the usage text starts at the same column, after two spaces. */
  lemma FlagColumns(flags: seq<ParamSpec>, i: nat)
    requires i < |flags|
    ensures var w := LongestAlternative(flags);
            var line := FlagLine(flags[i], w);
            |line| >= 6 + w && line[4 + w..6 + w] == "  " &&
            line[6 + w..] == UsageOf(flags[i].usage) + "\n" &&
            line[..4 + AltWidth(flags[i])] == FlagHead(flags[i])
  {
    FlagRowLayout(flags[i], LongestAlternative(flags));
  }

  lemma NameOrder()
    ensures Sorting.TotalPreorder(NameLe)
  {
    forall a, b
      ensures NameLe(a, b) || NameLe(b, a)
    {
      StrLeTotal(a.name, b.name);
    }
    forall a, b, c | NameLe(a, b) && NameLe(b, c)
      ensures NameLe(a, c)
    {
      StrLeTransitive(a.name, b.name, c.name);
    }
  }

  /** The listing shows every command once, by ascending name. */
  lemma ListingSorted(cmds: seq<CommandSpec>)
    ensures Sorting.Sorted(Sorting.Sort(cmds, NameLe), NameLe)
    ensures multiset(Sorting.Sort(cmds, NameLe)) == multiset(cmds)
  {
    NameOrder();
    Sorting.SortSorted(cmds, NameLe);
  }

  /** Every name in the listing is padded to the longest name, so the usage texts line up. */
  lemma ListingColumns(cmds: seq<CommandSpec>, i: nat)
    requires i < |cmds|
    ensures var w := LongestName(cmds);
            var line := ListLine(cmds[i], w);
            |line| >= w + 2 && line[..|cmds[i].name|] == cmds[i].name &&
            line[w..w + 2] == "  " && line[w + 2..] == UsageOf(cmds[i].usage) + "\n"
  {
    var w := LongestName(cmds);
    var c := cmds[i];
    assert |c.name| <= w;
    var pad := if |c.name| < w then Spaces(w - |c.name|) else "";
    assert PadRight(c.name, w) == c.name + pad;
    RowLayout(c.name, pad, UsageOf(c.usage));
  }

  /** One line per command, when names and usage texts hold no line break. */
  lemma {:induction false} ListingLines(cmds: seq<CommandSpec>, w: nat)
    requires forall i :: 0 <= i < |cmds| ==> '\n' !in cmds[i].name && '\n' !in UsageOf(cmds[i].usage)
    ensures Occurrences('\n', ListLines(cmds, w)) == |cmds|
  {
    if cmds != [] {
      var c := cmds[|cmds| - 1];
      ListingLines(cmds[..|cmds| - 1], w);
      OccurrencesAppend('\n', ListLines(cmds[..|cmds| - 1], w), ListLine(c, w));
      OccurrencesAppend('\n', PadRight(c.name, w) + "  " + UsageOf(c.usage), "\n");
      OccurrencesAppend('\n', PadRight(c.name, w) + "  ", UsageOf(c.usage));
      OccurrencesAppend('\n', PadRight(c.name, w), "  ");
      OccurrencesAbsent('\n', UsageOf(c.usage));
      OccurrencesAbsent('\n', "  ");
      if |c.name| < w {
        OccurrencesAppend('\n', c.name, Spaces(w - |c.name|));
        OccurrencesAbsent('\n', Spaces(w - |c.name|));
      }
      OccurrencesAbsent('\n', c.name);
      assert Occurrences('\n', "\n") == 1 by {
        assert "\n"[..0] == [];
      }
    }
  }

  /**
   * The listing does not depend on the order the commands come in, as long
   * as a name identifies one command.
   */
  lemma ListingOrderIndependent(a: seq<CommandSpec>, b: seq<CommandSpec>)
    requires multiset(a) == multiset(b)
    requires forall x, y :: x in a && y in a && x.name == y.name ==> x == y
    ensures ListText(a) == ListText(b)
  {
    ListingSorted(a);
    ListingSorted(b);
    var sa := Sorting.Sort(a, NameLe);
    var sb := Sorting.Sort(b, NameLe);
    forall x, y | x in multiset(sa) && y in multiset(sa) && NameLe(x, y) && NameLe(y, x)
      ensures x == y
    {
      StrLeAntisymmetric(x.name, y.name);
      assert x in multiset(a) && y in multiset(a);
    }
    Sorting.SortedUnique(sa, sb, NameLe);
  }
}
