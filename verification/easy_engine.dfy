/**
 * EasyEngine: the registry of commands and the three queries on it, parse,
 * usage and listCommands.
 */
module EasyEngine {
  import opened Outcomes
  import opened Params
  import TypeParser
  import CliSplitter
  import Classifier
  import Binder
  import Registration
  import UsagePrinter
  import Sorting

  /** The handler parse would invoke, and the values of its parameters. */
  datatype Call = Call(command: string, values: seq<Value>)

  // ---------------------------------------------------------------------
  // Registration

  /**
   * The outcome of registering one @Command method: its parameters must be
   * accepted, its name non-empty and not yet taken.
   */
  function RegisterOutcome(commands: map<string, CommandSpec>, c: CommandSpec): Outcome {
    if !Registration.WellFormed(c.params) then Fail(MalformedMethod)
    else if c.name == "" then Fail(MalformedMethod)
    else if c.name in commands then Fail(KeyAlreadyExists)
    else Pass
  }

  /** The registry after one registration attempt. */
  function RegisterOne(commands: map<string, CommandSpec>, c: CommandSpec): map<string, CommandSpec> {
    if RegisterOutcome(commands, c).Pass? then commands[c.name := c] else commands
  }

  /**
   * register(obj): the object's @Command methods in turn; the first failure
   * stops the loop and keeps the commands registered before it.
   */
  function RegisterRun(commands: map<string, CommandSpec>, cs: seq<CommandSpec>): (map<string, CommandSpec>, Outcome) {
    if cs == [] then (commands, Pass)
    else
      var before := RegisterRun(commands, cs[..|cs| - 1]);
      if before.1.Fail? then before
      else (RegisterOne(before.0, cs[|cs| - 1]), RegisterOutcome(before.0, cs[|cs| - 1]))
  }

  /** Every entry is stored under its own non-empty name and has accepted parameters. */
  ghost predicate Registry(commands: map<string, CommandSpec>) {
    forall k :: k in commands ==> commands[k].name == k && k != "" && Registration.WellFormed(commands[k].params)
  }

  /** Registration keeps the registry well formed and never replaces an entry. */
  lemma {:induction false} RegisterRunKeeps(commands: map<string, CommandSpec>, cs: seq<CommandSpec>)
    requires Registry(commands)
    ensures Registry(RegisterRun(commands, cs).0)
    ensures forall k :: k in commands ==> k in RegisterRun(commands, cs).0 && RegisterRun(commands, cs).0[k] == commands[k]
  {
    if cs != [] {
      RegisterRunKeeps(commands, cs[..|cs| - 1]);
    }
  }

  /** A run that succeeds registers each command under its name. */
  lemma {:induction false} RegisterRunAdds(commands: map<string, CommandSpec>, cs: seq<CommandSpec>, i: nat)
    requires i < |cs| && RegisterRun(commands, cs).1.Pass?
    ensures cs[i].name in RegisterRun(commands, cs).0
    ensures RegisterRun(commands, cs).0[cs[i].name] == cs[i]
  {
    var init := cs[..|cs| - 1];
    var before := RegisterRun(commands, init);
    if i < |cs| - 1 {
      RegisterRunAdds(commands, init, i);
      assert init[i] == cs[i];
    }
  }

  /** A failed step is the failure of the whole run. */
  lemma {:induction false} RegisterRunStops(commands: map<string, CommandSpec>, cs: seq<CommandSpec>, n: nat)
    requires n <= |cs| && RegisterRun(commands, cs[..n]).1.Fail?
    ensures RegisterRun(commands, cs) == RegisterRun(commands, cs[..n])
    decreases |cs|
  {
    if n < |cs| {
      assert cs[..|cs| - 1][..n] == cs[..n];
      RegisterRunStops(commands, cs[..|cs| - 1], n);
    } else {
      assert cs[..n] == cs;
    }
  }

  // ---------------------------------------------------------------------
  // Parsing

  /**
   * parse after splitting: classify the tokens after the command name, look
   * the name up, bind the parameters.
   */
  function ParseTokens(commands: map<string, CommandSpec>, parts: seq<string>, metadata: seq<Value>,
                       fp: TypeParser.FloatParsers): (r: Result<Call>)
    ensures r.Success? ==> r.value.command in commands && |r.value.values| == |commands[r.value.command].params|
  {
    var classified :- Classifier.Classify(if parts == [] then [] else parts[1..]);
    if parts == [] then Failure(IndexOutOfBounds)
    else if parts[0] !in commands then Failure(CommandNotFound)
    else
      var values :- Binder.BindSpec(commands[parts[0]].params, classified.flags, classified.arguments, metadata, fp);
      Success(Call(parts[0], values))
  }

  /** parse(cmd, metadata...) up to the reflective call. */
  function ParseSpec(commands: map<string, CommandSpec>, cmd: string, metadata: seq<Value>,
                     fp: TypeParser.FloatParsers): Result<Call> {
    var parts :- CliSplitter.Tokens(cmd);
    ParseTokens(commands, parts, metadata, fp)
  }

  /** usage(cmd): the usage text of the command the line names. */
  function UsageSpec(commands: map<string, CommandSpec>, cmd: string): Result<string> {
    var parts :- CliSplitter.Tokens(cmd);
    if parts == [] then Failure(IndexOutOfBounds)
    else if parts[0] !in commands then Failure(CommandNotFound)
    else Success(UsagePrinter.UsageText(commands[parts[0]]))
  }

  /** Flag tokens may stand anywhere after the command name. */
  lemma FlagPlacement(commands: map<string, CommandSpec>, name: string, a: seq<string>, f: string, b: seq<string>,
                      metadata: seq<Value>, fp: TypeParser.FloatParsers)
    requires !Classifier.IsArgument(f)
    ensures ParseTokens(commands, [name] + a + [f] + b, metadata, fp) == ParseTokens(commands, [name, f] + a + b, metadata, fp)
  {
    var s1 := [name] + a + [f] + b;
    var s2 := [name, f] + a + b;
    assert s1[1..] == a + [f] + b;
    assert s2[1..] == [f] + a + b;
    Classifier.FlagPlacement(a, f, b);
    var c1 := Classifier.Classify(a + [f] + b);
    var c2 := Classifier.Classify([f] + a + b);
    if c1.Success? && name in commands {
      Binder.BindFlagsAsSet(commands[name].params, c1.value.flags, c2.value.flags, c1.value.arguments, metadata, fp);
    }
  }

  /** A bare "-" after the command name crashes parse before the command is looked up. */
  lemma BareDash(commands: map<string, CommandSpec>, parts: seq<string>, metadata: seq<Value>, fp: TypeParser.FloatParsers)
    requires exists i :: 1 <= i < |parts| && parts[i] == "-"
    ensures ParseTokens(commands, parts, metadata, fp) == Failure(StringIndexOutOfBounds)
  {
    var i :| 1 <= i < |parts| && parts[i] == "-";
    assert parts[1..][i - 1] == "-";
  }

  /**
   * A "--" token names the empty flag, which switches on every flag that
   * has no alternative name.
   */
  lemma DoubleDash(commands: map<string, CommandSpec>, name: string, a: seq<string>, b: seq<string>,
                   metadata: seq<Value>, fp: TypeParser.FloatParsers, i: nat)
    requires name in commands && i < |commands[name].params|
    requires commands[name].params[i].role.Flag? && commands[name].params[i].role.alternative == ""
    requires ParseTokens(commands, [name] + a + ["--"] + b, metadata, fp).Success?
    ensures ParseTokens(commands, [name] + a + ["--"] + b, metadata, fp).value.values[i] == BoolV(true)
  {
    var parts := [name] + a + ["--"] + b;
    var rest := a + ["--"] + b;
    assert parts[1..] == rest;
    var cls := Classifier.Classify(rest).value;
    Classifier.FlagMembership(rest, "");
    assert rest[|a|] == "--" && Classifier.Activates(rest[|a|], "");
    Binder.Slots(commands[name].params, cls.flags, cls.arguments, metadata, fp, i);
  }

  /** A command `/add` with two int parameters. */
  function AddCommand(): CommandSpec {
    CommandSpec("/add", [ParamSpec(Int, Positional, Required, None), ParamSpec(Int, Positional, Required, None)], None)
  }

  lemma AddTokens()
    ensures CliSplitter.Tokens("/add 5 1") == Success(["/add", "5", "1"])
  {
    var ws := [CliSplitter.Bare("/add"), CliSplitter.Bare("5"), CliSplitter.Bare("1")];
    assert CliSplitter.WordOk(ws[0]) && CliSplitter.WordOk(ws[1]) && CliSplitter.WordOk(ws[2]);
    CliSplitter.RoundTrip(ws);
    assert CliSplitter.Join(ws[2..]) == "1";
    assert CliSplitter.Join(ws[1..]) == "5 1";
    assert CliSplitter.Join(ws) == "/add 5 1";
    assert CliSplitter.Texts(ws) == ["/add", "5", "1"];
  }

  lemma AddArguments()
    ensures Classifier.Classify(["5", "1"]) == Success(Classifier.Classified([], ["5", "1"]))
  {
    var args := ["5", "1"];
    assert args[1..] == ["1"] && args[1..][1..] == [];
    assert Classifier.LongFlags(["1"]) == [] && Classifier.ShortFlags(["1"]) == [];
    assert Classifier.LongFlags(args) == [] && Classifier.ShortFlags(args) == [];
    assert Classifier.Arguments(["1"]) == ["1"];
    assert Classifier.Arguments(args) == args;
    assert "-" !in args by {
      assert args[0] != "-" && args[1] != "-";
    }
  }

  lemma AddBinding(fp: TypeParser.FloatParsers)
    ensures Binder.BindSpec(AddCommand().params, [], ["5", "1"], [], fp) == Success([IntV(5), IntV(1)])
  {
    var args := ["5", "1"];
    assert TypeParser.ToInt("5") == Success(IntV(5)) by {
      assert TypeParser.SignedDecimal("5") == Some(5);
    }
    assert TypeParser.ToInt("1") == Success(IntV(1)) by {
      assert TypeParser.SignedDecimal("1") == Some(1);
    }
    var ps := AddCommand().params;
    assert TypeParser.ParseType(Int, "5", fp) == Success(IntV(5));
    assert TypeParser.ParseType(Int, "1", fp) == Success(IntV(1));
    assert Binder.ArgumentSpec(ps[0], args, 0, fp) == Success(Binder.Taken(IntV(5), 1));
    assert Binder.ArgumentSpec(ps[1], args, 1, fp) == Success(Binder.Taken(IntV(1), 2));
    assert Binder.BindPrefix(ps, 0, [], args, [], fp) == Success(Binder.Progress([], Binder.Cursors(0, 0)));
    assert Binder.Step(ps[0], [], args, [], Binder.Cursors(0, 0), fp) == Success((IntV(5), Binder.Cursors(1, 0)));
    assert Binder.Step(ps[1], [], args, [], Binder.Cursors(1, 0), fp) == Success((IntV(1), Binder.Cursors(2, 0)));
    assert [] + [IntV(5)] == [IntV(5)] && [IntV(5)] + [IntV(1)] == [IntV(5), IntV(1)];
    assert Binder.BindPrefix(ps, 1, [], args, [], fp) == Success(Binder.Progress([IntV(5)], Binder.Cursors(1, 0)));
    assert Binder.BindPrefix(ps, 2, [], args, [], fp) == Success(Binder.Progress([IntV(5), IntV(1)], Binder.Cursors(2, 0)));
    assert Binder.PositionalCount(ps) == 2 by {
      assert ps[..1] == [ps[0]];
    }
  }

  /** "/add 5 1" invokes the handler with 5 and 1. */
  lemma AddExample(fp: TypeParser.FloatParsers)
    ensures ParseSpec(map["/add" := AddCommand()], "/add 5 1", [], fp) == Success(Call("/add", [IntV(5), IntV(1)]))
  {
    AddTokens();
    AddArguments();
    AddBinding(fp);
    assert ["/add", "5", "1"][1..] == ["5", "1"];
  }

  // ---------------------------------------------------------------------
  // The engine

  /** Commands that differ are told apart by name. */
  ghost predicate Distinct(s: seq<CommandSpec>) {
    forall i, j :: 0 <= i < j < |s| ==> s[i].name != s[j].name
  }

  lemma {:induction false} DistinctCount(s: seq<CommandSpec>, x: CommandSpec)
    requires Distinct(s)
    ensures multiset(s)[x] == if x in s then 1 else 0
  {
    if s != [] {
      var init := s[..|s| - 1];
      assert s == init + [s[|s| - 1]];
      DistinctCount(init, x);
      if x == s[|s| - 1] {
        assert x !in init;
      }
    }
  }

  /** Two name-distinct sequences with the same elements are permutations of each other. */
  lemma SameElements(a: seq<CommandSpec>, b: seq<CommandSpec>)
    requires Distinct(a) && Distinct(b) && forall x :: x in a <==> x in b
    ensures multiset(a) == multiset(b)
  {
    forall x
      ensures multiset(a)[x] == multiset(b)[x]
    {
      DistinctCount(a, x);
      DistinctCount(b, x);
    }
  }

  /** Taking one entry out of a registry. */
  lemma RemoveEntry(commands: map<string, CommandSpec>, k: string)
    requires Registry(commands) && k in commands
    ensures Registry(commands - {k})
    ensures forall x :: x in (commands - {k}).Values <==> x in commands.Values && x.name != k
  {
    var rest := commands - {k};
    forall x
      ensures x in rest.Values <==> x in commands.Values && x.name != k
    {
      if x in rest.Values {
        var j :| j in rest && rest[j] == x;
      }
      if x in commands.Values && x.name != k {
        var j :| j in commands && commands[j] == x;
        assert j in rest;
      }
    }
  }

  /** Appending the entry under `k` to an enumeration of the other entries. */
  lemma EntriesStep(commands: map<string, CommandSpec>, k: string, rest: seq<CommandSpec>)
    requires Registry(commands) && k in commands
    requires Distinct(rest) && forall x :: x in rest <==> x in commands.Values && x.name != k
    ensures Distinct(rest + [commands[k]])
    ensures forall x :: x in rest + [commands[k]] <==> x in commands.Values
  {
    var r := rest + [commands[k]];
    assert commands[k] in commands.Values && commands[k].name == k;
    forall i, j | 0 <= i < j < |r|
      ensures r[i].name != r[j].name
    {
      if j == |rest| {
        assert r[i] in rest;
      }
    }
    forall x | x in commands.Values
      ensures x in r
    {
      var j :| j in commands && commands[j] == x;
      if x.name == k {
        assert x == commands[k];
      }
    }
  }

  /** The commands of the registry in some order. */
  ghost function Entries(commands: map<string, CommandSpec>): (r: seq<CommandSpec>)
    requires Registry(commands)
    ensures Distinct(r) && forall x :: x in r <==> x in commands.Values
    decreases |commands|
  {
    if commands == map[] then []
    else
      var k :| k in commands;
      RemoveEntry(commands, k);
      var rest := Entries(commands - {k});
      EntriesStep(commands, k, rest);
      rest + [commands[k]]
  }

  class Engine {
    /** The registered commands by name. */
    var commands: map<string, CommandSpec>

    ghost predicate Valid()
      reads this
    {
      Registry(commands)
    }

    constructor ()
      ensures Valid() && commands == map[]
    {
      commands := map[];
    }

    /** Registers one @Command method. */
    method Register(c: CommandSpec) returns (r: Outcome)
      requires Valid()
      modifies this
      ensures Valid()
      ensures r == RegisterOutcome(old(commands), c)
      ensures commands == RegisterOne(old(commands), c)
    {
      var ok := Registration.ValidateParams(c.params);
      if !ok {
        return Fail(MalformedMethod);
      }
      if c.name == "" {
        return Fail(MalformedMethod);
      }
      if c.name in commands {
        return Fail(KeyAlreadyExists);
      }
      commands := commands[c.name := c];
      return Pass;
    }

    /** register(obj): each @Command method in turn, stopping at the first failure. */
    method RegisterAll(cs: seq<CommandSpec>) returns (r: Outcome)
      requires Valid()
      modifies this
      ensures Valid()
      ensures (commands, r) == RegisterRun(old(commands), cs)
    {
      for i := 0 to |cs|
        invariant Valid()
        invariant RegisterRun(old(commands), cs[..i]) == (commands, Pass)
      {
        assert cs[..i + 1][..i] == cs[..i];
        r := Register(cs[i]);
        if r.Fail? {
          RegisterRunStops(old(commands), cs, i + 1);
          return;
        }
      }
      assert cs[..|cs|] == cs;
      return Pass;
    }

    /** parse(cmd, metadata...): the handler to invoke and its parameter values. */
    method Parse(cmd: string, metadata: seq<Value>, fp: TypeParser.FloatParsers) returns (r: Result<Call>)
      requires Valid()
      ensures r == ParseSpec(commands, cmd, metadata, fp)
    {
      var parts := CliSplitter.Split(cmd);
      if parts.Failure? {
        return Failure(parts.error);
      }
      var classified := Classifier.Classify(if parts.value == [] then [] else parts.value[1..]);
      if classified.Failure? {
        return Failure(classified.error);
      }
      if parts.value == [] {
        return Failure(IndexOutOfBounds);
      }
      var command := parts.value[0];
      if command !in commands {
        return Failure(CommandNotFound);
      }
      var values := Binder.Bind(commands[command].params, classified.value.flags, classified.value.arguments, metadata, fp);
      if values.Failure? {
        return Failure(values.error);
      }
      return Success(Call(command, values.value));
    }

    /** usage(cmd). */
    method Usage(cmd: string) returns (r: Result<string>)
      requires Valid()
      ensures r == UsageSpec(commands, cmd)
    {
      var parts := CliSplitter.Split(cmd);
      if parts.Failure? {
        return Failure(parts.error);
      }
      if parts.value == [] {
        return Failure(IndexOutOfBounds);
      }
      var command := parts.value[0];
      if command !in commands {
        return Failure(CommandNotFound);
      }
      var text := UsagePrinter.CommandUsage(commands[command]);
      return Success(text);
    }

    /** listCommands(): the listing of every registered command, whatever the map's order. */
    method ListCommands() returns (s: string)
      requires Valid()
      ensures s == UsagePrinter.ListText(Entries(commands))
    {
      var keys := commands.Keys;
      var methods: seq<CommandSpec> := [];
      while keys != {}
        invariant keys <= commands.Keys
        invariant Distinct(methods)
        invariant forall x :: x in methods ==> x in commands.Values && x.name !in keys
        invariant forall k :: k in commands && k !in keys ==> commands[k] in methods
        decreases keys
      {
        var k :| k in keys;
        methods := methods + [commands[k]];
        keys := keys - {k};
      }
      SameElements(methods, Entries(commands));
      UsagePrinter.ListingOrderIndependent(methods, Entries(commands));
      s := UsagePrinter.ListCommands(methods);
    }
  }
}
