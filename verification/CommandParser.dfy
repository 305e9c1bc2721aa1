/** Sorting the tokens of a command line into arguments and options, and giving them to
    their definitions: tokens that start with a dash are options, the token after one that
    takes a value is its value, and arguments go to the definitions by position. */
module CommandParser {
  import opened Wrappers

  type Token = string

  datatype Arg = Arg(name: string, optional: bool, multiple: bool, values: Option<set<string>>)

  /** The short form as declared: none, the first letter of the name, or a given text. */
  datatype Short = NoShort | FirstLetter | Given(text: string)

  datatype Opt = Opt(name: string, short: Short, takeValue: bool, values: Option<set<string>>)

  datatype Command = Command(args: Option<seq<Arg>>, options: Option<seq<Opt>>, subcommands: Option<seq<string>>)

  datatype Error =
    | UnexpectedOption(token: Token)
    | NoSubcommand(token: Token)
    | TooManyArguments(count: nat)
    | ArgumentMissing(name: string)
    | BadArgumentValue(token: Token)
    | OptionValueMissing(name: string)
    | BadOptionValue(token: Token)

  // ----- Declaring arguments -----

  /** Required arguments come first, and only the last may take several values. */
  predicate WellDeclared(args: seq<Arg>) {
    && (forall i, j | 0 <= i < j < |args| && args[i].optional :: args[j].optional)
    && (forall i | 0 <= i < |args| && args[i].multiple :: args[i].name == args[|args| - 1].name)
  }

  method CreateArgs(args: seq<Arg>) returns (ok: bool)
    ensures ok <==> WellDeclared(args)
  {
    var isOptional := false;
    var i := 0;
    while i < |args|
      invariant 0 <= i <= |args|
      invariant isOptional <==> exists k :: 0 <= k < i && args[k].optional
      invariant forall k, j | 0 <= k < j < i && args[k].optional :: args[j].optional
      invariant forall k | 0 <= k < i && args[k].multiple :: args[k].name == args[|args| - 1].name
    {
      var arg := args[i];
      if isOptional && !arg.optional {
        return false;
      }
      if arg.multiple && arg.name != args[|args| - 1].name {
        return false;
      }
      if arg.optional {
        isOptional := true;
      }
      i := i + 1;
    }
    ok := true;
  }

  // ----- Declaring options -----

  predicate HasShort(opt: Opt) { opt.short.FirstLetter? || (opt.short.Given? && opt.short.text != "") }

  /** The short form as one letter, if it is one. */
  function Letter(opt: Opt): Option<string> {
    match opt.short
    case FirstLetter => if opt.name == "" then None else Some(opt.name[..1])
    case Given(text) => if |text| == 1 then Some(text) else None
    case NoShort => None
  }

  /** `other` stands in the way of the short form of `opt`. */
  predicate Blocks(other: Opt, opt: Opt) {
    other.name != opt.name && HasShort(other) && (Letter(other).None? || Letter(other) == Letter(opt))
  }

  predicate ShortsAccepted(opts: seq<Opt>) {
    && (forall i | 0 <= i < |opts| && HasShort(opts[i]) :: Letter(opts[i]).Some?)
    && (forall i, j | 0 <= i < |opts| && 0 <= j < |opts| && HasShort(opts[i]) :: !Blocks(opts[j], opts[i]))
  }

  function Normal(opt: Opt): (r: Opt)
    ensures r.name == opt.name && HasShort(r) == HasShort(opt) && Letter(r) == Letter(opt)
  {
    if HasShort(opt) && Letter(opt).Some? then opt.(short := Given(Letter(opt).value)) else opt
  }

  /** Accepted are options whose short forms are single letters, different for different names. */
  lemma ShortsAcceptedIff(opts: seq<Opt>)
    ensures ShortsAccepted(opts) <==>
              && (forall a | a in opts && a.short == FirstLetter :: a.name != "")
              && (forall a | a in opts && a.short.Given? :: |a.short.text| <= 1)
              && (forall a, b | a in opts && b in opts && HasShort(a) && HasShort(b) && a.name != b.name ::
                    Letter(a) != Letter(b))
  {
    hide Blocks;
    if ShortsAccepted(opts) {
      forall a | a in opts && HasShort(a) ensures Letter(a).Some? {
        var i :| 0 <= i < |opts| && opts[i] == a;
      }
      forall a, b | a in opts && b in opts && HasShort(a) && HasShort(b) && a.name != b.name
        ensures Letter(a) != Letter(b)
      {
        var i :| 0 <= i < |opts| && opts[i] == a;
        var j :| 0 <= j < |opts| && opts[j] == b;
        assert !Blocks(opts[j], opts[i]);
        BlocksIff(b, a);
      }
    } else {
      if i :| 0 <= i < |opts| && HasShort(opts[i]) && Letter(opts[i]).None? {
        assert opts[i] in opts;
      } else {
        var i, j :| 0 <= i < |opts| && 0 <= j < |opts| && HasShort(opts[i]) && Blocks(opts[j], opts[i]);
        assert opts[i] in opts && opts[j] in opts;
        BlocksIff(opts[j], opts[i]);
      }
    }
  }

  lemma BlocksIff(other: Opt, opt: Opt)
    ensures Blocks(other, opt) <==>
              other.name != opt.name && HasShort(other) && (Letter(other).None? || Letter(other) == Letter(opt))
  {
  }

  method CreateOptions(opts: seq<Opt>) returns (r: Option<seq<Opt>>)
    ensures r.Some? <==> ShortsAccepted(opts)
    ensures r.Some? ==> |r.value| == |opts| && forall i | 0 <= i < |opts| :: r.value[i] == Normal(opts[i])
  {
    var current := opts;
    var i := 0;
    while i < |opts|
      invariant 0 <= i <= |opts| == |current|
      invariant forall k | 0 <= k < |opts| :: current[k] == if k < i then Normal(opts[k]) else opts[k]
      invariant forall k | 0 <= k < i && HasShort(opts[k]) :: Letter(opts[k]).Some?
      invariant forall k, j | 0 <= k < i && 0 <= j < |opts| && HasShort(opts[k]) :: !Blocks(opts[j], opts[k])
    {
      var opt := current[i];
      if HasShort(opt) {
        if Letter(opt).None? {
          return None;
        }
        var j := 0;
        while j < |current|
          invariant 0 <= j <= |current|
          invariant forall k | 0 <= k < j :: !Blocks(opts[k], opts[i])
        {
          assert Blocks(current[j], opt) == Blocks(opts[j], opts[i]);
          if Blocks(current[j], opt) {
            return None;
          }
          j := j + 1;
        }
        current := current[i := Normal(opt)];
      }
      i := i + 1;
    }
    r := Some(current);
  }

  // ----- Collecting -----

  predicate IsDashed(token: Token) { token != "" && token[0] == '-' }

  /** A short form that is not a text is printed like any other value. */
  function ShortFlag(opt: Opt): string {
    "-" + match opt.short
          case NoShort => "undefined"
          case FirstLetter => "true"
          case Given(text) => text
  }

  predicate Spells(token: Token, opt: Opt) {
    token == "--" + opt.name || token == ShortFlag(opt)
  }

  /** An option is spelled by its long form and by its short one, which is printed as
      `undefined` when there is none. */
  lemma Forms(opt: Opt)
    ensures Spells("--" + opt.name, opt)
    ensures opt.short.Given? ==> Spells("-" + opt.short.text, opt)
    ensures opt.short.NoShort? ==> Spells("-undefined", opt)
    ensures opt.short == FirstLetter && opt.name != "" ==> Spells("-" + opt.name[..1], Normal(opt))
  {
    assert opt.short.NoShort? ==> ShortFlag(opt) == "-" + "undefined" == "-undefined";
  }

  function FindOption(options: seq<Opt>, token: Token): (r: Option<Opt>)
    ensures r.Some? ==> r.value in options && Spells(token, r.value)
    ensures r.None? ==> forall opt | opt in options :: !Spells(token, opt)
  {
    if options == [] then None
    else if Spells(token, options[0]) then Some(options[0])
    else FindOption(options[1..], token)
  }

  /** A collected option token: a flag, or the value that follows one. */
  datatype Entry = Flag(token: Token) | Value(token: Token)

  function Texts(entries: seq<Entry>): (r: seq<Token>)
    ensures |r| == |entries| && forall i | 0 <= i < |r| :: r[i] == entries[i].token
  {
    seq(|entries|, i requires 0 <= i < |entries| => entries[i].token)
  }

  datatype Collected = Collected(args: seq<Token>, entries: seq<Entry>)

  function WithArg(token: Token, c: Collected): Collected { Collected([token] + c.args, c.entries) }

  function WithEntry(entry: Entry, c: Collected): Collected { Collected(c.args, [entry] + c.entries) }

  function Mapped(r: Result<Collected, Error>, f: Collected -> Collected): Result<Collected, Error> {
    match r
    case Success(c) => Success(f(c))
    case Failure(e) => Failure(e)
  }

  /** Sort the tokens; `expecting` means that the next one is the value of an option. */
  function Collect(command: Command, tokens: seq<Token>, expecting: bool): Result<Collected, Error>
    decreases tokens
  {
    if tokens == [] then Success(Collected([], []))
    else
      var token := tokens[0];
      if expecting then Mapped(Collect(command, tokens[1..], false), c => WithEntry(Value(token), c))
      else if IsDashed(token) && command.options.Some? then
        match FindOption(command.options.value, token)
        case None => Failure(UnexpectedOption(token))
        case Some(opt) => Mapped(Collect(command, tokens[1..], opt.takeValue), c => WithEntry(Flag(token), c))
      else if command.args.Some? then Mapped(Collect(command, tokens[1..], false), c => WithArg(token, c))
      else Collect(command, tokens[1..], false)
  }

  /** The arguments fit the definitions in number. */
  predicate Fits(args: Option<seq<Arg>>, count: nat) {
    match args
    case None => count == 0
    case Some(defs) => count <= |defs| || (defs != [] && defs[|defs| - 1].multiple)
  }

  /** The whole of the collection, with the checks that follow the loop. */
  function CollectArgsAndOptions(command: Command, tokens: seq<Token>): Result<Collected, Error>
    requires tokens != []
  {
    match Collect(command, tokens, false)
    case Failure(e) => Failure(e)
    case Success(c) =>
      if command.args.None? && command.subcommands.Some? then
        Failure(if IsDashed(tokens[0]) then UnexpectedOption(tokens[0]) else NoSubcommand(tokens[0]))
      else if !Fits(command.args, |c.args|) then Failure(TooManyArguments(|c.args|))
      else Success(c)
  }

  /** What is accepted fits: the arguments are no more than the definitions take, and without
      definitions there are none, nor subcommands that were meant. */
  lemma AcceptedFits(command: Command, tokens: seq<Token>)
    requires tokens != [] && CollectArgsAndOptions(command, tokens).Success?
    ensures var c := CollectArgsAndOptions(command, tokens).value;
            && Collect(command, tokens, false) == Success(c)
            && (match command.args
                case None => c.args == [] && command.subcommands.None?
                case Some(defs) => |c.args| > |defs| ==> defs != [] && defs[|defs| - 1].multiple)
  {
    NoArguments(command, tokens, false);
    hide Collect;
  }

  lemma {:induction false} NoArguments(command: Command, tokens: seq<Token>, expecting: bool)
    ensures Collect(command, tokens, expecting).Success? && command.args.None? ==>
              Collect(command, tokens, expecting).value.args == []
    decreases tokens
  {
    if tokens != [] {
      NoArguments(command, tokens[1..], false);
      NoArguments(command, tokens[1..], true);
    }
  }

  // ----- Nothing is lost in collecting -----

  /** `tokens` is `a` and `b` shuffled together, each in its order. */
  ghost predicate Shuffle(tokens: seq<Token>, a: seq<Token>, b: seq<Token>)
    decreases tokens
  {
    if tokens == [] then a == [] && b == []
    else
      || (a != [] && a[0] == tokens[0] && Shuffle(tokens[1..], a[1..], b))
      || (b != [] && b[0] == tokens[0] && Shuffle(tokens[1..], a, b[1..]))
  }

  lemma {:induction false} CollectShuffles(command: Command, tokens: seq<Token>, expecting: bool)
    requires command.args.Some? && Collect(command, tokens, expecting).Success?
    ensures var c := Collect(command, tokens, expecting).value;
            Shuffle(tokens, c.args, Texts(c.entries))
    decreases tokens
  {
    if tokens != [] {
      var c := Collect(command, tokens, expecting).value;
      var token := tokens[0];
      var next := if expecting then false
                  else if IsDashed(token) && command.options.Some?
                  then FindOption(command.options.value, token).value.takeValue
                  else false;
      CollectShuffles(command, tokens[1..], next);
      var rest := Collect(command, tokens[1..], next).value;
      assert c.args == rest.args || c.args[1..] == rest.args;
      assert c.entries == rest.entries || Texts(c.entries)[1..] == Texts(rest.entries);
    }
  }

  /** With options, no argument is dashed; and every flag is. */
  lemma {:induction false} CollectSorts(command: Command, tokens: seq<Token>, expecting: bool)
    requires Collect(command, tokens, expecting).Success?
    ensures var c := Collect(command, tokens, expecting).value;
            && (command.options.Some? ==> forall a | a in c.args :: !("-" <= a))
            && (forall e | e in c.entries && e.Flag? :: "-" <= e.token)
    decreases tokens
  {
    hide FindOption;
    if tokens != [] {
      var flag := !expecting && IsDashed(tokens[0]) && command.options.Some?;
      var next := flag && FindOption(command.options.value, tokens[0]).value.takeValue;
      CollectSorts(command, tokens[1..], next);
    }
  }

  // ----- The loop -----

  function After(args: seq<Token>, entries: seq<Entry>, r: Result<Collected, Error>): Result<Collected, Error> {
    match r
    case Success(c) => Success(Collected(args + c.args, entries + c.entries))
    case Failure(e) => Failure(e)
  }

  lemma AfterArg(args: seq<Token>, entries: seq<Entry>, token: Token, r: Result<Collected, Error>)
    ensures After(args, entries, Mapped(r, c => WithArg(token, c))) == After(args + [token], entries, r)
  {
    if r.Success? {
      assert args + ([token] + r.value.args) == (args + [token]) + r.value.args;
    }
  }

  lemma AfterEntry(args: seq<Token>, entries: seq<Entry>, entry: Entry, r: Result<Collected, Error>)
    ensures After(args, entries, Mapped(r, c => WithEntry(entry, c))) == After(args, entries + [entry], r)
  {
    if r.Success? {
      assert entries + ([entry] + r.value.entries) == (entries + [entry]) + r.value.entries;
    }
  }

  lemma AfterNothing(r: Result<Collected, Error>)
    ensures After([], [], r) == r
  {
    if r.Success? {
      assert [] + r.value.args == r.value.args && [] + r.value.entries == r.value.entries;
    }
  }

  method CollectTokens(command: Command, tokens: seq<Token>)
    returns (r: Result<(seq<Token>, seq<Token>), Error>)
    ensures match Collect(command, tokens, false)
            case Failure(e) => r == Failure(e)
            case Success(c) => r == Success((c.args, Texts(c.entries)))
  {
    var args, options: seq<Token> := [], [];
    var takeOptionValue := false;
    ghost var entries: seq<Entry> := [];
    var i := 0;
    AfterNothing(Collect(command, tokens, false));
    assert tokens[0..] == tokens;
    while i < |tokens|
      invariant 0 <= i <= |tokens|
      invariant options == Texts(entries)
      invariant Collect(command, tokens, false)
             == After(args, entries, Collect(command, tokens[i..], takeOptionValue))
    {
      var token := tokens[i];
      assert tokens[i..][1..] == tokens[i + 1..];
      if takeOptionValue {
        AfterEntry(args, entries, Value(token), Collect(command, tokens[i + 1..], false));
        entries := entries + [Value(token)];
        options := options + [token];
        takeOptionValue := false;
      } else if IsDashed(token) && command.options.Some? {
        var option := FindOption(command.options.value, token);
        if option.None? {
          return Failure(UnexpectedOption(token));
        }
        AfterEntry(args, entries, Flag(token), Collect(command, tokens[i + 1..], option.value.takeValue));
        entries := entries + [Flag(token)];
        options := options + [token];
        takeOptionValue := option.value.takeValue;
      } else if command.args.Some? {
        AfterArg(args, entries, token, Collect(command, tokens[i + 1..], false));
        args := args + [token];
      }
      i := i + 1;
    }
    assert args + [] == args && entries + [] == entries;
    r := Success((args, options));
  }

  // ----- Arguments -----

  datatype Parsed = One(token: Token) | Many(tokens: seq<Token>)

  /** The tokens a definition takes; an empty token counts as none. */
  function InputFor(defs: seq<Arg>, args: seq<Token>, i: nat): seq<Token>
    requires i < |defs|
  {
    if defs[i].multiple then (if i <= |args| then args[i..] else [])
    else if i < |args| && args[i] != "" then [args[i]]
    else []
  }

  function FirstBad(tokens: seq<Token>, values: set<string>): Option<Token> {
    if tokens == [] then None else if tokens[0] !in values then Some(tokens[0]) else FirstBad(tokens[1..], values)
  }

  function ParseArg(arg: Arg, input: seq<Token>, parsed: map<string, Parsed>): Result<map<string, Parsed>, Error> {
    if input == [] then (if arg.optional then Success(parsed) else Failure(ArgumentMissing(arg.name)))
    else
      var bad := if arg.values.Some? then FirstBad(input, arg.values.value) else None;
      if bad.Some? && bad.value != "" then Failure(BadArgumentValue(bad.value))
      else Success(parsed[arg.name := if arg.multiple then Many(input) else One(input[0])])
  }

  function ParseFrom(defs: seq<Arg>, args: seq<Token>, i: nat, parsed: map<string, Parsed>):
    Result<map<string, Parsed>, Error>
    requires i <= |defs|
    decreases |defs| - i
  {
    if i == |defs| then Success(parsed)
    else match ParseArg(defs[i], InputFor(defs, args, i), parsed)
      case Failure(e) => Failure(e)
      case Success(more) => ParseFrom(defs, args, i + 1, more)
  }

  /** Run over the definitions. */
  method ParseArguments(defs: seq<Arg>, args: seq<Token>) returns (r: Result<map<string, Parsed>, Error>)
    ensures r == ParseFrom(defs, args, 0, map[])
  {
    var parsed: map<string, Parsed> := map[];
    var i := 0;
    while i < |defs|
      invariant 0 <= i <= |defs|
      invariant ParseFrom(defs, args, 0, map[]) == ParseFrom(defs, args, i, parsed)
    {
      var arg := defs[i];
      var input := [];
      if arg.multiple {
        input := if i <= |args| then args[i..] else [];
      } else if i < |args| && args[i] != "" {
        input := [args[i]];
      }
      if input == [] {
        if !arg.optional {
          return Failure(ArgumentMissing(arg.name));
        }
      } else {
        if arg.values.Some? {
          var bad := FirstBad(input, arg.values.value);
          if bad.Some? && bad.value != "" {
            return Failure(BadArgumentValue(bad.value));
          }
        }
        parsed := parsed[arg.name := if arg.multiple then Many(input) else One(input[0])];
      }
      i := i + 1;
    }
    r := Success(parsed);
  }

  function TokensOf(p: Parsed): seq<Token> {
    match p
    case One(token) => [token]
    case Many(tokens) => tokens
  }

  /** The tokens given to the definitions from `i` on, in their order. */
  function Supplied(defs: seq<Arg>, parsed: map<string, Parsed>, i: nat): seq<Token>
    requires i <= |defs|
    decreases |defs| - i
  {
    if i == |defs| then []
    else (if defs[i].name in parsed then TokensOf(parsed[defs[i].name]) else []) + Supplied(defs, parsed, i + 1)
  }

  // ----- No argument is lost -----

  /** The last definition of the name that is given a token. */
  function LastGiven(defs: seq<Arg>, args: seq<Token>, i: nat, name: string): (r: Option<nat>)
    requires i <= |defs|
    ensures r.Some? ==> i <= r.value < |defs| && defs[r.value].name == name && InputFor(defs, args, r.value) != []
    ensures forall j | i <= j < |defs| && defs[j].name == name && InputFor(defs, args, j) != [] ::
              r.Some? && j <= r.value
    decreases |defs| - i
  {
    if i == |defs| then None
    else
      var r := LastGiven(defs, args, i + 1, name);
      if r.Some? then r else if defs[i].name == name && InputFor(defs, args, i) != [] then Some(i) else None
  }

  /** The record has, under each name, the input of the last definition of that name that
      is given one; a definition that is given none is optional. */
  lemma {:induction false} RecordExact(
    defs: seq<Arg>, args: seq<Token>, i: nat, parsed: map<string, Parsed>, name: string)
    requires i <= |defs| && ParseFrom(defs, args, i, parsed).Success?
    ensures var p, last := ParseFrom(defs, args, i, parsed).value, LastGiven(defs, args, i, name);
            match last
            case Some(k) =>
              name in p && TokensOf(p[name]) == InputFor(defs, args, k) && p[name].Many? == defs[k].multiple
            case None => (name in p <==> name in parsed) && (name in p ==> p[name] == parsed[name])
    ensures forall j | i <= j < |defs| && InputFor(defs, args, j) == [] :: defs[j].optional
    decreases |defs| - i
  {
    if i < |defs| {
      RecordExact(defs, args, i + 1, ParseArg(defs[i], InputFor(defs, args, i), parsed).value, name);
    }
  }

  /** The token is the first that the definition does not allow. */
  predicate FirstRefused(tokens: seq<Token>, values: set<string>, j: nat) {
    j < |tokens| && tokens[j] !in values && forall k | 0 <= k < j :: tokens[k] in values
  }

  lemma {:induction false} FirstBadIff(tokens: seq<Token>, values: set<string>, j: nat)
    ensures FirstBad(tokens, values).None? <==> forall t | t in tokens :: t in values
    ensures FirstRefused(tokens, values, j) ==> FirstBad(tokens, values) == Some(tokens[j])
    ensures FirstBad(tokens, values).Some? ==>
              exists i: nat :: FirstRefused(tokens, values, i) && tokens[i] == FirstBad(tokens, values).value
  {
    if tokens != [] {
      var rest := tokens[1..];
      FirstBadIff(rest, values, if j > 0 then j - 1 else 0);
      assert tokens == [tokens[0]] + rest;
      if tokens[0] !in values {
        assert FirstRefused(tokens, values, 0);
      } else if FirstBad(tokens, values).Some? {
        var i: nat :| FirstRefused(rest, values, i) && rest[i] == FirstBad(rest, values).value;
        assert FirstRefused(tokens, values, i + 1);
      }
    }
  }

  /** The definition is given something or optional, and the first token it does not allow,
      if there is one, is empty. */
  predicate Accepts(arg: Arg, input: seq<Token>) {
    && (input == [] ==> arg.optional)
    && (arg.values.Some? ==> forall j | 0 <= j < |input| && FirstRefused(input, arg.values.value, j) :: input[j] == "")
  }

  lemma AcceptsIff(arg: Arg, input: seq<Token>, parsed: map<string, Parsed>)
    ensures ParseArg(arg, input, parsed).Success? <==> Accepts(arg, input)
    ensures input == [] && !arg.optional ==> ParseArg(arg, input, parsed) == Failure(ArgumentMissing(arg.name))
    ensures forall j: nat | arg.values.Some? && FirstRefused(input, arg.values.value, j) && input[j] != "" ::
              ParseArg(arg, input, parsed) == Failure(BadArgumentValue(input[j]))
  {
    if arg.values.Some? {
      FirstBadIff(input, arg.values.value, 0);
      forall j: nat | FirstRefused(input, arg.values.value, j)
        ensures FirstBad(input, arg.values.value) == Some(input[j])
      {
        FirstBadIff(input, arg.values.value, j);
      }
    }
    hide FirstBad;
  }

  /** The arguments are parsed exactly when every definition accepts what it is given. */
  lemma {:induction false} ParseAcceptsIff(defs: seq<Arg>, args: seq<Token>, i: nat, parsed: map<string, Parsed>)
    requires i <= |defs|
    ensures ParseFrom(defs, args, i, parsed).Success?
       <==> forall j | i <= j < |defs| :: Accepts(defs[j], InputFor(defs, args, j))
    decreases |defs| - i
  {
    hide ParseArg, Accepts, InputFor;
    if i < |defs| {
      var input := InputFor(defs, args, i);
      AcceptsIff(defs[i], input, parsed);
      if Accepts(defs[i], input) {
        ParseAcceptsIff(defs, args, i + 1, ParseArg(defs[i], input, parsed).value);
      }
    }
  }

  /** Definitions of one name are given the same. */
  ghost predicate RepeatsAgree(defs: seq<Arg>, args: seq<Token>) {
    forall i, j | 0 <= i < |defs| && 0 <= j < |defs| && defs[i].name == defs[j].name ::
      InputFor(defs, args, i) == InputFor(defs, args, j)
  }

  /** The record has its input for the definition, and nothing when there is none. */
  ghost predicate GivenIts(defs: seq<Arg>, args: seq<Token>, parsed: map<string, Parsed>, j: nat)
    requires j < |defs|
  {
    && (defs[j].name in parsed <==> InputFor(defs, args, j) != [])
    && (defs[j].name in parsed ==> TokensOf(parsed[defs[j].name]) == InputFor(defs, args, j))
  }

  /** The record has for every definition what it was given exactly when repeated names agree. */
  lemma RecordFaithfulIff(defs: seq<Arg>, args: seq<Token>)
    requires ParseFrom(defs, args, 0, map[]).Success?
    ensures (forall j | 0 <= j < |defs| :: GivenIts(defs, args, ParseFrom(defs, args, 0, map[]).value, j))
       <==> RepeatsAgree(defs, args)
  {
    var p := ParseFrom(defs, args, 0, map[]).value;
    forall j | 0 <= j < |defs|
      ensures match LastGiven(defs, args, 0, defs[j].name)
              case Some(k) => defs[j].name in p && TokensOf(p[defs[j].name]) == InputFor(defs, args, k)
              case None => defs[j].name !in p
    {
      RecordExact(defs, args, 0, map[], defs[j].name);
    }
    hide InputFor, ParseFrom, TokensOf;
    if forall j | 0 <= j < |defs| :: GivenIts(defs, args, p, j) {
      forall i, j | 0 <= i < |defs| && 0 <= j < |defs| && defs[i].name == defs[j].name
        ensures InputFor(defs, args, i) == InputFor(defs, args, j)
      {
        assert GivenIts(defs, args, p, i) && GivenIts(defs, args, p, j);
      }
    }
  }

  /** No empty token stands where a definition takes a single one. */
  predicate NoEmptySingle(defs: seq<Arg>, args: seq<Token>, i: nat) {
    forall j | i <= j < |args| && j < |defs| && !defs[j].multiple :: args[j] != ""
  }

  function Inputs(defs: seq<Arg>, args: seq<Token>, i: nat): seq<Token>
    requires i <= |defs|
    decreases |defs| - i
  {
    if i == |defs| then [] else InputFor(defs, args, i) + Inputs(defs, args, i + 1)
  }

  lemma {:induction false} SuppliedInputs(defs: seq<Arg>, args: seq<Token>, parsed: map<string, Parsed>, i: nat)
    requires i <= |defs| && forall j | i <= j < |defs| :: GivenIts(defs, args, parsed, j)
    ensures Supplied(defs, parsed, i) == Inputs(defs, args, i)
    decreases |defs| - i
  {
    if i < |defs| {
      SuppliedInputs(defs, args, parsed, i + 1);
      assert GivenIts(defs, args, parsed, i);
    }
  }

  /** `rest` is what is left of `args` for the definitions from `i` on. */
  lemma {:induction false} InputsOf(defs: seq<Arg>, args: seq<Token>, i: nat, rest: seq<Token>)
    requires i <= |defs| && rest == if i <= |args| then args[i..] else []
    requires forall j | 0 <= j < |defs| && j < |args| && defs[j].multiple :: j == |defs| - 1
    requires |args| <= |defs| || (i < |defs| && defs[|defs| - 1].multiple)
    ensures |Inputs(defs, args, i)| <= |rest|
    ensures |Inputs(defs, args, i)| == |rest| <==> NoEmptySingle(defs, args, i)
    ensures NoEmptySingle(defs, args, i) ==> Inputs(defs, args, i) == rest
    decreases |defs| - i
  {
    hide Inputs, NoEmptySingle, InputFor;
    if i == |defs| {
      NoInput(defs, args);
    } else if defs[i].multiple && i < |args| {
      LastInput(defs, args, i);
    } else {
      InputsOf(defs, args, i + 1, if i < |args| then args[i + 1..] else []);
      InputsStep(defs, args, i);
    }
  }

  lemma NoInput(defs: seq<Arg>, args: seq<Token>)
    ensures Inputs(defs, args, |defs|) == [] && NoEmptySingle(defs, args, |defs|)
  {
  }

  lemma LastInput(defs: seq<Arg>, args: seq<Token>, i: nat)
    requires i == |defs| - 1 && defs[i].multiple && i < |args|
    ensures Inputs(defs, args, i) == args[i..] && NoEmptySingle(defs, args, i)
  {
    assert Inputs(defs, args, i) == args[i..] + [];
  }

  lemma InputsStep(defs: seq<Arg>, args: seq<Token>, i: nat)
    requires i < |defs| && (defs[i].multiple ==> i >= |args|)
    ensures i >= |args| ==> Inputs(defs, args, i) == Inputs(defs, args, i + 1)
    ensures i < |args| ==> args[i..] == [args[i]] + args[i + 1..]
    ensures i < |args| ==>
              Inputs(defs, args, i) == (if args[i] != "" then [args[i]] else []) + Inputs(defs, args, i + 1)
    ensures NoEmptySingle(defs, args, i) <==> (i < |args| ==> args[i] != "") && NoEmptySingle(defs, args, i + 1)
  {
  }

  /** With names that agree only the last definition can be given several tokens. */
  lemma OnlyLastMany(defs: seq<Arg>, args: seq<Token>, j: nat)
    requires WellDeclared(defs) && RepeatsAgree(defs, args) && j < |defs| && j < |args| && defs[j].multiple
    ensures j == |defs| - 1
  {
    var last := |defs| - 1;
    assert InputFor(defs, args, j) == InputFor(defs, args, last);
    assert |InputFor(defs, args, j)| == |args| - j;
  }

  /** The tokens come back, in order, from the definitions exactly when none of
      those taken singly is empty; then the definitions given a token are the first ones. */
  lemma ArgumentsConserved(defs: seq<Arg>, args: seq<Token>)
    requires WellDeclared(defs) && RepeatsAgree(defs, args) && Fits(Some(defs), |args|)
    requires ParseFrom(defs, args, 0, map[]).Success?
    ensures var p := ParseFrom(defs, args, 0, map[]).value;
            && (Supplied(defs, p, 0) == args <==> NoEmptySingle(defs, args, 0))
            && (NoEmptySingle(defs, args, 0) ==>
                  forall i | 0 <= i < |defs| :: defs[i].name in p <==> i < |args|)
  {
    var p := ParseFrom(defs, args, 0, map[]).value;
    RecordFaithfulIff(defs, args);
    SuppliedInputs(defs, args, p, 0);
    assert args[0..] == args;
    forall j | 0 <= j < |defs| && j < |args| && defs[j].multiple ensures j == |defs| - 1 {
      OnlyLastMany(defs, args, j);
    }
    InputsOf(defs, args, 0, args);
    if NoEmptySingle(defs, args, 0) {
      forall i | 0 <= i < |defs| ensures defs[i].name in p <==> i < |args| {
        assert GivenIts(defs, args, p, i);
      }
    }
  }

  // ----- Options -----

  datatype Setting = On | Takes(value: Token) | Lacking

  function SpellIndex(opt: Opt, texts: seq<Token>): (r: int)
    ensures -1 <= r < |texts|
    ensures r >= 0 ==> Spells(texts[r], opt)
    ensures forall i | 0 <= i < (if r < 0 then |texts| else r) :: !Spells(texts[i], opt)
  {
    if texts == [] then -1
    else if Spells(texts[0], opt) then 0
    else var r := SpellIndex(opt, texts[1..]); if r < 0 then -1 else r + 1
  }

  /** The token after a position, if there is one that is not empty. */
  function Following(texts: seq<Token>, index: nat): Option<Token> {
    if index + 1 < |texts| && texts[index + 1] != "" then Some(texts[index + 1]) else None
  }

  function SettingAt(opt: Opt, texts: seq<Token>, index: int): Option<Setting>
    requires -1 <= index
  {
    if index == -1 then None
    else if !opt.takeValue then Some(On)
    else match Following(texts, index)
      case Some(value) => Some(Takes(value))
      case None => Some(Lacking)
  }

  function Read(opt: Opt, texts: seq<Token>): Option<Setting> { SettingAt(opt, texts, SpellIndex(opt, texts)) }

  function Problem(opt: Opt, setting: Option<Setting>): Option<Error> {
    match setting
    case None => None
    case Some(On) => None
    case Some(Lacking) => Some(OptionValueMissing(opt.name))
    case Some(Takes(value)) =>
      if opt.values.Some? && value !in opt.values.value then Some(BadOptionValue(value)) else None
  }

  function WithSetting(parsed: map<string, Setting>, opt: Opt, setting: Option<Setting>): map<string, Setting> {
    if setting.None? then parsed else parsed[opt.name := setting.value]
  }

  function ParseOptionsFrom(defs: seq<Opt>, texts: seq<Token>, i: nat, parsed: map<string, Setting>)
    : Result<map<string, Setting>, Error>
    requires i <= |defs|
    decreases |defs| - i
  {
    if i == |defs| then Success(parsed)
    else
      var setting := Read(defs[i], texts);
      if Problem(defs[i], setting).Some? then Failure(Problem(defs[i], setting).value)
      else ParseOptionsFrom(defs, texts, i + 1, WithSetting(parsed, defs[i], setting))
  }

  method ParseOptions(defs: seq<Opt>, texts: seq<Token>) returns (r: Result<map<string, Setting>, Error>)
    ensures r == ParseOptionsFrom(defs, texts, 0, map[])
  {
    hide Spells;
    var parsed: map<string, Setting> := map[];
    var i := 0;
    while i < |defs|
      invariant 0 <= i <= |defs|
      invariant ParseOptionsFrom(defs, texts, 0, map[]) == ParseOptionsFrom(defs, texts, i, parsed)
    {
      var option := defs[i];
      var index := SpellIndex(option, texts);
      if index != -1 {
        if !option.takeValue {
          parsed := parsed[option.name := On];
        } else {
          if index + 1 >= |texts| || texts[index + 1] == "" {
            return Failure(OptionValueMissing(option.name));
          }
          var value := texts[index + 1];
          if option.values.Some? && value !in option.values.value {
            return Failure(BadOptionValue(value));
          }
          parsed := parsed[option.name := Takes(value)];
        }
      }
      i := i + 1;
    }
    r := Success(parsed);
  }

  /** What the command line says of `opt`: the first flag that spells it, and the
      token right after that flag. */
  function Said(options: seq<Opt>, tokens: seq<Token>, expecting: bool, opt: Opt): Option<Setting>
    decreases tokens
  {
    if tokens == [] then None
    else if expecting || !IsDashed(tokens[0]) then Said(options, tokens[1..], false, opt)
    else if Spells(tokens[0], opt) then
      Some(if !opt.takeValue then On else if |tokens| > 1 && tokens[1] != "" then Takes(tokens[1]) else Lacking)
    else
      var found := FindOption(options, tokens[0]);
      Said(options, tokens[1..], found.Some? && found.value.takeValue, opt)
  }

  /** No token spells two of the options. */
  ghost predicate Unconfused(options: seq<Opt>, tokens: seq<Token>) {
    forall t, a, b | t in tokens && a in options && b in options && Spells(t, a) && Spells(t, b) :: a == b
  }

  /** The first flag that spells the option. */
  function FlagIndex(opt: Opt, entries: seq<Entry>): (r: int)
    ensures -1 <= r < |entries|
    ensures r >= 0 ==> entries[r].Flag? && Spells(entries[r].token, opt)
    ensures forall i | 0 <= i < (if r < 0 then |entries| else r) && entries[i].Flag? :: !Spells(entries[i].token, opt)
  {
    if entries == [] then -1
    else if entries[0].Flag? && Spells(entries[0].token, opt) then 0
    else var r := FlagIndex(opt, entries[1..]); if r < 0 then -1 else r + 1
  }

  ghost predicate HasFlag(entries: seq<Entry>, opt: Opt) {
    exists e :: e in entries && e.Flag? && Spells(e.token, opt)
  }

  lemma TextsStep(entry: Entry, entries: seq<Entry>)
    ensures Texts([entry] + entries) == [entry.token] + Texts(entries)
  {
  }

  /** A token in front that is not the flag moves the setting up by one. */
  lemma FlagStep(opt: Opt, entry: Entry, entries: seq<Entry>)
    requires !(entry.Flag? && Spells(entry.token, opt))
    ensures var all := [entry] + entries;
            SettingAt(opt, Texts(all), FlagIndex(opt, all)) == SettingAt(opt, Texts(entries), FlagIndex(opt, entries))
  {
    hide Spells, Texts;
    TextsStep(entry, entries);
    assert ([entry] + entries)[1..] == entries;
    var k := FlagIndex(opt, entries);
    assert k >= 0 && k + 1 < |entries| ==> ([entry.token] + Texts(entries))[k + 2] == Texts(entries)[k + 1];
  }

  /** What the line says of an option is read at its first flag. */
  lemma {:induction false} SaidAtFlag(command: Command, tokens: seq<Token>, expecting: bool, opt: Opt)
    requires command.options.Some? && opt in command.options.value && Unconfused(command.options.value, tokens)
    requires Collect(command, tokens, expecting).Success?
    ensures var entries := Collect(command, tokens, expecting).value.entries;
            Said(command.options.value, tokens, expecting, opt)
            == SettingAt(opt, Texts(entries), FlagIndex(opt, entries))
    decreases tokens
  {
    var entries := Collect(command, tokens, expecting).value.entries;
    if tokens == [] {
    } else {
      var token := tokens[0];
      var options := command.options.value;
      var flag := !expecting && IsDashed(token);
      var next := flag && FindOption(options, token).value.takeValue;
      var rest := Collect(command, tokens[1..], next).value.entries;
      if expecting || flag {
        var entry := if expecting then Value(token) else Flag(token);
        assert entries == [entry] + rest;
        if flag && Spells(token, opt) {
          SaidHere(command, tokens, opt, rest);
        } else {
          FlagStep(opt, entry, rest);
          SaidAtFlag(command, tokens[1..], next, opt);
        }
      } else {
        SaidAtFlag(command, tokens[1..], next, opt);
      }
    }
  }

  lemma SaidHere(command: Command, tokens: seq<Token>, opt: Opt, rest: seq<Entry>)
    requires command.options.Some? && opt in command.options.value && Unconfused(command.options.value, tokens)
    requires tokens != [] && IsDashed(tokens[0]) && Spells(tokens[0], opt)
    requires Collect(command, tokens[1..], opt.takeValue).Success?
    requires rest == Collect(command, tokens[1..], opt.takeValue).value.entries
    ensures var entries := [Flag(tokens[0])] + rest;
            Said(command.options.value, tokens, false, opt) == SettingAt(opt, Texts(entries), FlagIndex(opt, entries))
  {
    var entries := [Flag(tokens[0])] + rest;
    assert FlagIndex(opt, entries) == 0;
    if opt.takeValue && |tokens| > 1 {
      assert rest[0] == Value(tokens[1]);
    }
  }

  /** The token that is taken for the flag is the first flag, or has the same after it. */
  predicate ReadRight(opt: Opt, entries: seq<Entry>) {
    var read, said := SpellIndex(opt, Texts(entries)), FlagIndex(opt, entries);
    || read == said
    || (said >= 0 && read >= 0 &&
        (opt.takeValue ==> Following(Texts(entries), read) == Following(Texts(entries), said)))
  }

  /** An option is read as the line says it exactly then. */
  lemma ReadSaidIff(command: Command, tokens: seq<Token>, opt: Opt)
    requires command.options.Some? && opt in command.options.value && Unconfused(command.options.value, tokens)
    requires Collect(command, tokens, false).Success?
    ensures var entries := Collect(command, tokens, false).value.entries;
            (Read(opt, Texts(entries)) == Said(command.options.value, tokens, false, opt) <==> ReadRight(opt, entries))
  {
    SaidAtFlag(command, tokens, false, opt);
    hide Spells, Texts, Collect, Said, Unconfused;
  }

  lemma {:induction false} SaidIffFlag(command: Command, tokens: seq<Token>, expecting: bool, opt: Opt)
    requires command.options.Some? && Collect(command, tokens, expecting).Success?
    ensures Said(command.options.value, tokens, expecting, opt).Some?
       <==> HasFlag(Collect(command, tokens, expecting).value.entries, opt)
    decreases tokens
  {
    hide Spells;
    var entries := Collect(command, tokens, expecting).value.entries;
    if tokens != [] {
      var token := tokens[0];
      var flag := !expecting && IsDashed(token);
      var next := flag && FindOption(command.options.value, token).value.takeValue;
      var rest := Collect(command, tokens[1..], next).value.entries;
      SaidIffFlag(command, tokens[1..], next, opt);
      if expecting || flag {
        var entry := if expecting then Value(token) else Flag(token);
        assert entries == [entry] + rest;
        assert forall e :: e in entries <==> e == entry || e in rest;
        assert entry in entries;
      } else {
        assert entries == rest;
      }
    }
  }

  /** A switch is read as it was said exactly when it was given as a flag, or not
      spelled by any value either. */
  lemma SwitchReadIff(command: Command, tokens: seq<Token>, opt: Opt)
    requires command.options.Some? && !opt.takeValue && Collect(command, tokens, false).Success?
    ensures var entries := Collect(command, tokens, false).value.entries;
            (Read(opt, Texts(entries)) == Said(command.options.value, tokens, false, opt)
             <==> (HasFlag(entries, opt) || forall e | e in entries && e.Value? :: !Spells(e.token, opt)))
  {
    hide Spells;
    var entries := Collect(command, tokens, false).value.entries;
    SaidIffFlag(command, tokens, false, opt);
    SaidOn(command.options.value, tokens, false, opt);
    var index := SpellIndex(opt, Texts(entries));
    if index >= 0 {
      assert entries[index] in entries;
    }
    forall e | e in entries && Spells(e.token, opt)
      ensures index >= 0
    {
      var k :| 0 <= k < |entries| && entries[k] == e;
      assert Spells(Texts(entries)[k], opt);
    }
  }

  lemma {:induction false} SaidOn(options: seq<Opt>, tokens: seq<Token>, expecting: bool, opt: Opt)
    requires !opt.takeValue
    ensures Said(options, tokens, expecting, opt) in {None, Some(On)}
    decreases tokens
  {
    if tokens != [] {
      var found := FindOption(options, tokens[0]);
      SaidOn(options, tokens[1..], false, opt);
      SaidOn(options, tokens[1..], found.Some? && found.value.takeValue, opt);
    }
  }

  lemma ValueHidesFlag(command: Command, a: Opt, b: Opt, flag: Token, value: Token)
    requires command.options == Some([a, b]) && command.args == Some([])
    requires IsDashed(flag) && Spells(flag, a) && !Spells(flag, b) && a.takeValue && !b.takeValue && Spells(value, b)
    ensures var tokens := [flag, value];
            && CollectArgsAndOptions(command, tokens) == Success(Collected([], [Flag(flag), Value(value)]))
            && Said([a, b], tokens, false, b) == None
            && Read(b, tokens) == Some(On)
  {
    hide Spells;
    var tokens := [flag, value];
    assert tokens[1..] == [value] && [value][1..] == [];
    assert FindOption([a, b], flag) == Some(a);
    assert [Value(value)] + [] == [Value(value)];
    assert Collect(command, [value], true) == Success(Collected([], [Value(value)]));
    assert [Flag(flag)] + [Value(value)] == [Flag(flag), Value(value)];
    assert Collect(command, tokens, false) == Success(Collected([], [Flag(flag), Value(value)]));
    assert Said([a, b], [value], true, b) == None;
    assert SpellIndex(b, tokens) == 1 by {
      assert Spells(tokens[1], b);
    }
  }

  /** The value of one option that spells another turns that one on. */
  lemma ValueReadAsFlag()
    ensures var package := Opt("package", NoShort, true, None);
            var force := Opt("force", NoShort, false, None);
            var tokens := ["--package", "--force"];
            && Said([package, force], tokens, false, force) == None
            && Read(force, tokens) == Some(On)
  {
    var package := Opt("package", NoShort, true, None);
    var force := Opt("force", NoShort, false, None);
    var flag, value := "--package", "--force";
    assert flag == "--" + "package";
    assert value == "--" + "force";
    assert flag[1] == '-' && ShortFlag(force)[1] == 'u';
    assert |flag| == 9 && |"--" + "force"| == 7;
    ValueHidesFlag(Command(Some([]), Some([package, force]), None), package, force, flag, value);
  }

  /** Two options accepted together are spelled by one token only when neither has a
      short form, and then by the text printed for the missing one. */
  lemma SpelledByTwo(opts: seq<Opt>, a: Opt, b: Opt, token: Token)
    requires ShortsAccepted(opts) && a in opts && b in opts && a.name != b.name && a.name != "" && b.name != ""
    requires Spells(token, Normal(a)) && Spells(token, Normal(b))
    ensures !HasShort(a) && !HasShort(b) && token == ShortFlag(a) == ShortFlag(b)
  {
    var i :| 0 <= i < |opts| && opts[i] == a;
    var j :| 0 <= j < |opts| && opts[j] == b;
    assert !Blocks(opts[j], opts[i]) && !Blocks(opts[i], opts[j]);
    ShortNotLong(Normal(a), Normal(b));
    ShortNotLong(Normal(b), Normal(a));
    assert ("--" + a.name)[2..] == a.name && ("--" + b.name)[2..] == b.name;
    assert token == ShortFlag(Normal(a)) == ShortFlag(Normal(b));
    assert token[1..] == ShortFlag(Normal(a))[1..] == ShortFlag(Normal(b))[1..];
    SameShort(Normal(a), Normal(b));
  }

  lemma ShortNotLong(a: Opt, b: Opt)
    requires b.name != "" && (HasShort(a) ==> a.short.Given? && |a.short.text| == 1)
    ensures ShortFlag(a) != "--" + b.name
  {
    match a.short
    case NoShort => assert ShortFlag(a)[1] == 'u' && ("--" + b.name)[1] == '-';
    case FirstLetter =>
    case Given(text) => assert |ShortFlag(a)| <= 2 < |"--" + b.name|;
  }

  lemma SameShort(a: Opt, b: Opt)
    requires HasShort(a) ==> a.short.Given? && |a.short.text| == 1
    requires HasShort(b) ==> b.short.Given? && |b.short.text| == 1
    requires ShortFlag(a) == ShortFlag(b)
    ensures a.short == b.short
  {
    assert ShortFlag(a)[1..] == ShortFlag(b)[1..];
    assert |"undefined"| == 9;
  }

  // ----- The record of options -----

  ghost predicate Recorded(parsed: map<string, Setting>, name: string, setting: Option<Setting>) {
    match setting
    case None => name !in parsed
    case Some(s) => name in parsed && parsed[name] == s
  }

  /** The setting of the last definition of the name that has one. */
  function LastSetting(defs: seq<Opt>, settings: seq<Option<Setting>>, i: nat, name: string): (r: Option<Setting>)
    requires i <= |defs| == |settings|
    ensures r.None? <==> forall j | i <= j < |defs| && defs[j].name == name :: settings[j].None?
    ensures r.Some? ==> exists k :: i <= k < |defs| && IsLastSetting(defs, settings, k, name) && settings[k] == r
    decreases |defs| - i
  {
    if i == |defs| then None
    else
      var r := LastSetting(defs, settings, i + 1, name);
      if r.Some? then r
      else if defs[i].name == name && settings[i].Some? then
        assert IsLastSetting(defs, settings, i, name); settings[i]
      else None
  }

  ghost predicate IsLastSetting(defs: seq<Opt>, settings: seq<Option<Setting>>, k: nat, name: string)
    requires k < |defs| == |settings|
  {
    && defs[k].name == name && settings[k].Some?
    && forall j | k < j < |defs| && defs[j].name == name :: settings[j].None?
  }

  function Readings(defs: seq<Opt>, texts: seq<Token>): (r: seq<Option<Setting>>)
    ensures |r| == |defs| && forall i | 0 <= i < |defs| :: r[i] == Read(defs[i], texts)
  {
    seq(|defs|, i requires 0 <= i < |defs| => Read(defs[i], texts))
  }

  function Sayings(defs: seq<Opt>, tokens: seq<Token>): (r: seq<Option<Setting>>)
    ensures |r| == |defs| && forall i | 0 <= i < |defs| :: r[i] == Said(defs, tokens, false, defs[i])
  {
    seq(|defs|, i requires 0 <= i < |defs| => Said(defs, tokens, false, defs[i]))
  }

  lemma {:induction false} ParseOptionsReads(defs: seq<Opt>, texts: seq<Token>, i: nat, parsed: map<string, Setting>)
    requires i <= |defs|
    ensures ParseOptionsFrom(defs, texts, i, parsed).Success?
       <==> forall j | i <= j < |defs| :: Problem(defs[j], Read(defs[j], texts)).None?
    decreases |defs| - i
  {
    hide Read, Problem;
    if i < |defs| {
      ParseOptionsReads(defs, texts, i + 1, WithSetting(parsed, defs[i], Read(defs[i], texts)));
    }
  }

  /** The options are parsed exactly when each that is read and takes a value is followed by
      one, and by one that it allows. */
  lemma OptionsAcceptedIff(defs: seq<Opt>, texts: seq<Token>)
    ensures ParseOptionsFrom(defs, texts, 0, map[]).Success?
       <==> forall i | 0 <= i < |defs| && defs[i].takeValue && SpellIndex(defs[i], texts) >= 0 ::
              var next := SpellIndex(defs[i], texts) + 1;
              && next < |texts| && texts[next] != ""
              && (defs[i].values.Some? ==> texts[next] in defs[i].values.value)
  {
    ParseOptionsReads(defs, texts, 0, map[]);
    hide SpellIndex, ParseOptionsFrom;
  }

  lemma {:induction false} ParseOptionsRecords(
    defs: seq<Opt>, texts: seq<Token>, i: nat, parsed: map<string, Setting>, name: string)
    requires i <= |defs| && ParseOptionsFrom(defs, texts, i, parsed).Success?
    ensures var p := ParseOptionsFrom(defs, texts, i, parsed).value;
            var last := LastSetting(defs, Readings(defs, texts), i, name);
            if last.Some? then Recorded(p, name, last)
            else (name in p <==> name in parsed) && (name in p ==> p[name] == parsed[name])
    decreases |defs| - i
  {
    hide Read, Problem;
    if i < |defs| {
      ParseOptionsRecords(defs, texts, i + 1, WithSetting(parsed, defs[i], Read(defs[i], texts)), name);
    }
  }

  /** When no token spells two options and none is read wrong, the record has under every
      name what the command line says of its last definition, and the line is refused
      exactly when it says something impossible. */
  lemma OptionsAsSaid(command: Command, tokens: seq<Token>)
    requires command.options.Some? && Unconfused(command.options.value, tokens)
    requires Collect(command, tokens, false).Success?
    requires forall opt | opt in command.options.value :: ReadRight(opt, Collect(command, tokens, false).value.entries)
    ensures var defs := command.options.value;
            var r := ParseOptionsFrom(defs, Texts(Collect(command, tokens, false).value.entries), 0, map[]);
            && (r.Success? <==> forall opt | opt in defs :: Problem(opt, Said(defs, tokens, false, opt)).None?)
            && (r.Success? ==>
                  forall name :: Recorded(r.value, name, LastSetting(defs, Sayings(defs, tokens), 0, name)))
  {
    var defs := command.options.value;
    var texts := Texts(Collect(command, tokens, false).value.entries);
    forall opt | opt in defs ensures Read(opt, texts) == Said(defs, tokens, false, opt) {
      ReadSaidIff(command, tokens, opt);
    }
    hide Read, Said, Problem, Collect, Texts, Unconfused, ReadRight;
    ParseOptionsReads(defs, texts, 0, map[]);
    assert forall j | 0 <= j < |defs| :: defs[j] in defs;
    assert Readings(defs, texts) == Sayings(defs, tokens);
    var r := ParseOptionsFrom(defs, texts, 0, map[]);
    if r.Success? {
      forall name ensures Recorded(r.value, name, LastSetting(defs, Sayings(defs, tokens), 0, name)) {
        ParseOptionsRecords(defs, texts, 0, map[], name);
      }
    }
  }

  /** With distinct names the record of an accepted line is what the line says of every
      option exactly when none is read wrong. */
  lemma RecordAsSaidIff(command: Command, tokens: seq<Token>)
    requires command.options.Some? && Unconfused(command.options.value, tokens)
    requires Collect(command, tokens, false).Success?
    requires var defs := command.options.value; forall i, j | 0 <= i < j < |defs| :: defs[i].name != defs[j].name
    ensures var defs, entries := command.options.value, Collect(command, tokens, false).value.entries;
            var r := ParseOptionsFrom(defs, Texts(entries), 0, map[]);
            r.Success? ==>
              ((forall opt | opt in defs :: Recorded(r.value, opt.name, Said(defs, tokens, false, opt)))
               <==> forall opt | opt in defs :: ReadRight(opt, entries))
  {
    var defs, entries := command.options.value, Collect(command, tokens, false).value.entries;
    var r := ParseOptionsFrom(defs, Texts(entries), 0, map[]);
    hide Read, Said, Collect, Texts, Unconfused, ReadRight, ParseOptionsFrom;
    if r.Success? {
      forall opt | opt in defs
        ensures Recorded(r.value, opt.name, Said(defs, tokens, false, opt)) <==> ReadRight(opt, entries)
      {
        ReadSaidIff(command, tokens, opt);
        ParseOptionsRecords(defs, Texts(entries), 0, map[], opt.name);
        var i :| 0 <= i < |defs| && defs[i] == opt;
        assert LastSetting(defs, Readings(defs, Texts(entries)), 0, opt.name) == Readings(defs, Texts(entries))[i];
      }
    }
  }
}
