/** The command-line argument parser: `parse_arguments` and `set_arguments`. */
module Arguments {
  import opened Common

  datatype Error =
    | Syntax(msg: string)
    | UnknownArgument(name: string)
    | ExpectedArgument(name: string)
    | InvalidValue(value: string, expected: string)
    | TooManyArguments(name: string)
    | ExpectedValue(name: string)
    | PrintHelp

  /** An argument of the list; the help text plays no part in parsing. */
  datatype Argument = Argument(value: Option<string>, short: Option<char>, long: string)

  /** One call of the callback: a long name and the value given with it. */
  datatype Setting = Setting(name: string, value: Option<string>)

  /** The callback may keep state: what it returns may depend on the calls made before. */
  type Callback = (seq<Setting>, Setting) -> Result<(), Error>

  datatype State = Top | Positional | Value(name: string)

  /** Slicing a string inside a character panics. */
  datatype Outcome = Returned(result: Result<(), Error>) | Panicked

  // ---------------------------------------------------------------------------
  // Strings
  // ---------------------------------------------------------------------------

  function TrimDashes(s: string): (t: string) {
    if s != [] && s[0] == '-' then TrimDashes(s[1..]) else s
  }

  /** The place of the first `=`, or the length. */
  function FirstEquals(s: string): (i: nat)
    ensures i <= |s|
    ensures i < |s| ==> s[i] == '='
    ensures '=' !in s[..i]
  {
    if s == [] || s[0] == '=' then 0 else 1 + FirstEquals(s[1..])
  }

  /** A `str` of one byte. */
  predicate OneByte(s: string) {
    |s| == 1 && s[0] < 128 as char
  }

  // ---------------------------------------------------------------------------
  // Looking a name up in the list
  // ---------------------------------------------------------------------------

  predicate MatchesShort(arg: Argument, name: string) {
    arg.short.Some? && OneByte(name) && name[0] == arg.short.value
  }

  /** The search for `name` from entry `i` on; `matches` is the name found so far. */
  function ResolveFrom(list: seq<Argument>, i: nat, matches: Option<string>, name: string, hasValue: bool)
    : (r: Result<string, Error>)
    requires i <= |list|
    decreases |list| - i
  {
    if i == |list| then
      if matches.Some? then Ok(matches.value) else Err(UnknownArgument(name))
    else
      var arg := list[i];
      if MatchesShort(arg, name) then
        if hasValue != arg.value.Some? then Err(ExpectedValue([arg.short.value]))
        else ResolveFrom(list, i + 1, Some(arg.long), name, hasValue)
      else if matches.None? && arg.long == name then
        if hasValue != arg.value.Some? then Err(ExpectedValue(arg.long))
        else ResolveFrom(list, i + 1, Some(arg.long), name, hasValue)
      else ResolveFrom(list, i + 1, matches, name, hasValue)
  }

  function Resolve(list: seq<Argument>, name: string, hasValue: bool): (r: Result<string, Error>) {
    ResolveFrom(list, 0, None, name, hasValue)
  }

  /** The loop over `arg_list` in `set_arguments`. */
  method FindArgument(list: seq<Argument>, name: string, value: Option<string>) returns (r: Result<string, Error>)
    ensures r == Resolve(list, name, value.Some?)
  {
    var matches: Option<string> := None;
    for i := 0 to |list|
      invariant ResolveFrom(list, i, matches, name, value.Some?) == Resolve(list, name, value.Some?)
    {
      var arg := list[i];
      if arg.short.Some? {
        if OneByte(name) && name[0] == arg.short.value {
          if value.Some? != arg.value.Some? {
            return Err(ExpectedValue([arg.short.value]));
          }
          matches := Some(arg.long);
        }
      }
      if matches.None? && arg.long == name {
        if value.Some? != arg.value.Some? {
          return Err(ExpectedValue(arg.long));
        }
        matches := Some(arg.long);
      }
    }
    return if matches.Some? then Ok(matches.value) else Err(UnknownArgument(name));
  }

  // ---------------------------------------------------------------------------
  // Parsing
  // ---------------------------------------------------------------------------

  /** The parser's calls so far and the outcome of the last. */
  datatype Called = Called(history: seq<Setting>, result: Result<(), Error>)

  /** The closure that `set_arguments` hands to `parse_arguments`. */
  function Call(list: seq<Argument>, f: Callback, history: seq<Setting>, name: string, value: Option<string>)
    : (c: Called)
  {
    match Resolve(list, name, value.Some?)
    case Err(e) => Called(history, Err(e))
    case Ok(long) => Called(history + [Setting(long, value)], f(history, Setting(long, value)))
  }

  datatype Step = Go(state: State, history: seq<Setting>) | Stop(outcome: Outcome, history: seq<Setting>)

  /** A call whose error, if any, ends the parse. */
  function CallOrStop(list: seq<Argument>, f: Callback, history: seq<Setting>, name: string, value: Option<string>,
                      next: State): (s: Step) {
    var c := Call(list, f, history, name, value);
    if c.result.Err? then Stop(Returned(c.result), c.history) else Go(next, c.history)
  }

  /** A call that turns the error `ExpectedValue` into waiting for the value. */
  function CallOrWait(list: seq<Argument>, f: Callback, history: seq<Setting>, name: string, value: Option<string>)
    : (s: Step)
  {
    var c := Call(list, f, history, name, value);
    if c.result.Ok? then Go(Top, c.history)
    else if c.result.error.ExpectedValue? then Go(Value(name), c.history)
    else Stop(Returned(c.result), c.history)
  }

  function StepTop(list: seq<Argument>, f: Callback, history: seq<Setting>, arg: string): (s: Step) {
    if arg == "--" then Go(Positional, history)
    else if "--" <= arg then
      var param := TrimDashes(arg);
      var i := FirstEquals(param);
      if i < |param| then
        if i == 0 then Stop(Returned(Err(Syntax("expected parameter name before `=`"))), history)
        else if i + 1 == |param| then Stop(Returned(Err(Syntax("expected parameter value after `=`"))), history)
        else CallOrStop(list, f, history, param[..i], Some(param[i + 1..]), Top)
      else CallOrWait(list, f, history, param, None)
    else if "-" <= arg then
      if |arg| == 1 then Stop(Returned(Err(Syntax("expected argument short name after `-`"))), history)
      else if arg[1] >= 128 as char then Stop(Panicked, history)
      else CallOrWait(list, f, history, [arg[1]], if |arg| > 2 then Some(arg[2..]) else None)
    else CallOrStop(list, f, history, "", Some(arg), Positional)
  }

  function StepOn(list: seq<Argument>, f: Callback, state: State, history: seq<Setting>, arg: string): (s: Step) {
    match state
    case Top => StepTop(list, f, history, arg)
    case Positional => CallOrStop(list, f, history, "", Some(arg), Positional)
    case Value(name) => CallOrStop(list, f, history, name, Some(arg), Top)
  }

  /** Parsing `args` from a state on: the outcome and all calls made. */
  function Parse(list: seq<Argument>, f: Callback, state: State, history: seq<Setting>, args: seq<string>)
    : (r: (Outcome, seq<Setting>))
    decreases |args|
  {
    if args == [] then (Returned(Ok(())), history)
    else
      match StepOn(list, f, state, history, args[0])
      case Go(state', history') => Parse(list, f, state', history', args[1..])
      case Stop(outcome, history') => (outcome, history')
  }

  /** `set_arguments` */
  method SetArguments(args: seq<string>, list: seq<Argument>, f: Callback)
    returns (outcome: Outcome, history: seq<Setting>)
    ensures (outcome, history) == Parse(list, f, Top, [], args)
  {
    var s := Top;
    history := [];
    for i := 0 to |args|
      invariant Parse(list, f, s, history, args[i..]) == Parse(list, f, Top, [], args)
    {
      assert args[i..][1..] == args[i + 1..];
      match StepOn(list, f, s, history, args[i]) {
        case Go(s', history') =>
          s, history := s', history';
        case Stop(o, history') =>
          return o, history';
      }
    }
    outcome := Returned(Ok(()));
  }

  // ---------------------------------------------------------------------------
  // Only declared names reach the callback
  // ---------------------------------------------------------------------------

  /** Some entry of the list has this long name and takes a value exactly when one is given. */
  predicate Declared(list: seq<Argument>, s: Setting) {
    exists i :: 0 <= i < |list| && list[i].long == s.name && (s.value.Some? <==> list[i].value.Some?)
  }

  predicate AllDeclared(list: seq<Argument>, history: seq<Setting>) {
    forall i :: 0 <= i < |history| ==> Declared(list, history[i])
  }

  lemma {:induction false} ResolvedIsDeclared(list: seq<Argument>, i: nat, matches: Option<string>, name: string,
                                              value: Option<string>)
    requires i <= |list| && (matches.Some? ==> Declared(list, Setting(matches.value, value)))
    ensures var r := ResolveFrom(list, i, matches, name, value.Some?);
            r.Ok? ==> Declared(list, Setting(r.value, value))
    decreases |list| - i
  {
    if i < |list| {
      var arg := list[i];
      if (MatchesShort(arg, name) || (matches.None? && arg.long == name)) {
        if value.Some? == arg.value.Some? {
          ResolvedIsDeclared(list, i + 1, Some(arg.long), name, value);
        }
      } else {
        ResolvedIsDeclared(list, i + 1, matches, name, value);
      }
    }
  }

  lemma CallDeclares(list: seq<Argument>, f: Callback, history: seq<Setting>, name: string, value: Option<string>)
    requires AllDeclared(list, history)
    ensures AllDeclared(list, Call(list, f, history, name, value).history)
  {
    ResolvedIsDeclared(list, 0, None, name, value);
  }

  lemma TopDeclares(list: seq<Argument>, f: Callback, history: seq<Setting>, arg: string)
    requires AllDeclared(list, history)
    ensures AllDeclared(list, StepTop(list, f, history, arg).history)
  {
    if "--" <= arg {
      var param := TrimDashes(arg);
      var i := FirstEquals(param);
      CallDeclares(list, f, history, param, None);
      if i < |param| {
        CallDeclares(list, f, history, param[..i], Some(param[i + 1..]));
      }
    } else if "-" <= arg && |arg| > 1 {
      CallDeclares(list, f, history, [arg[1]], if |arg| > 2 then Some(arg[2..]) else None);
    } else {
      CallDeclares(list, f, history, "", Some(arg));
    }
  }

  lemma StepDeclares(list: seq<Argument>, f: Callback, state: State, history: seq<Setting>, arg: string)
    requires AllDeclared(list, history)
    ensures AllDeclared(list, StepOn(list, f, state, history, arg).history)
  {
    if state.Top? {
      TopDeclares(list, f, history, arg);
    } else {
      CallDeclares(list, f, history, if state.Value? then state.name else "", Some(arg));
    }
  }

  /** For every input, every call names an entry of the list and has a value exactly when that entry takes one. */
  lemma {:induction false} CallsAreDeclared(list: seq<Argument>, f: Callback, state: State, history: seq<Setting>,
                                            args: seq<string>)
    requires AllDeclared(list, history)
    ensures AllDeclared(list, Parse(list, f, state, history, args).1)
    decreases |args|
  {
    if args != [] {
      StepDeclares(list, f, state, history, args[0]);
      var s := StepOn(list, f, state, history, args[0]);
      if s.Go? {
        CallsAreDeclared(list, f, s.state, s.history, args[1..]);
      }
    }
  }
}
