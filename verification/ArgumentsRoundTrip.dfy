/**
 Command lines as they are written down, and what the parser makes of them: every mix of the
 documented spellings of a list of settings is parsed back into that list.
 */
module ArgumentsRoundTrip {
  import opened Common
  import opened Arguments

  /** How a setting is spelled: `--long`, `--long=v`, `--long v`, `-s`, `-sv`, `-s v`. */
  datatype Style = Long | LongEquals | LongThenValue | Short | ShortValue | ShortThenValue

  /** A setting to write down: an entry of the list, its value if it takes one, and a spelling. */
  datatype Item = Item(index: nat, value: Option<string>, style: Style)

  predicate PlainName(arg: Argument) {
    && '=' !in arg.long && !("-" <= arg.long)
    && (arg.short.Some? ==> arg.short.value != '-' && arg.short.value < 128 as char)
  }

  /** Names that keep the entries of a list apart, and apart from values. */
  ghost predicate WellFormed(list: seq<Argument>) {
    && (forall i :: 0 <= i < |list| ==> PlainName(list[i]))
    && (forall i, j :: 0 <= i < j < |list| ==> list[i].long != list[j].long)
    && (forall i, j :: 0 <= i < j < |list| && list[i].short.Some? ==> list[i].short != list[j].short)
    && (forall i, j :: 0 <= i < |list| && 0 <= j < |list| && i != j && list[i].short.Some? ==>
          list[j].long != [list[i].short.value])
  }

  predicate Writable(list: seq<Argument>, item: Item) {
    && item.index < |list| && list[item.index].long != ""
    && (item.value.Some? <==> list[item.index].value.Some?)
    && (item.value.Some? <==> !item.style.Long? && !item.style.Short?)
    && (item.style.Short? || item.style.ShortValue? || item.style.ShortThenValue? ==> list[item.index].short.Some?)
    && (item.style.LongEquals? || item.style.ShortValue? ==> item.value != Some(""))
  }

  function Render(list: seq<Argument>, item: Item): (words: seq<string>)
    requires Writable(list, item)
  {
    var arg := list[item.index];
    match item.style
    case Long => ["--" + arg.long]
    case LongEquals => ["--" + arg.long + "=" + item.value.value]
    case LongThenValue => ["--" + arg.long, item.value.value]
    case Short => ["-" + [arg.short.value]]
    case ShortValue => ["-" + [arg.short.value] + item.value.value]
    case ShortThenValue => ["-" + [arg.short.value], item.value.value]
  }

  function SettingOf(list: seq<Argument>, item: Item): (s: Setting)
    requires Writable(list, item)
  {
    Setting(list[item.index].long, item.value)
  }

  predicate AllWritable(list: seq<Argument>, items: seq<Item>) {
    forall i :: 0 <= i < |items| ==> Writable(list, items[i])
  }

  function RenderAll(list: seq<Argument>, items: seq<Item>): (words: seq<string>)
    requires AllWritable(list, items)
  {
    if items == [] then [] else Render(list, items[0]) + RenderAll(list, items[1..])
  }

  function SettingsOf(list: seq<Argument>, items: seq<Item>): (s: seq<Setting>)
    requires AllWritable(list, items)
  {
    if items == [] then [] else [SettingOf(list, items[0])] + SettingsOf(list, items[1..])
  }

  /** A callback that accepts everything. */
  ghost predicate Accepts(f: Callback) {
    forall history, s :: f(history, s) == Ok(())
  }

  // ---------------------------------------------------------------------------
  // Names
  // ---------------------------------------------------------------------------

  /** A name stands for entry `k`: its long name, or its short name. */
  ghost predicate Names(list: seq<Argument>, k: nat, name: string) {
    k < |list| && (name == list[k].long || (list[k].short.Some? && name == [list[k].short.value]))
  }

  /** No other entry answers to the name. */
  lemma OnlyOneMatches(list: seq<Argument>, k: nat, name: string, i: nat)
    requires WellFormed(list) && Names(list, k, name) && i < |list| && i != k
    ensures !MatchesShort(list[i], name) && list[i].long != name
  {
  }

  /** The search finds entry `k`, or complains about its value. */
  lemma {:induction false} ResolveNamed(list: seq<Argument>, k: nat, name: string, hasValue: bool, i: nat,
                                        matches: Option<string>)
    requires WellFormed(list) && Names(list, k, name) && i <= |list|
    requires i <= k ==> matches == None
    requires i > k ==> matches == Some(list[k].long) && hasValue == list[k].value.Some?
    ensures var r := ResolveFrom(list, i, matches, name, hasValue);
            if hasValue == list[k].value.Some? then r == Ok(list[k].long) else r.Err? && r.error.ExpectedValue?
    decreases |list| - i
  {
    if i < |list| {
      if i == k {
        assert PlainName(list[k]);
        if hasValue == list[k].value.Some? {
          ResolveNamed(list, k, name, hasValue, i + 1, Some(list[k].long));
        }
      } else {
        OnlyOneMatches(list, k, name, i);
        ResolveNamed(list, k, name, hasValue, i + 1, matches);
      }
    }
  }

  lemma CallNamed(list: seq<Argument>, f: Callback, history: seq<Setting>, k: nat, name: string, value: Option<string>)
    requires WellFormed(list) && Names(list, k, name) && Accepts(f)
    ensures var c := Call(list, f, history, name, value);
            if value.Some? == list[k].value.Some? then c == Called(history + [Setting(list[k].long, value)], Ok(()))
            else c.history == history && c.result.Err? && c.result.error.ExpectedValue?
  {
    ResolveNamed(list, k, name, value.Some?, 0, None);
  }

  // ---------------------------------------------------------------------------
  // Spellings
  // ---------------------------------------------------------------------------

  lemma TrimLong(long: string, tail: string)
    requires long != "" && !("-" <= long)
    ensures TrimDashes("--" + long + tail) == long + tail
  {
    var s := "--" + long + tail;
    assert s[1..][1..] == long + tail;
    assert TrimDashes(s) == TrimDashes(s[1..]) == TrimDashes(s[1..][1..]);
  }

  lemma {:induction false} EqualsAt(name: string, tail: string)
    requires '=' !in name
    ensures FirstEquals(name + tail) == |name| + FirstEquals(tail)
  {
    if name == "" {
      assert name + tail == tail;
    } else {
      assert name[0] != '=' && forall c :: c in name[1..] ==> c in name;
      EqualsAt(name[1..], tail);
      assert (name + tail)[1..] == name[1..] + tail;
    }
  }

  /** A name that can be written as a long option. */
  predicate Spellable(name: string) {
    name != "" && !("-" <= name) && '=' !in name
  }

  lemma StepLong(list: seq<Argument>, f: Callback, history: seq<Setting>, name: string)
    requires Spellable(name)
    ensures StepTop(list, f, history, "--" + name) == CallOrWait(list, f, history, name, None)
  {
    TrimLong(name, "");
    EqualsAt(name, "");
    assert "--" + name + "" == "--" + name && name + "" == name;
  }

  lemma StepLongEquals(list: seq<Argument>, f: Callback, history: seq<Setting>, name: string, v: string)
    requires Spellable(name) && v != ""
    ensures StepTop(list, f, history, "--" + name + "=" + v) == CallOrStop(list, f, history, name, Some(v), Top)
  {
    var tail := "=" + v;
    TrimLong(name, tail);
    EqualsAt(name, tail);
    assert "--" + name + tail == "--" + name + "=" + v;
    assert (name + tail)[..|name|] == name && (name + tail)[|name| + 1..] == v;
  }

  lemma StepShort(list: seq<Argument>, f: Callback, history: seq<Setting>, c: char, tail: string)
    requires c != '-' && c < 128 as char
    ensures StepTop(list, f, history, "-" + [c] + tail) ==
            CallOrWait(list, f, history, [c], if tail == "" then None else Some(tail))
  {
    var arg := "-" + [c] + tail;
    assert arg[0] == '-' && arg[1] != '-' && arg[2..] == tail;
  }

  // ---------------------------------------------------------------------------
  // The round trip
  // ---------------------------------------------------------------------------

  lemma ParseOne(list: seq<Argument>, f: Callback, state: State, history: seq<Setting>, word: string, rest: seq<string>)
    ensures var s := StepOn(list, f, state, history, word);
            Parse(list, f, state, history, [word] + rest) ==
            if s.Go? then Parse(list, f, s.state, s.history, rest) else (s.outcome, s.history)
  {
  }

  /** An option waits for its value, whatever the next word looks like. */
  lemma ThenValue(list: seq<Argument>, f: Callback, history: seq<Setting>, k: nat, name: string, v: string,
                  rest: seq<string>)
    requires WellFormed(list) && Names(list, k, name) && Accepts(f) && list[k].value.Some?
    ensures CallOrWait(list, f, history, name, None) == Go(Value(name), history)
    ensures Parse(list, f, Value(name), history, [v] + rest)
         == Parse(list, f, Top, history + [Setting(list[k].long, Some(v))], rest)
  {
    CallNamed(list, f, history, k, name, None);
    CallNamed(list, f, history, k, name, Some(v));
    ParseOne(list, f, Value(name), history, v, rest);
  }

  /** An option and the word behind it. */
  lemma PairParses(list: seq<Argument>, f: Callback, history: seq<Setting>, k: nat, word: string, name: string,
                   v: string, rest: seq<string>)
    requires WellFormed(list) && Names(list, k, name) && Accepts(f) && list[k].value.Some?
    requires StepTop(list, f, history, word) == CallOrWait(list, f, history, name, None)
    ensures Parse(list, f, Top, history, [word, v] + rest)
         == Parse(list, f, Top, history + [Setting(list[k].long, Some(v))], rest)
  {
    ThenValue(list, f, history, k, name, v, rest);
    ParseOne(list, f, Top, history, word, [v] + rest);
    assert [word, v] + rest == [word] + ([v] + rest);
  }

  /** An option written in one word. */
  lemma WordParses(list: seq<Argument>, f: Callback, history: seq<Setting>, k: nat, word: string, name: string,
                   value: Option<string>, rest: seq<string>)
    requires WellFormed(list) && Names(list, k, name) && Accepts(f) && list[k].value.Some? == value.Some?
    requires || StepTop(list, f, history, word) == CallOrWait(list, f, history, name, value)
             || StepTop(list, f, history, word) == CallOrStop(list, f, history, name, value, Top)
    ensures Parse(list, f, Top, history, [word] + rest)
         == Parse(list, f, Top, history + [Setting(list[k].long, value)], rest)
  {
    CallNamed(list, f, history, k, name, value);
    ParseOne(list, f, Top, history, word, rest);
  }

  lemma LongParses(list: seq<Argument>, f: Callback, history: seq<Setting>, item: Item, rest: seq<string>)
    requires WellFormed(list) && Accepts(f) && Writable(list, item)
    requires item.style.Long? || item.style.LongEquals? || item.style.LongThenValue?
    ensures Parse(list, f, Top, history, Render(list, item) + rest)
         == Parse(list, f, Top, history + [SettingOf(list, item)], rest)
  {
    var k, long := item.index, list[item.index].long;
    assert PlainName(list[k]);
    if item.style.LongEquals? {
      StepLongEquals(list, f, history, long, item.value.value);
      WordParses(list, f, history, k, "--" + long + "=" + item.value.value, long, item.value, rest);
    } else if item.style.Long? {
      StepLong(list, f, history, long);
      WordParses(list, f, history, k, "--" + long, long, None, rest);
    } else {
      StepLong(list, f, history, long);
      PairParses(list, f, history, k, "--" + long, long, item.value.value, rest);
    }
  }

  lemma ShortParses(list: seq<Argument>, f: Callback, history: seq<Setting>, item: Item, rest: seq<string>)
    requires WellFormed(list) && Accepts(f) && Writable(list, item)
    requires item.style.Short? || item.style.ShortValue? || item.style.ShortThenValue?
    ensures Parse(list, f, Top, history, Render(list, item) + rest)
         == Parse(list, f, Top, history + [SettingOf(list, item)], rest)
  {
    var k, name := item.index, [list[item.index].short.value];
    assert PlainName(list[k]);
    if item.style.ShortValue? {
      StepShort(list, f, history, name[0], item.value.value);
      WordParses(list, f, history, k, "-" + name + item.value.value, name, item.value, rest);
    } else {
      StepShort(list, f, history, name[0], "");
      assert "-" + name + "" == "-" + name;
      if item.style.Short? {
        WordParses(list, f, history, k, "-" + name, name, None, rest);
      } else {
        PairParses(list, f, history, k, "-" + name, name, item.value.value, rest);
      }
    }
  }

  lemma {:induction false} ItemsParse(list: seq<Argument>, f: Callback, history: seq<Setting>, items: seq<Item>,
                                      rest: seq<string>)
    requires WellFormed(list) && Accepts(f) && AllWritable(list, items)
    ensures Parse(list, f, Top, history, RenderAll(list, items) + rest)
         == Parse(list, f, Top, history + SettingsOf(list, items), rest)
    decreases |items|
  {
    if items == [] {
      assert RenderAll(list, items) + rest == rest && history + SettingsOf(list, items) == history;
    } else {
      var item, more := items[0], RenderAll(list, items[1..]) + rest;
      assert RenderAll(list, items) + rest == Render(list, item) + more;
      if item.style.Long? || item.style.LongEquals? || item.style.LongThenValue? {
        LongParses(list, f, history, item, more);
      } else {
        ShortParses(list, f, history, item, more);
      }
      ItemsParse(list, f, history + [SettingOf(list, item)], items[1..], rest);
      assert history + [SettingOf(list, item)] + SettingsOf(list, items[1..]) == history + SettingsOf(list, items);
    }
  }

  function PositionalsOf(words: seq<string>): (s: seq<Setting>) {
    if words == [] then [] else [Setting("", Some(words[0]))] + PositionalsOf(words[1..])
  }

  lemma {:induction false} PositionalsParse(list: seq<Argument>, f: Callback, history: seq<Setting>, k: nat,
                                            words: seq<string>)
    requires WellFormed(list) && Accepts(f) && k < |list| && list[k].long == "" && list[k].value.Some?
    ensures Parse(list, f, Positional, history, words) == (Returned(Ok(())), history + PositionalsOf(words))
    decreases |words|
  {
    if words == [] {
      assert history + PositionalsOf(words) == history;
    } else {
      CallNamed(list, f, history, k, "", Some(words[0]));
      ParseOne(list, f, Positional, history, words[0], words[1..]);
      assert [words[0]] + words[1..] == words;
      PositionalsParse(list, f, history + [Setting("", Some(words[0]))], k, words[1..]);
      assert history + [Setting("", Some(words[0]))] + PositionalsOf(words[1..]) == history + PositionalsOf(words);
    }
  }

  /** What follows the options. */
  lemma TailParses(list: seq<Argument>, f: Callback, history: seq<Setting>, dashes: bool, words: seq<string>, k: nat)
    requires WellFormed(list) && Accepts(f)
    requires words != [] ==> k < |list| && list[k].long == "" && list[k].value.Some?
    requires words != [] && !dashes ==> !("-" <= words[0])
    ensures Parse(list, f, Top, history, (if dashes then ["--"] else []) + words)
         == (Returned(Ok(())), history + PositionalsOf(words))
  {
    if words == [] {
      assert history + PositionalsOf(words) == history;
    } else {
      PositionalsParse(list, f, history, k, words);
    }
    if dashes {
      ParseOne(list, f, Top, history, "--", words);
    } else if words != [] {
      assert [words[0]] + words[1..] == words && [] + words == words;
      assert StepTop(list, f, history, words[0]) == StepOn(list, f, Positional, history, words[0]);
      ParseOne(list, f, Top, history, words[0], words[1..]);
      ParseOne(list, f, Positional, history, words[0], words[1..]);
    }
  }

  /**
   Writing down any settings in any mix of spellings, followed by positional words, behind `--` or
   with a first word that does not start with a dash, and parsing the result: the callback gets
   exactly those settings and words, in order.
   */
  lemma RoundTrip(list: seq<Argument>, f: Callback, items: seq<Item>, dashes: bool, words: seq<string>, k: nat)
    requires WellFormed(list) && Accepts(f) && AllWritable(list, items)
    requires words != [] ==> k < |list| && list[k].long == "" && list[k].value.Some?
    requires words != [] && !dashes ==> !("-" <= words[0])
    ensures Parse(list, f, Top, [], RenderAll(list, items) + (if dashes then ["--"] else []) + words)
         == (Returned(Ok(())), SettingsOf(list, items) + PositionalsOf(words))
  {
    var settings, mark: seq<string> := SettingsOf(list, items), if dashes then ["--"] else [];
    Assoc(RenderAll(list, items), mark, words);
    ItemsParse(list, f, [], items, mark + words);
    assert [] + settings == settings;
    TailParses(list, f, settings, dashes, words, k);
  }

  // ---------------------------------------------------------------------------
  // Errors of the callback
  // ---------------------------------------------------------------------------

  /** Words after which the parser waits for a value when it is told that one is expected. */
  predicate MayWait(state: State, word: string) {
    && state.Top? && "-" <= word && word != "--"
    && ("--" <= word ==> FirstEquals(TrimDashes(word)) == |TrimDashes(word)|)
  }

  /** A call that was made has the result of the callback. */
  lemma CallResult(list: seq<Argument>, f: Callback, history: seq<Setting>, name: string, value: Option<string>,
                   s: Setting)
    ensures var c := Call(list, f, history, name, value);
            c.history == history + [s] ==> c.result == f(history, s)
    ensures history != history + [s]
  {
    var c := Call(list, f, history, name, value);
    if c.history == history + [s] {
      assert c.history[|history|] == s;
    }
  }

  /**
   The documentation promises that an error of the callback ends the parse and is returned. That holds
   unless the error is `ExpectedValue` and the word may wait for a value.
   */
  lemma CallbackErrorEnds(list: seq<Argument>, f: Callback, state: State, history: seq<Setting>, word: string,
                          s: Setting)
    requires StepOn(list, f, state, history, word).history == history + [s]
    requires f(history, s).Err?
    ensures StepOn(list, f, state, history, word) == Stop(Returned(f(history, s)), history + [s]) <==>
            !(f(history, s).error.ExpectedValue? && MayWait(state, word))
  {
    if !state.Top? {
      CallResult(list, f, history, if state.Value? then state.name else "", Some(word), s);
    } else if "--" <= word {
      var param := TrimDashes(word);
      var i := FirstEquals(param);
      CallResult(list, f, history, param, None, s);
      if i < |param| {
        CallResult(list, f, history, param[..i], Some(param[i + 1..]), s);
      }
    } else if "-" <= word && |word| > 1 {
      CallResult(list, f, history, [word[1]], if |word| > 2 then Some(word[2..]) else None, s);
    } else {
      CallResult(list, f, history, "", Some(word), s);
    }
  }

  /** The word makes a call whose error is taken as a request for the next word. */
  predicate Swallows(list: seq<Argument>, f: Callback, state: State, history: seq<Setting>, word: string) {
    var calls := StepOn(list, f, state, history, word).history;
    |calls| > |history| && MayWait(state, word)
    && f(history, calls[|history|]).Err? && f(history, calls[|history|]).error.ExpectedValue?
  }

  predicate NeverSwallows(list: seq<Argument>, f: Callback, state: State, history: seq<Setting>, words: seq<string>)
    decreases |words|
  {
    words == [] ||
    (!Swallows(list, f, state, history, words[0]) &&
     var s := StepOn(list, f, state, history, words[0]);
     s.Go? ==> NeverSwallows(list, f, s.state, s.history, words[1..]))
  }

  /** Every word whose call fails is the last word read, and the error is the outcome. */
  predicate StopsAtErrors(list: seq<Argument>, f: Callback, state: State, history: seq<Setting>, words: seq<string>)
    decreases |words|
  {
    words == [] ||
    var s := StepOn(list, f, state, history, words[0]);
    && (|s.history| > |history| && f(history, s.history[|history|]).Err? ==>
          s == Stop(Returned(f(history, s.history[|history|])), s.history))
    && (s.Go? ==> StopsAtErrors(list, f, s.state, s.history, words[1..]))
  }

  /** A word makes at most one call. */
  lemma StepMakesOneCall(list: seq<Argument>, f: Callback, state: State, history: seq<Setting>, word: string)
    ensures var calls := StepOn(list, f, state, history, word).history;
            calls == history || (|calls| == |history| + 1 && calls == history + [calls[|history|]])
  {
  }

  lemma {:induction false} HistoryGrows(list: seq<Argument>, f: Callback, state: State, history: seq<Setting>,
                                        words: seq<string>)
    ensures history <= Parse(list, f, state, history, words).1
    decreases |words|
  {
    if words != [] {
      var s := StepOn(list, f, state, history, words[0]);
      StepMakesOneCall(list, f, state, history, words[0]);
      if s.Go? {
        HistoryGrows(list, f, s.state, s.history, words[1..]);
      }
    }
  }

  lemma StepStopsExactlyWhen(list: seq<Argument>, f: Callback, state: State, history: seq<Setting>, word: string)
    ensures var s := StepOn(list, f, state, history, word);
            (|s.history| > |history| && f(history, s.history[|history|]).Err? ==>
               s == Stop(Returned(f(history, s.history[|history|])), s.history))
            <==> !Swallows(list, f, state, history, word)
  {
    var s := StepOn(list, f, state, history, word);
    StepMakesOneCall(list, f, state, history, word);
    if |s.history| > |history| && f(history, s.history[|history|]).Err? {
      CallbackErrorEnds(list, f, state, history, word, s.history[|history|]);
    }
  }

  /** The promise for a whole parse holds if and only if no word swallows an error. */
  lemma {:induction false} ErrorsStopExactlyWhen(list: seq<Argument>, f: Callback, state: State, history: seq<Setting>,
                                                 words: seq<string>)
    ensures StopsAtErrors(list, f, state, history, words) <==> NeverSwallows(list, f, state, history, words)
    decreases |words|
  {
    if words != [] {
      var s := StepOn(list, f, state, history, words[0]);
      StepStopsExactlyWhen(list, f, state, history, words[0]);
      if s.Go? {
        ErrorsStopExactlyWhen(list, f, s.state, s.history, words[1..]);
      }
    }
  }

  /** Then a call that fails is the last that is made, and its error is the outcome of the parse. */
  lemma {:induction false} FailedCallIsLast(list: seq<Argument>, f: Callback, state: State, history: seq<Setting>,
                                            words: seq<string>, i: nat)
    requires StopsAtErrors(list, f, state, history, words)
    requires var calls := Parse(list, f, state, history, words).1;
             |history| <= i < |calls| && f(calls[..i], calls[i]).Err?
    ensures var (outcome, calls) := Parse(list, f, state, history, words);
            i == |calls| - 1 && outcome == Returned(f(calls[..i], calls[i]))
    decreases |words|
  {
    var s, calls := StepOn(list, f, state, history, words[0]), Parse(list, f, state, history, words).1;
    StepMakesOneCall(list, f, state, history, words[0]);
    if s.Go? {
      HistoryGrows(list, f, s.state, s.history, words[1..]);
    }
    if i < |s.history| {
      assert calls[..|s.history|] == s.history && calls[..i] == history;
    } else {
      FailedCallIsLast(list, f, s.state, s.history, words[1..], i);
    }
  }

  predicate Expects(r: Result<(), Error>) {
    r.Err? && r.error.ExpectedValue?
  }

  /** What the callback returned to call `i`. */
  function ResultOf(f: Callback, calls: seq<Setting>, i: nat): (r: Result<(), Error>)
    requires i < |calls|
  {
    f(calls[..i], calls[i])
  }

  predicate NoneExpects(f: Callback, calls: seq<Setting>, from: nat) {
    forall i :: from <= i < |calls| ==> !Expects(ResultOf(f, calls, i))
  }

  lemma {:induction false} NothingToSwallow(list: seq<Argument>, f: Callback, state: State, history: seq<Setting>,
                                            words: seq<string>)
    requires NoneExpects(f, Parse(list, f, state, history, words).1, |history|)
    ensures NeverSwallows(list, f, state, history, words)
    decreases |words|
  {
    if words != [] {
      var s, calls := StepOn(list, f, state, history, words[0]), Parse(list, f, state, history, words).1;
      StepMakesOneCall(list, f, state, history, words[0]);
      if s.Go? {
        HistoryGrows(list, f, s.state, s.history, words[1..]);
        NothingToSwallow(list, f, s.state, s.history, words[1..]);
      }
      if |s.history| > |history| {
        assert calls[..|s.history|] == s.history && calls[..|history|] == history;
        assert !Expects(ResultOf(f, calls, |history|));
      }
    }
  }

  /**
   `set_arguments` keeps its promise for every callback that does not return `ExpectedValue`: a call that fails
   is the last, and its error is what the parse returns.
   */
  lemma {:induction false} CallbackErrorIsReturned(list: seq<Argument>, f: Callback, words: seq<string>, i: nat)
    requires var calls := Parse(list, f, Top, [], words).1;
             NoneExpects(f, calls, 0) && i < |calls| && ResultOf(f, calls, i).Err?
    ensures var (outcome, calls) := Parse(list, f, Top, [], words);
            i == |calls| - 1 && outcome == Returned(ResultOf(f, calls, i))
  {
    NothingToSwallow(list, f, Top, [], words);
    ErrorsStopExactlyWhen(list, f, Top, [], words);
    FailedCallIsLast(list, f, Top, [], words, i);
  }

  /** The exception: for any flag written alone, the error is swallowed and the parse returns success. */
  lemma SwallowedError(list: seq<Argument>, f: Callback, k: nat)
    requires WellFormed(list) && k < |list| && list[k].long != "" && list[k].value.None?
    requires f([], Setting(list[k].long, None)).Err? && f([], Setting(list[k].long, None)).error.ExpectedValue?
    ensures Parse(list, f, Top, [], ["--" + list[k].long]) == (Returned(Ok(())), [Setting(list[k].long, None)])
  {
    var none: seq<Setting>, s := [], Setting(list[k].long, None);
    assert PlainName(list[k]);
    StepLong(list, f, none, list[k].long);
    ResolveNamed(list, k, list[k].long, false, 0, None);
    assert none + [s] == [s];
    assert CallOrWait(list, f, none, list[k].long, None) == Go(Value(list[k].long), [s]);
    ParseOne(list, f, Top, none, "--" + list[k].long, []);
    assert ["--" + list[k].long] + [] == ["--" + list[k].long];
  }

  /** Nor is an option at the end of the line, still waiting for its value, reported: no call is made for it. */
  lemma TrailingOptionIsDropped(list: seq<Argument>, f: Callback, k: nat)
    requires WellFormed(list) && k < |list| && list[k].long != "" && list[k].value.Some?
    ensures Parse(list, f, Top, [], ["--" + list[k].long]) == (Returned(Ok(())), [])
  {
    assert PlainName(list[k]);
    StepLong(list, f, [], list[k].long);
    ResolveNamed(list, k, list[k].long, false, 0, None);
    ParseOne(list, f, Top, [], "--" + list[k].long, []);
    assert ["--" + list[k].long] + [] == ["--" + list[k].long];
  }
}
