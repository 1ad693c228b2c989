/** Words that end a parse before anything is called for them: names that nobody has, and malformed options. */
module ArgumentErrors {
  import opened Common
  import opened Arguments
  import opened ArgumentsRoundTrip

  /** The entry has this long name, or this short one of one ASCII character. */
  predicate Named(arg: Argument, name: string) {
    arg.long == name || (arg.short.Some? && name == [arg.short.value] && arg.short.value < 128 as char)
  }

  predicate Unnamed(list: seq<Argument>, name: string) {
    forall i :: 0 <= i < |list| ==> !Named(list[i], name)
  }

  lemma {:induction false} UnknownFrom(list: seq<Argument>, i: nat, matches: Option<string>, name: string,
                                       hasValue: bool)
    requires i <= |list|
    ensures ResolveFrom(list, i, matches, name, hasValue) == Err(UnknownArgument(name)) <==>
            matches.None? && Unnamed(list[i..], name)
    decreases |list| - i
  {
    if i < |list| {
      assert list[i..] == [list[i]] + list[i + 1..];
      assert MatchesShort(list[i], name) || list[i].long == name <==> Named(list[i], name);
      UnknownFrom(list, i + 1, matches, name, hasValue);
      UnknownFrom(list, i + 1, Some(list[i].long), name, hasValue);
    }
  }

  /** A name is unknown exactly when no entry has it, and then the callback is not called. */
  lemma UnknownExactlyWhen(list: seq<Argument>, f: Callback, history: seq<Setting>, name: string, value: Option<string>)
    ensures Resolve(list, name, value.Some?) == Err(UnknownArgument(name)) <==> Unnamed(list, name)
    ensures Unnamed(list, name) ==> Call(list, f, history, name, value) == Called(history, Err(UnknownArgument(name)))
  {
    UnknownFrom(list, 0, None, name, value.Some?);
    assert list[0..] == list;
  }

  /** The parse ends here, with this error, and nothing more has been called. */
  ghost predicate EndsWith(list: seq<Argument>, f: Callback, history: seq<Setting>, word: string, rest: seq<string>,
                           e: Error)
  {
    Parse(list, f, Top, history, [word] + rest) == (Returned(Err(e)), history)
  }

  /** A long name that no entry has ends the parse with `UnknownArgument`, with a value or without. */
  lemma UnknownLongEnds(list: seq<Argument>, f: Callback, history: seq<Setting>, name: string, value: string,
                        rest: seq<string>)
    requires Spellable(name) && Unnamed(list, name)
    ensures EndsWith(list, f, history, "--" + name, rest, UnknownArgument(name))
    ensures value != "" ==> EndsWith(list, f, history, "--" + name + "=" + value, rest, UnknownArgument(name))
  {
    StepLong(list, f, history, name);
    UnknownExactlyWhen(list, f, history, name, None);
    ParseOne(list, f, Top, history, "--" + name, rest);
    if value != "" {
      StepLongEquals(list, f, history, name, value);
      UnknownExactlyWhen(list, f, history, name, Some(value));
      ParseOne(list, f, Top, history, "--" + name + "=" + value, rest);
    }
  }

  /** So does a short name, whatever follows it in its word. */
  lemma UnknownShortEnds(list: seq<Argument>, f: Callback, history: seq<Setting>, c: char, tail: string,
                         rest: seq<string>)
    requires c != '-' && c < 128 as char && Unnamed(list, [c])
    ensures EndsWith(list, f, history, "-" + [c] + tail, rest, UnknownArgument([c]))
  {
    StepShort(list, f, history, c, tail);
    UnknownExactlyWhen(list, f, history, [c], if tail == "" then None else Some(tail));
    ParseOne(list, f, Top, history, "-" + [c] + tail, rest);
  }

  /** And a positional word, when no entry has the empty name. */
  lemma UnknownPositionalEnds(list: seq<Argument>, f: Callback, history: seq<Setting>, word: string, rest: seq<string>)
    requires !("-" <= word) && Unnamed(list, "")
    ensures EndsWith(list, f, history, word, rest, UnknownArgument(""))
  {
    UnknownExactlyWhen(list, f, history, "", Some(word));
    ParseOne(list, f, Top, history, word, rest);
  }

  /** A dash alone is a syntax error. */
  lemma LoneDashEnds(list: seq<Argument>, f: Callback, history: seq<Setting>, rest: seq<string>)
    ensures EndsWith(list, f, history, "-", rest, Syntax("expected argument short name after `-`"))
  {
    ParseOne(list, f, Top, history, "-", rest);
  }

  /** A short name outside ASCII panics, since the word is cut inside a character. */
  lemma WideShortPanics(list: seq<Argument>, f: Callback, history: seq<Setting>, c: char, tail: string,
                        rest: seq<string>)
    requires c >= 128 as char
    ensures Parse(list, f, Top, history, ["-" + [c] + tail] + rest) == (Panicked, history)
  {
    var word := "-" + [c] + tail;
    assert word[0] == '-' && word[1] == c;
    ParseOne(list, f, Top, history, word, rest);
  }

  /** So is a value without a name. */
  lemma NoNameEnds(list: seq<Argument>, f: Callback, history: seq<Setting>, value: string, rest: seq<string>)
    ensures EndsWith(list, f, history, "--=" + value, rest, Syntax("expected parameter name before `=`"))
  {
    var word := "--=" + value;
    assert word[1..][1..] == "=" + value;
    assert TrimDashes(word) == TrimDashes(word[1..]) == TrimDashes(word[1..][1..]) == "=" + value;
    ParseOne(list, f, Top, history, word, rest);
  }

  /** And an equals sign with nothing behind it, also for a name that an entry has. */
  lemma NoValueEnds(list: seq<Argument>, f: Callback, history: seq<Setting>, name: string, rest: seq<string>)
    requires Spellable(name)
    ensures EndsWith(list, f, history, "--" + name + "=", rest, Syntax("expected parameter value after `=`"))
  {
    TrimLong(name, "=");
    EqualsAt(name, "=");
    ParseOne(list, f, Top, history, "--" + name + "=", rest);
  }

  /** More than two dashes before a long option are two. */
  lemma MoreDashes(list: seq<Argument>, f: Callback, history: seq<Setting>, word: string)
    requires "--" <= word && word != "--"
    ensures StepTop(list, f, history, "-" + word) == StepTop(list, f, history, word)
  {
    assert ("-" + word)[1..] == word;
  }
}
