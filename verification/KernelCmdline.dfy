/**
 The kernel command line: a string built up from key/value pairs and free text, checked as it is built.
 Only printable ASCII is ever added, so a character is a byte.
 */
module KernelCmdline {
  import opened Common

  datatype Error = InvalidAscii | HasSpace | HasEquals | TooLarge

  datatype Op = Pair(key: string, value: string) | Slug(text: string)

  predicate ValidChar(c: char) {
    ' ' <= c <= '~'
  }

  predicate Printable(s: string) {
    forall i :: 0 <= i < |s| ==> ValidChar(s[i])
  }

  function ValidElement(s: string): (r: Option<Error>)
    ensures r.None? <==> Printable(s) && ' ' !in s && '=' !in s
  {
    if !Printable(s) then Some(InvalidAscii)
    else if ' ' in s then Some(HasSpace)
    else if '=' in s then Some(HasEquals)
    else None
  }

  predicate HasCapacity(line: string, capacity: nat, more: nat) {
    |line| + more + (if line == "" then 0 else 1) < capacity
  }

  /** The line with something at its end, after a space unless it is the first. */
  function Extended(line: string, s: string): (r: string) {
    (if line == "" then "" else line + " ") + s
  }

  function Written(op: Op): (r: string) {
    if op.Pair? then op.key + "=" + op.value else op.text
  }

  /** The error of an insertion, if it has one. */
  function Refusal(line: string, capacity: nat, op: Op): (r: Option<Error>) {
    var invalid :=
      if op.Slug? then (if Printable(op.text) then None else Some(InvalidAscii))
      else if ValidElement(op.key).Some? then ValidElement(op.key)
      else ValidElement(op.value);
    if invalid.Some? then invalid
    else if !HasCapacity(line, capacity, |Written(op)|) then Some(TooLarge)
    else None
  }

  function Inserted(line: string, capacity: nat, op: Op): (r: string) {
    if Refusal(line, capacity, op).Some? then line else Extended(line, Written(op))
  }

  /** Free text that may stand on the line. */
  predicate Text(s: string) {
    forall i :: 0 <= i < |s| ==> 0x20 as char <= s[i] <= 0x7e as char
  }

  /**
   An insertion is accepted exactly when its text is printable, without spaces and equals signs in a key or value,
   and the line with it and the space before it is shorter than the capacity; then it stands at the end.
   */
  lemma AcceptedExactlyWhen(line: string, capacity: nat, op: Op)
    ensures Refusal(line, capacity, op).None? <==>
            && (op.Pair? ==> Text(op.key) && Text(op.value) && ' ' !in op.key + op.value && '=' !in op.key + op.value)
            && (op.Slug? ==> Text(op.text))
            && (var size := if op.Pair? then |op.key| + 1 + |op.value| else |op.text|;
                (if line == "" then size else |line| + 1 + size) < capacity)
    ensures Refusal(line, capacity, op).None? ==>
              Inserted(line, capacity, op) ==
              (if line == "" then "" else line + " ") + if op.Pair? then op.key + "=" + op.value else op.text
    ensures Refusal(line, capacity, op).Some? ==> Inserted(line, capacity, op) == line
  {
  }

  /**
   Which error a refused insertion has: a character that is not printable comes first, then a space, then an equals
   sign, the key before the value, and the size last.
   */
  lemma RefusedWith(line: string, capacity: nat, op: Op)
    requires Refusal(line, capacity, op).Some?
    ensures var e := Refusal(line, capacity, op).value;
            if op.Slug? then e == if Text(op.text) then TooLarge else InvalidAscii
            else if !Text(op.key) then e == InvalidAscii
            else if ' ' in op.key then e == HasSpace
            else if '=' in op.key then e == HasEquals
            else if !Text(op.value) then e == InvalidAscii
            else if ' ' in op.value then e == HasSpace
            else if '=' in op.value then e == HasEquals
            else e == TooLarge
  {
  }

  /** The command line, updated in place. */
  class Cmdline {
    var line: string
    const capacity: nat

    constructor (capacity: nat)
      requires capacity != 0
      ensures line == "" && this.capacity == capacity
    {
      line, this.capacity := "", capacity;
    }

    method Insert(key: string, value: string) returns (err: Option<Error>)
      modifies this
      ensures err == Refusal(old(line), capacity, Pair(key, value))
      ensures line == Inserted(old(line), capacity, Pair(key, value))
      ensures err.None? ==> |line| < capacity
    {
      err := ValidElement(key);
      if err.Some? {
        return;
      }
      err := ValidElement(value);
      if err.Some? {
        return;
      }
      if !HasCapacity(line, capacity, |key| + |value| + 1) {
        return Some(TooLarge);
      }
      if line != "" {
        line := line + " ";
      }
      ghost var start := line;
      line := line + key;
      line := line + "=";
      line := line + value;
      assert line == start + (key + "=" + value);
    }

    method InsertStr(slug: string) returns (err: Option<Error>)
      modifies this
      ensures err == Refusal(old(line), capacity, Slug(slug))
      ensures line == Inserted(old(line), capacity, Slug(slug))
      ensures err.None? ==> |line| < capacity
    {
      if !Printable(slug) {
        return Some(InvalidAscii);
      }
      if !HasCapacity(line, capacity, |slug|) {
        return Some(TooLarge);
      }
      if line != "" {
        line := line + " ";
      }
      line := line + slug;
      return None;
    }
  }

  // ---------------------------------------------------------------------------
  // Every run of insertions
  // ---------------------------------------------------------------------------

  function Run(capacity: nat, ops: seq<Op>): (line: string) {
    if ops == [] then "" else Inserted(Run(capacity, ops[..|ops| - 1]), capacity, ops[|ops| - 1])
  }

  /** The insertions that were not refused. */
  function Accepted(capacity: nat, ops: seq<Op>): (r: seq<Op>) {
    if ops == [] then []
    else
      var init, last := ops[..|ops| - 1], ops[|ops| - 1];
      Accepted(capacity, init) + if Refusal(Run(capacity, init), capacity, last).None? then [last] else []
  }

  lemma {:induction false} LineIsPrintable(capacity: nat, ops: seq<Op>)
    requires capacity > 0
    ensures Printable(Run(capacity, ops)) && |Run(capacity, ops)| < capacity
  {
    if ops != [] {
      LineIsPrintable(capacity, ops[..|ops| - 1]);
    }
  }

  // ---------------------------------------------------------------------------
  // Reading the pairs back
  // ---------------------------------------------------------------------------

  /** The text up to the first `c`, and what follows it if there is one. */
  function Cut(s: string, c: char): (r: (string, Option<string>))
    ensures r.1.Some? ==> s == r.0 + [c] + r.1.value && |r.1.value| < |s|
    ensures r.1.None? ==> s == r.0
  {
    if s == "" then ("", None)
    else if s[0] == c then ("", Some(s[1..]))
    else
      var (head, tail) := Cut(s[1..], c);
      ([s[0]] + head, tail)
  }

  /** The words between spaces. */
  function Words(s: string): (r: seq<string>)
    decreases |s|
  {
    var (head, tail) := Cut(s, ' ');
    if tail.None? then [head] else [head] + Words(tail.value)
  }

  function PairOf(word: string): (r: Op) {
    var (key, value) := Cut(word, '=');
    if value.None? then Slug(word) else Pair(key, value.value)
  }

  function PairsOf(words: seq<string>): (r: seq<Op>)
    ensures |r| == |words|
  {
    if words == [] then [] else [PairOf(words[0])] + PairsOf(words[1..])
  }

  /** How a reader takes the line apart: at spaces, and each word at its first equals sign. */
  function Parsed(line: string): (r: seq<Op>) {
    if line == "" then [] else PairsOf(Words(line))
  }

  lemma {:induction false} CutAt(a: string, c: char, b: string)
    requires c !in a
    ensures Cut(a + [c] + b, c) == (a, Some(b)) && Cut(a, c) == (a, None)
  {
    if a == "" {
      assert (a + [c] + b)[1..] == b;
    } else {
      assert (a + [c] + b)[1..] == a[1..] + [c] + b;
      CutAt(a[1..], c, b);
      assert [a[0]] + a[1..] == a;
    }
  }

  lemma {:induction false} CutHead(s: string, c: char)
    ensures c !in Cut(s, c).0
  {
    if s != "" && s[0] != c {
      CutHead(s[1..], c);
    }
  }

  /** The words of a line and of what is added behind a space. */
  lemma {:induction false} WordsAppend(s: string, t: string)
    ensures Words(s + " " + t) == Words(s) + Words(t)
    decreases |s|
  {
    var (head, tail) := Cut(s, ' ');
    CutHead(s, ' ');
    if tail.None? {
      CutAt(s, ' ', t);
    } else {
      var rest := tail.value;
      assert s + " " + t == head + [' '] + (rest + " " + t);
      CutAt(head, ' ', rest + " " + t);
      WordsAppend(rest, t);
      assert [head] + (Words(rest) + Words(t)) == ([head] + Words(rest)) + Words(t);
    }
  }

  lemma {:induction false} PairsOfAppend(a: seq<string>, b: seq<string>)
    ensures PairsOf(a + b) == PairsOf(a) + PairsOf(b)
  {
    if a == [] {
      assert a + b == b;
    } else {
      assert (a + b)[1..] == a[1..] + b;
      PairsOfAppend(a[1..], b);
    }
  }

  /** What the accepted insertions say: a pair itself, text its own words, empty text on an empty line nothing. */
  function Said(capacity: nat, ops: seq<Op>): (r: seq<Op>) {
    if ops == [] then []
    else
      var init, last := ops[..|ops| - 1], ops[|ops| - 1];
      var line := Run(capacity, init);
      if Refusal(line, capacity, last).Some? || (line == "" && Written(last) == "") then Said(capacity, init)
      else Said(capacity, init) + if last.Pair? then [last] else PairsOf(Words(last.text))
  }

  lemma PairIsOneWord(op: Op)
    requires op.Pair? && ValidElement(op.key).None? && ValidElement(op.value).None?
    ensures PairsOf(Words(Written(op))) == [op]
  {
    var word := Written(op);
    CutAt(op.key, '=', op.value);
    CutAt(word, ' ', "");
    assert PairOf(word) == op;
  }

  /** After every run of insertions, reading the line gives what the accepted ones say, in order. */
  lemma {:induction false} LineReadsBack(capacity: nat, ops: seq<Op>)
    ensures Parsed(Run(capacity, ops)) == Said(capacity, ops)
  {
    if ops != [] {
      var init, op := ops[..|ops| - 1], ops[|ops| - 1];
      LineReadsBack(capacity, init);
      var line, word := Run(capacity, init), Written(op);
      if Refusal(line, capacity, op).None? {
        if op.Pair? {
          PairIsOneWord(op);
        }
        if line == "" {
          assert Run(capacity, ops) == word && [] + PairsOf(Words(word)) == PairsOf(Words(word));
        } else {
          WordsAppend(line, word);
          PairsOfAppend(Words(line), Words(word));
        }
      }
    }
  }

  lemma {:induction false} PairsAreSaid(capacity: nat, ops: seq<Op>)
    requires forall i :: 0 <= i < |ops| ==> ops[i].Pair?
    ensures Said(capacity, ops) == Accepted(capacity, ops)
  {
    if ops != [] {
      PairsAreSaid(capacity, ops[..|ops| - 1]);
      assert Accepted(capacity, ops[..|ops| - 1]) + [] == Accepted(capacity, ops[..|ops| - 1]);
    }
  }

  /** For pairs alone that is exactly the accepted pairs. */
  lemma {:induction false} PairsReadBack(capacity: nat, ops: seq<Op>)
    requires forall i :: 0 <= i < |ops| ==> ops[i].Pair?
    ensures Parsed(Run(capacity, ops)) == Accepted(capacity, ops)
  {
    LineReadsBack(capacity, ops);
    PairsAreSaid(capacity, ops);
  }
}
