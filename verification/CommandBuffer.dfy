/**
 The virgl command buffer: commands are a header word, which holds the number of words that follow, and
 those words. The builder appends commands; `is_valid` walks from header to header.
 */
module CommandBuffer {
  import opened Bits
  import opened Common

  const CREATE_OBJECT: nat := 1
  const SET_FRAMEBUFFER_STATE: nat := 5
  const CLEAR: nat := 7
  const OBJECT_SURFACE: nat := 8
  const CLEAR_SIZE: nat := 8
  const SURFACE_SIZE: nat := 5

  /** Floating-point arguments are given by their bits. */
  datatype Command =
    | Clear(buffers: u32, color: seq<u32>, depth: u64, stencil: u32)
    | CreateSurface(id: u32, resource: u32, format: u32, level: u32, firstLayer: u32, lastLayer: u32)
    | SetFbState(handles: seq<u32>, zbuf: Option<u32>)
  {
    predicate Typed() {
      Clear? ==> |color| == 4
    }
  }

  /** `push_cmd` keeps 8 bits of the command and the object type and 16 bits of the length. */
  function Header(cmd: nat, obj: nat, len: nat): (w: u32) {
    cmd % 256 + 256 * (obj % 256) + 0x10000 * (len % 0x10000)
  }

  /** The width of a layer number. */
  function LayerBits(): (n: nat) { 16 }

  lemma LayerRange()
    ensures Pow2(LayerBits()) == 0x10000
  {
    assert Pow2(4) == 4 * Pow2(2);
    assert Pow2(8) == 16 * Pow2(4);
    assert Pow2(12) == 16 * Pow2(8);
    assert Pow2(16) == 16 * Pow2(12);
  }

  /** The bitwise or of the low bits of two numbers. */
  function Or(a: nat, b: nat, bits: nat): (r: nat)
    ensures r < Pow2(bits)
  {
    if bits == 0 then 0 else (if a % 2 == 1 || b % 2 == 1 then 1 else 0) + 2 * Or(a / 2, b / 2, bits - 1)
  }

  /** The or of `first` and of `last` shifted by 16: the low half is that of `first`, the high half mixes the two. */
  function Layers(first: u32, last: u32): (w: u32) {
    LayerRange();
    first % 0x10000 + 0x10000 * Or(first / 0x10000, last % 0x10000, LayerBits())
  }

  function Cmd(c: Command): (r: nat) {
    if c.Clear? then CLEAR else if c.CreateSurface? then CREATE_OBJECT else SET_FRAMEBUFFER_STATE
  }

  function Obj(c: Command): (r: nat) {
    if c.CreateSurface? then OBJECT_SURFACE else 0
  }

  /** The length in the header, as the builder computes it. */
  function Length(c: Command): (r: nat) {
    match c
    case Clear(_, _, _, _) => CLEAR_SIZE
    case CreateSurface(_, _, _, _, _, _) => SURFACE_SIZE
    case SetFbState(handles, _) => 2 + |handles| % 0x1_0000_0000
  }

  function Payload(c: Command): (r: seq<u32>) {
    match c
    case Clear(buffers, color, depth, stencil) =>
      [buffers] + (color + [depth % 0x1_0000_0000, depth / 0x1_0000_0000] + [stencil])
    case CreateSurface(id, resource, format, level, firstLayer, lastLayer) =>
      [id, resource, format, level, Layers(firstLayer, lastLayer)]
    case SetFbState(handles, zbuf) =>
      [|handles| % 0x1_0000_0000] + [if zbuf.Some? then zbuf.value else 0] + handles
  }

  function Words(c: Command): (r: seq<u32>) {
    [Header(Cmd(c), Obj(c), Length(c))] + Payload(c)
  }

  // ---------------------------------------------------------------------------
  // Walking a buffer
  // ---------------------------------------------------------------------------

  /** A header word and the words that follow it. */
  datatype Record = Record(header: u32, payload: seq<u32>)

  /** The number of words that follow a header. */
  function Follow(w: u32): (n: nat) {
    w / 0x10000
  }

  function Before(r: Record, rest: Option<seq<Record>>): (all: Option<seq<Record>>) {
    if rest.None? then None else Some([r] + rest.value)
  }

  /** The records of a buffer, or none if the last one is cut short. */
  function Walk(buf: seq<u32>): (r: Option<seq<Record>>)
    decreases |buf|
  {
    if buf == [] then Some([])
    else
      var n := 1 + Follow(buf[0]);
      if n > |buf| then None else Before(Record(buf[0], buf[1..n]), Walk(buf[n..]))
  }

  /** `is_valid`: whether the walk from header to header ends at the end. */
  method IsValid(buf: seq<u32>) returns (ok: bool)
    ensures ok == Walk(buf).Some?
  {
    var i := 0;
    while i < |buf|
      invariant i <= |buf| ==> (Walk(buf).Some? <==> Walk(buf[i..]).Some?)
      invariant i > |buf| ==> Walk(buf).None?
    {
      ghost var n := 1 + Follow(buf[i]);
      assert i + n <= |buf| ==> buf[i..][n..] == buf[i + n..];
      i := i + 1 + Follow(buf[i]);
    }
    ok := i == |buf|;
  }

  // ---------------------------------------------------------------------------
  // What a walk recovers
  // ---------------------------------------------------------------------------

  /** The length of the command fits the 16 bits it has in the header. */
  predicate Fits(c: Command) {
    c.SetFbState? ==> |c.handles| <= 0xfffd
  }

  function RecordOf(c: Command): (r: Record) {
    Record(Header(Cmd(c), Obj(c), Length(c)), Payload(c))
  }

  function AllWords(cs: seq<Command>): (r: seq<u32>) {
    if cs == [] then [] else Words(cs[0]) + AllWords(cs[1..])
  }

  /** One more command at the end, as the builder appends it. */
  lemma {:induction false} AllWordsAppend(cs: seq<Command>, c: Command)
    ensures AllWords(cs + [c]) == AllWords(cs) + Words(c)
  {
    if cs == [] {
      assert cs + [c] == [c];
    } else {
      assert (cs + [c])[1..] == cs[1..] + [c];
      AllWordsAppend(cs[1..], c);
    }
  }

  function AllRecords(cs: seq<Command>): (r: seq<Record>)
    ensures |r| == |cs|
  {
    if cs == [] then [] else [RecordOf(cs[0])] + AllRecords(cs[1..])
  }

  lemma FollowHeader(cmd: nat, obj: nat, len: nat)
    ensures Follow(Header(cmd, obj, len)) == len % 0x10000
  {
  }

  lemma PayloadSize(c: Command)
    requires c.Typed()
    ensures |Payload(c)| == if c.SetFbState? then 2 + |c.handles| else Length(c)
  {
  }

  lemma CutLength(n: nat)
    ensures (2 + n % 0x1_0000_0000) % 0x10000 == 2 + n <==> n <= 0xfffd
  {
  }

  /** What the header keeps of the length is `size`. */
  ghost predicate HeaderFits(c: Command, size: nat) {
    Length(c) % 0x10000 == size
  }

  lemma LengthFits(c: Command)
    ensures HeaderFits(c, if c.SetFbState? then 2 + |c.handles| else Length(c)) <==> Fits(c)
  {
    if c.SetFbState? {
      CutLength(|c.handles|);
    }
  }

  /** The length in the header is that of the payload exactly for the commands that fit. */
  lemma LengthIsExact(c: Command)
    requires c.Typed()
    ensures Follow(RecordOf(c).header) == |Payload(c)| <==> Fits(c)
  {
    FollowHeader(Cmd(c), Obj(c), Length(c));
    PayloadSize(c);
    LengthFits(c);
    assert Follow(RecordOf(c).header) == |Payload(c)| <==> HeaderFits(c, |Payload(c)|);
  }

  /** One step of a walk, when the header tells the length of what follows it. */
  lemma WalkHead(w: u32, payload: seq<u32>, rest: seq<u32>)
    requires Follow(w) == |payload|
    ensures Walk([w] + payload + rest) == Before(Record(w, payload), Walk(rest))
  {
  }

  /** A walk steps over a command that fits, and misreads one that does not. */
  lemma WalkStep(r: Record, rest: seq<u32>)
    ensures Follow(r.header) == |r.payload| ==> Walk([r.header] + r.payload + rest) == Before(r, Walk(rest))
    ensures Follow(r.header) != |r.payload| && Walk([r.header] + r.payload + rest).Some? ==>
              Walk([r.header] + r.payload + rest).value[..1] != [r]
  {
  }

  lemma BeforeIs(r: Record, rest: Option<seq<Record>>, rs: seq<Record>)
    ensures Before(r, rest) == Some([r] + rs) <==> rest == Some(rs)
  {
    if rest.Some? && [r] + rest.value == [r] + rs {
      assert ([r] + rest.value)[1..] == rest.value && ([r] + rs)[1..] == rs;
    }
  }

  predicate AllTyped(cs: seq<Command>) {
    forall i :: 0 <= i < |cs| ==> cs[i].Typed()
  }

  predicate AllFit(cs: seq<Command>) {
    forall i :: 0 <= i < |cs| ==> Fits(cs[i])
  }

  /** Walking the buffer recovers exactly the commands pushed if and only if every one of them fits its header. */
  lemma {:induction false} WalkRecovers(cs: seq<Command>)
    requires AllTyped(cs)
    ensures Walk(AllWords(cs)) == Some(AllRecords(cs)) <==> AllFit(cs)
  {
    if cs != [] {
      assert cs[0].Typed();
      LengthIsExact(cs[0]);
      WalkStep(RecordOf(cs[0]), AllWords(cs[1..]));
      WalkRecovers(cs[1..]);
      BeforeIs(RecordOf(cs[0]), Walk(AllWords(cs[1..])), AllRecords(cs[1..]));
      assert AllRecords(cs)[..1] == [RecordOf(cs[0])];
    }
  }

  function Joined(a: Option<seq<Record>>, b: Option<seq<Record>>): (r: Option<seq<Record>>) {
    if a.None? || b.None? then None else Some(a.value + b.value)
  }

  lemma BeforeJoined(r: Record, a: Option<seq<Record>>, b: Option<seq<Record>>)
    ensures Before(r, Joined(a, b)) == Joined(Before(r, a), b)
  {
    if a.Some? && b.Some? {
      assert [r] + (a.value + b.value) == ([r] + a.value) + b.value;
    }
  }

  /** Taking the first record off a buffer that another follows. */
  lemma SplitHead(a: seq<u32>, b: seq<u32>, n: nat)
    requires 1 <= n <= |a|
    ensures a + b == [a[0]] + a[1..n] + (a[n..] + b)
  {
  }

  lemma {:induction false} WalkAppend(a: seq<u32>, b: seq<u32>)
    requires Walk(a).Some?
    ensures Walk(a + b) == Joined(Walk(a), Walk(b))
    decreases |a|
  {
    if a == [] {
      assert a + b == b && (Walk(b).Some? ==> [] + Walk(b).value == Walk(b).value);
    } else {
      var n := 1 + Follow(a[0]);
      var payload, rest := a[1..n], a[n..];
      assert Walk(a) == Before(Record(a[0], payload), Walk(rest));
      WalkAppend(rest, b);
      SplitHead(a, b, n);
      WalkHead(a[0], payload, rest + b);
      BeforeJoined(Record(a[0], payload), Walk(rest), Walk(b));
    }
  }

  /** A command that fits, at the end of a valid buffer, leaves it valid. */
  lemma StaysValid(buf: seq<u32>, c: Command)
    requires Walk(buf).Some? && c.Typed() && Fits(c)
    ensures Walk(buf + Words(c)) == Some(Walk(buf).value + [RecordOf(c)])
  {
    LengthIsExact(c);
    WalkHead(RecordOf(c).header, Payload(c), []);
    assert Words(c) + [] == Words(c) && [RecordOf(c)] + [] == [RecordOf(c)];
    WalkAppend(buf, Words(c));
  }

  // ---------------------------------------------------------------------------
  // The builder
  // ---------------------------------------------------------------------------

  lemma Regroup<T>(base: seq<T>, a: seq<T>, b: seq<T>, c: seq<T>, d: seq<T>)
    ensures base + a + b + c + d == base + (a + (b + c + d))
  {
  }

  lemma RegroupFive<T>(base: seq<T>, a: T, b: T, c: T, d: T, e: T)
    ensures base + [a] + [b] + [c] + [d] + [e] == base + [a, b, c, d, e]
  {
  }

  /**
   The builder, which appends in place. `pushed` is for the record only: the commands so far. The result of
   each command is that of the final assertion, which holds as long as every command fits.
   */
  class Builder {
    var cbuf: seq<u32>
    ghost var pushed: seq<Command>

    ghost predicate Valid()
      reads this
    {
      AllTyped(pushed) && cbuf == AllWords(pushed)
    }

    constructor ()
      ensures Valid() && pushed == []
    {
      cbuf, pushed := [], [];
    }

    method Push(dw: u32)
      modifies this`cbuf
      ensures cbuf == old(cbuf) + [dw]
    {
      cbuf := cbuf + [dw];
    }

    method PushQw(qw: u64)
      modifies this`cbuf
      ensures cbuf == old(cbuf) + [qw % 0x1_0000_0000, qw / 0x1_0000_0000]
    {
      cbuf := cbuf + [qw % 0x1_0000_0000];
      cbuf := cbuf + [qw / 0x1_0000_0000];
    }

    method PushAll(dws: seq<u32>)
      modifies this`cbuf
      ensures cbuf == old(cbuf) + dws
    {
      var i := 0;
      while i < |dws|
        invariant 0 <= i <= |dws| && cbuf == old(cbuf) + dws[..i]
      {
        Push(dws[i]);
        i := i + 1;
      }
    }

    /** The end of every command: its words are in the buffer, which is checked. */
    method Finish(ghost c: Command) returns (ok: bool)
      requires AllTyped(pushed) && c.Typed() && cbuf == AllWords(pushed) + Words(c)
      modifies this`pushed
      ensures Valid() && pushed == old(pushed) + [c] && ok == Walk(cbuf).Some?
      ensures AllFit(pushed) ==> ok && Walk(cbuf) == Some(AllRecords(pushed))
    {
      AllWordsAppend(pushed, c);
      pushed := pushed + [c];
      WalkRecovers(pushed);
      ok := IsValid(cbuf);
    }

    method EClear(buffers: u32, color: seq<u32>, depth: u64, stencil: u32) returns (ok: bool)
      requires Valid() && |color| == 4
      modifies this
      ensures Valid() && pushed == old(pushed) + [Clear(buffers, color, depth, stencil)]
      ensures ok == Walk(cbuf).Some?
      ensures AllFit(pushed) ==> ok && Walk(cbuf) == Some(AllRecords(pushed))
    {
      ghost var c, h := Clear(buffers, color, depth, stencil), Header(CLEAR, 0, CLEAR_SIZE);
      ghost var qw := [depth % 0x1_0000_0000, depth / 0x1_0000_0000];
      Push(Header(CLEAR, 0, CLEAR_SIZE));
      Push(buffers);
      PushAll(color);
      PushQw(depth);
      Push(stencil);
      Regroup(old(cbuf) + [h], [buffers], color, qw, [stencil]);
      Assoc(old(cbuf), [h], Payload(c));
      ok := Finish(c);
    }

    method ECreateSurface(id: u32, resource: u32, format: u32, level: u32, firstLayer: u32, lastLayer: u32)
      returns (ok: bool)
      requires Valid()
      modifies this
      ensures Valid()
      ensures pushed == old(pushed) + [CreateSurface(id, resource, format, level, firstLayer, lastLayer)]
      ensures ok == Walk(cbuf).Some?
      ensures AllFit(pushed) ==> ok && Walk(cbuf) == Some(AllRecords(pushed))
    {
      ghost var c := CreateSurface(id, resource, format, level, firstLayer, lastLayer);
      ghost var h := Header(CREATE_OBJECT, OBJECT_SURFACE, SURFACE_SIZE);
      Push(Header(CREATE_OBJECT, OBJECT_SURFACE, SURFACE_SIZE));
      Push(id);
      Push(resource);
      Push(format);
      Push(level);
      Push(Layers(firstLayer, lastLayer));
      RegroupFive(old(cbuf) + [h], id, resource, format, level, Layers(firstLayer, lastLayer));
      Assoc(old(cbuf), [h], Payload(c));
      ok := Finish(c);
    }

    method ESetFbState(handles: seq<u32>, zbuf: Option<u32>) returns (ok: bool)
      requires Valid()
      modifies this
      ensures Valid() && pushed == old(pushed) + [SetFbState(handles, zbuf)]
      ensures ok == Walk(cbuf).Some?
      ensures AllFit(pushed) ==> ok && Walk(cbuf) == Some(AllRecords(pushed))
    {
      ghost var h := Header(SET_FRAMEBUFFER_STATE, 0, 2 + |handles| % 0x1_0000_0000);
      Push(Header(SET_FRAMEBUFFER_STATE, 0, 2 + |handles| % 0x1_0000_0000));
      Push(|handles| % 0x1_0000_0000);
      Push(if zbuf.Some? then zbuf.value else 0);
      PushAll(handles);
      Regroup(old(cbuf), [h], [|handles| % 0x1_0000_0000], [if zbuf.Some? then zbuf.value else 0], handles);
      ok := Finish(SetFbState(handles, zbuf));
    }
  }

  // ---------------------------------------------------------------------------
  // From records back to commands
  // ---------------------------------------------------------------------------

  function DecodeClear(p: seq<u32>): (c: Option<Command>)
    requires |p| == 8
  {
    Some(Clear(p[0], p[1..5], p[5] as int + 0x1_0000_0000 * p[6] as int, p[7]))
  }

  function DecodeSurface(p: seq<u32>): (c: Option<Command>)
    requires |p| == 5
  {
    Some(CreateSurface(p[0], p[1], p[2], p[3], p[4] % 0x10000, p[4] / 0x10000))
  }

  function DecodeFbState(p: seq<u32>): (c: Option<Command>)
    requires |p| >= 2
  {
    if p[0] != |p| - 2 then None else Some(SetFbState(p[2..], if p[1] == 0 then None else Some(p[1])))
  }

  /** How a reader of the protocol takes a record. A missing depth buffer is written as 0. */
  function Decode(r: Record): (c: Option<Command>) {
    var p, cmd, obj := r.payload, r.header % 256, r.header / 256 % 256;
    if cmd == CLEAR && obj == 0 && |p| == CLEAR_SIZE then DecodeClear(p)
    else if cmd == CREATE_OBJECT && obj == OBJECT_SURFACE && |p| == SURFACE_SIZE then DecodeSurface(p)
    else if cmd == SET_FRAMEBUFFER_STATE && obj == 0 && |p| >= 2 then DecodeFbState(p)
    else None
  }

  /** Commands whose arguments the payload has room for. */
  predicate Exact(c: Command) {
    && (c.CreateSurface? ==> c.firstLayer < 0x10000 && c.lastLayer < 0x10000)
    && (c.SetFbState? ==> |c.handles| < 0x1_0000_0000 && c.zbuf != Some(0))
  }

  lemma {:induction false} OrWithZero(b: nat, bits: nat)
    requires b < Pow2(bits)
    ensures Or(0, b, bits) == b
  {
    if bits > 0 {
      OrWithZero(b / 2, bits - 1);
    }
  }

  lemma Halves(low: nat, high: nat)
    requires low < 0x10000
    ensures (low + 0x10000 * high) % 0x10000 == low && (low + 0x10000 * high) / 0x10000 == high
  {
  }

  lemma HighLayer(first: u32, last: u32)
    requires first < 0x10000
    ensures Or(first / 0x10000, last % 0x10000, LayerBits()) == last % 0x10000
  {
    LayerRange();
    assert first / 0x10000 == 0;
    OrWithZero(last % 0x10000, LayerBits());
  }

  lemma LayersParts(first: u32, last: u32)
    ensures Layers(first, last) % 0x10000 == first % 0x10000
    ensures Layers(first, last) / 0x10000 == Or(first / 0x10000, last % 0x10000, LayerBits()) < 0x10000
  {
    LayerRange();
    Halves(first % 0x10000, Or(first / 0x10000, last % 0x10000, LayerBits()));
  }

  lemma LayersDecode(first: u32, last: u32)
    ensures Layers(first, last) % 0x10000 == first && Layers(first, last) / 0x10000 == last
            <==> first < 0x10000 && last < 0x10000
  {
    LayersParts(first, last);
    if first < 0x10000 {
      HighLayer(first, last);
    }
  }

  /** The words of a clear command, as the protocol lays them out. */
  lemma ClearLayout(c: Command)
    requires c.Typed() && c.Clear?
    ensures Words(c) == [0x8_0007, c.buffers, c.color[0], c.color[1], c.color[2], c.color[3],
                         c.depth % 0x1_0000_0000, c.depth / 0x1_0000_0000, c.stencil]
  {
    assert c.color == [c.color[0], c.color[1], c.color[2], c.color[3]];
  }

  /** The layers share a word, which holds both when the first fits its half. */
  lemma LayerWord(first: u32, last: u32)
    requires first < 0x10000
    ensures Layers(first, last) == first + 0x10000 * (last % 0x10000)
  {
    HighLayer(first, last);
  }

  /** The words of a surface. */
  lemma SurfaceLayout(c: Command)
    requires c.CreateSurface?
    ensures Words(c) == [0x5_0801, c.id, c.resource, c.format, c.level, Layers(c.firstLayer, c.lastLayer)]
  {
  }

  /** The words of a framebuffer state: how many handles, the depth buffer or zero, and the handles. */
  lemma FbStateLayout(c: Command)
    requires c.SetFbState? && |c.handles| <= 0xfffd
    ensures Words(c) ==
            [5 + 0x10000 * (2 + |c.handles|), |c.handles|, if c.zbuf.Some? then c.zbuf.value else 0] + c.handles
  {
  }

  lemma HeaderParts(cmd: nat, obj: nat, len: nat)
    requires cmd < 256 && obj < 256
    ensures Header(cmd, obj, len) % 256 == cmd && Header(cmd, obj, len) / 256 % 256 == obj
  {
    var rest := obj + 256 * (len % 0x10000);
    assert Header(cmd, obj, len) == cmd + 256 * rest;
    assert Header(cmd, obj, len) / 256 == rest;
  }

  lemma DecodesBack(c: Command)
    requires c.Typed()
    ensures Decode(RecordOf(c)) == Some(c) <==> Exact(c)
  {
    var p := Payload(c);
    HeaderParts(Cmd(c), Obj(c), Length(c));
    match c
    case Clear(buffers, color, depth, stencil) =>
      assert p[1..5] == color;
      assert DecodeClear(p) == Some(c);
    case CreateSurface(_, _, _, _, firstLayer, lastLayer) =>
      LayersDecode(firstLayer, lastLayer);
      assert DecodeSurface(p) == Some(c) <==> Exact(c);
    case SetFbState(handles, zbuf) =>
      assert p[2..] == handles;
      assert DecodeFbState(p) == Some(c) <==> Exact(c);
  }

  // ---------------------------------------------------------------------------
  // A command too long for its header
  // ---------------------------------------------------------------------------

  lemma {:induction false} SmallWordsWalk(buf: seq<u32>)
    requires forall i :: 0 <= i < |buf| ==> buf[i] < 0x10000
    ensures Walk(buf).Some? && |Walk(buf).value| == |buf|
  {
    if buf != [] {
      SmallWordsWalk(buf[1..]);
    }
  }

  /** With 0xfffe small handles the assertion holds, and the walk finds one command for each word pushed. */
  lemma OverlongStaysValid(handles: seq<u32>)
    requires |handles| == 0xfffe && forall i :: 0 <= i < |handles| ==> handles[i] < 0x10000
    ensures var buf := Words(SetFbState(handles, None)); Walk(buf).Some? && |Walk(buf).value| == |handles| + 3
  {
    SmallWordsWalk(Words(SetFbState(handles, None)));
  }
}
