/**
 The bus: a map from address ranges to devices ordered by base address, how a device is inserted, and how
 an address is routed.
 */
module Bus {
  import opened Common

  datatype Range = Range(base: u64, len: u64, fullAddr: bool)
  {
    /** One past the last address, as a number and not as 64 bits. */
    function End(): (r: nat) {
      base + len
    }

    predicate Holds(addr: int) {
      base <= addr < End()
    }

    predicate Meets(other: Range) {
      base < other.End() && other.base < End()
    }

    /** What a device in this range is told of an address. */
    function Told(addr: u64): (r: u64)
      requires Holds(addr)
    {
      if fullAddr then addr else addr - base
    }
  }

  datatype Entry<+D> = Entry(range: Range, dev: D)

  /** 64-bit addition. */
  function Sum(x: u64, y: u64): (r: u64)
    ensures r == x + y || (x + y >= U64_END && r == x + y - U64_END)
  {
    if x + y >= U64_END then x + y - U64_END else x + y
  }

  /** `BusRange::overlaps`, which adds in 64 bits. */
  predicate Overlaps(r: Range, base: u64, len: u64) {
    r.base < Sum(base, len) && base < Sum(r.base, r.len)
  }

  /** The entry with the greatest base that is no greater than `addr`. */
  function FirstBefore<D>(es: seq<Entry<D>>, addr: u64): (r: Option<Entry<D>>) {
    if es == [] then None
    else if es[|es| - 1].range.base <= addr then Some(es[|es| - 1])
    else FirstBefore(es[..|es| - 1], addr)
  }

  /** The device for an address and what it is told of it. */
  function GetDevice<D>(es: seq<Entry<D>>, addr: u64): (r: Option<(u64, D)>) {
    var first := FirstBefore(es, addr);
    if first.Some? && first.value.range.base <= addr then
      var offset := addr - first.value.range.base;
      if offset < first.value.range.len then
        Some((if first.value.range.fullAddr then addr else offset, first.value.dev))
      else None
    else None
  }

  /** Where an entry with this base belongs: behind the entries with smaller bases. */
  function Place<D>(es: seq<Entry<D>>, base: u64): (i: nat)
    ensures i <= |es|
    ensures forall j :: 0 <= j < i ==> es[j].range.base < base
    ensures i < |es| ==> base <= es[i].range.base
  {
    if es == [] || base <= es[0].range.base then 0 else 1 + Place(es[1..], base)
  }

  /** The map has an entry with this base. */
  predicate Taken<D>(es: seq<Entry<D>>, base: u64) {
    Place(es, base) < |es| && es[Place(es, base)].range.base == base
  }

  /** Inserting into the ordered map: a key that is there keeps its range and gets the new device. */
  function Put<D>(es: seq<Entry<D>>, e: Entry<D>): (r: seq<Entry<D>>) {
    var i := Place(es, e.range.base);
    if Taken(es, e.range.base) then es[i := es[i].(dev := e.dev)] else es[..i] + [e] + es[i..]
  }

  predicate AnyOverlaps<D>(es: seq<Entry<D>>, base: u64, len: u64) {
    exists i :: 0 <= i < |es| && Overlaps(es[i].range, base, len)
  }

  /** The new map and whether the insertion succeeds. */
  function Inserted<D>(es: seq<Entry<D>>, e: Entry<D>): (r: (seq<Entry<D>>, bool)) {
    if e.range.len == 0 || AnyOverlaps(es, e.range.base, e.range.len) then (es, false)
    else (Put(es, e), !Taken(es, e.range.base))
  }

  // ---------------------------------------------------------------------------
  // Lookup in an ordered map
  // ---------------------------------------------------------------------------

  ghost predicate Sorted<D>(es: seq<Entry<D>>) {
    forall i, j :: 0 <= i < j < |es| ==> es[i].range.base < es[j].range.base
  }

  ghost predicate Disjoint<D>(es: seq<Entry<D>>) {
    forall i, j :: 0 <= i < j < |es| ==> !es[i].range.Meets(es[j].range)
  }

  ghost predicate NonEmpty<D>(es: seq<Entry<D>>) {
    forall i :: 0 <= i < |es| ==> es[i].range.len > 0
  }

  lemma {:induction false} FirstBeforeIsNearest<D>(es: seq<Entry<D>>, addr: u64, k: nat)
    requires Sorted(es) && k < |es| && es[k].range.base <= addr
    requires k + 1 < |es| ==> addr < es[k + 1].range.base
    ensures FirstBefore(es, addr) == Some(es[k])
    decreases |es|
  {
    if k + 1 < |es| {
      FirstBeforeIsNearest(es[..|es| - 1], addr, k);
    }
  }

  lemma {:induction false} FirstBeforeIsInMap<D>(es: seq<Entry<D>>, addr: u64)
    ensures var r := FirstBefore(es, addr); r.Some? ==> r.value in es && r.value.range.base <= addr
    decreases |es|
  {
    if es != [] && es[|es| - 1].range.base > addr {
      FirstBeforeIsInMap(es[..|es| - 1], addr);
    }
  }

  /** An address in a range goes to that range's device. */
  lemma {:induction false} RoutedToOwner<D>(es: seq<Entry<D>>, addr: u64, k: nat)
    requires Sorted(es) && Disjoint(es) && k < |es| && es[k].range.Holds(addr)
    ensures es[k].range.base <= addr < es[k].range.base + es[k].range.len
    ensures GetDevice(es, addr) == Some((if es[k].range.fullAddr then addr else addr - es[k].range.base, es[k].dev))
  {
    if k + 1 < |es| {
      assert !es[k].range.Meets(es[k + 1].range);
    }
    FirstBeforeIsNearest(es, addr, k);
  }

  /** An address in no range goes nowhere. */
  lemma {:induction false} RoutedNowhere<D>(es: seq<Entry<D>>, addr: u64)
    requires forall i :: 0 <= i < |es| ==> !es[i].range.Holds(addr)
    ensures GetDevice(es, addr) == None
  {
    FirstBeforeIsInMap(es, addr);
  }

  /** Ranges meet exactly when some address is in both. */
  lemma MeetsIsSharing(x: Range, r: Range)
    requires x.len > 0 && r.len > 0
    ensures x.Meets(r) <==> exists a :: x.base <= a < x.base + x.len && r.Holds(a)
    ensures forall a :: r.Holds(a) <==> r.base <= a < r.base + r.len
  {
    if x.Meets(r) {
      assert r.Holds(if x.base <= r.base then r.base else x.base);
    }
  }

  // ---------------------------------------------------------------------------
  // Which insertions are judged correctly
  // ---------------------------------------------------------------------------

  ghost predicate Inv<D>(es: seq<Entry<D>>) {
    Sorted(es) && Disjoint(es) && NonEmpty(es)
  }

  ghost predicate Free<D>(es: seq<Entry<D>>, r: Range) {
    forall i :: 0 <= i < |es| ==> !es[i].range.Meets(r)
  }

  /** The end of a range as 64 bits: a range that reaches the last address seems to end far below it. */
  function SeemingEnd(r: Range): (end: nat) {
    if r.End() < U64_END then r.End() else r.End() - U64_END
  }

  /** Each of two ranges begins below the seeming end of the other. */
  predicate Seen(x: Range, r: Range) {
    x.base < SeemingEnd(r) && r.base < SeemingEnd(x)
  }

  ghost predicate AnySeen<D>(es: seq<Entry<D>>, r: Range) {
    exists i :: 0 <= i < |es| && Seen(es[i].range, r)
  }

  /** The same device is there already, at the same base. */
  ghost predicate AlreadyThere<D>(es: seq<Entry<D>>, e: Entry<D>) {
    exists i :: 0 <= i < |es| && es[i].range.base == e.range.base && es[i].dev == e.dev
  }

  /** What the insertion decides is right: the range is empty or free, or is seen to meet another. */
  ghost predicate Judged<D>(es: seq<Entry<D>>, e: Entry<D>) {
    e.range.len == 0 || Free(es, e.range) || AnySeen(es, e.range) || AlreadyThere(es, e)
  }

  /** The range is accepted only if it meets nothing, and nothing changes if it is not. */
  ghost predicate Sound<D>(es: seq<Entry<D>>, e: Entry<D>) {
    var (es', ok) := Inserted(es, e);
    (ok ==> Free(es, e.range)) && (!ok ==> es' == es)
  }

  /** Ranges that are seen to meet do meet, so no insertion is refused without reason. */
  lemma SeenMeets(x: Range, r: Range)
    ensures Seen(x, r) ==> x.Meets(r)
    ensures x.End() < U64_END && r.End() < U64_END ==> (Seen(x, r) <==> x.Meets(r))
  {
  }

  /** The 64-bit test of `insert` finds exactly the ranges that are seen. */
  lemma OverlapsIsSeen<D>(es: seq<Entry<D>>, r: Range)
    ensures AnyOverlaps(es, r.base, r.len) <==> AnySeen(es, r)
  {
    if AnyOverlaps(es, r.base, r.len) {
      var i :| 0 <= i < |es| && Overlaps(es[i].range, r.base, r.len);
      assert Seen(es[i].range, r);
    }
    if AnySeen(es, r) {
      var i :| 0 <= i < |es| && Seen(es[i].range, r);
      assert Overlaps(es[i].range, r.base, r.len);
    }
  }

  /** Free ranges are not seen, and begin where no other does. */
  lemma FreeIsNew<D>(es: seq<Entry<D>>, r: Range)
    requires NonEmpty(es) && r.len > 0 && Free(es, r)
    ensures !AnySeen(es, r) && !Taken(es, r.base)
  {
    if AnySeen(es, r) {
      var i :| 0 <= i < |es| && Seen(es[i].range, r);
      SeenMeets(es[i].range, r);
    }
    assert Place(es, r.base) < |es| ==> !es[Place(es, r.base)].range.Meets(r);
  }

  lemma {:induction false} PlaceIsFirst<D>(es: seq<Entry<D>>, base: u64, i: nat)
    requires i <= |es| && (i < |es| ==> base <= es[i].range.base)
    requires forall j :: 0 <= j < i ==> es[j].range.base < base
    ensures Place(es, base) == i
  {
    var k := Place(es, base);
    assert i < |es| ==> !(es[i].range.base < base);
    assert k < |es| ==> !(es[k].range.base < base);
  }

  /**
   Inserting is sound if and only if it is judged: the exceptions are the ranges that meet others but none
   that is seen, because one of the two reaches the last address.
   */
  lemma {:induction false} SoundExactlyWhen<D>(es: seq<Entry<D>>, e: Entry<D>)
    requires Inv(es)
    ensures Sound(es, e) <==> Judged(es, e)
  {
    OverlapsIsSeen(es, e.range);
    if e.range.len > 0 && Free(es, e.range) {
      FreeIsNew(es, e.range);
    } else if e.range.len > 0 && !AnySeen(es, e.range) {
      var i := Place(es, e.range.base);
      if Taken(es, e.range.base) {
        assert Put(es, e)[i].dev == e.dev;
      }
      if AlreadyThere(es, e) {
        var k :| 0 <= k < |es| && es[k].range.base == e.range.base && es[k].dev == e.dev;
        PlaceIsFirst(es, e.range.base, k);
        assert Put(es, e) == es;
      }
    }
  }

  /** Among ranges that end before the last address every insertion is judged correctly. */
  lemma ShortIsJudged<D>(es: seq<Entry<D>>, e: Entry<D>)
    requires e.range.End() < U64_END && forall i :: 0 <= i < |es| ==> es[i].range.End() < U64_END
    ensures Judged(es, e)
  {
    if !Free(es, e.range) {
      var i :| 0 <= i < |es| && es[i].range.Meets(e.range);
      assert Seen(es[i].range, e.range);
    }
  }

  // ---------------------------------------------------------------------------
  // Insertion
  // ---------------------------------------------------------------------------

  ghost predicate Same<D>(es: seq<Entry<D>>, fs: seq<Entry<D>>) {
    (forall i :: 0 <= i < |es| ==> es[i] in fs) && (forall i :: 0 <= i < |fs| ==> fs[i] in es)
  }

  lemma PutSame<D>(es: seq<Entry<D>>, fs: seq<Entry<D>>, e: Entry<D>)
    requires Same(es, fs) && !Taken(es, e.range.base)
    ensures Same(Put(es, e), fs + [e])
  {
    var i, es', fs' := Place(es, e.range.base), Put(es, e), fs + [e];
    forall j | 0 <= j < |es'|
      ensures es'[j] in fs'
    {
      assert es'[j] == if j < i then es[j] else if j == i then e else es[j - 1];
    }
    forall j | 0 <= j < |fs'|
      ensures fs'[j] in es'
    {
      if j < |fs| {
        var k :| 0 <= k < |es| && es[k] == fs[j];
        assert es'[if k < i then k else k + 1] == es[k];
      } else {
        assert es'[i] == e;
      }
    }
  }

  /** Two entries of the new map come from the old one in the same order, or one of them is the new entry. */
  lemma PutOrders<D>(es: seq<Entry<D>>, e: Entry<D>, j: nat, k: nat)
    requires !Taken(es, e.range.base) && j < k < |Put(es, e)|
    ensures Sorted(es) ==> Put(es, e)[j].range.base < Put(es, e)[k].range.base
    ensures Disjoint(es) && Free(es, e.range) ==> !Put(es, e)[j].range.Meets(Put(es, e)[k].range)
  {
    var i, es' := Place(es, e.range.base), Put(es, e);
    if j == i {
      assert es'[j] == e && es'[k] == es[k - 1];
      assert i < |es| && e.range.base < es[i].range.base;
    } else if k == i {
      assert es'[k] == e && es'[j] == es[j];
    } else {
      var j', k' := if j < i then j else j - 1, if k < i then k else k - 1;
      assert es'[j] == es[j'] && es'[k] == es[k'];
    }
  }

  /** Whatever is inserted, the map stays ordered and has the new device at its base. */
  lemma PutKeepsSorted<D>(es: seq<Entry<D>>, e: Entry<D>)
    requires Sorted(es)
    ensures var es', i := Put(es, e), Place(es, e.range.base);
            Sorted(es') && i < |es'| && es'[i].range.base == e.range.base && es'[i].dev == e.dev
  {
    if !Taken(es, e.range.base) {
      forall j, k | 0 <= j < k < |Put(es, e)|
        ensures Put(es, e)[j].range.base < Put(es, e)[k].range.base
      {
        PutOrders(es, e, j, k);
      }
    }
  }

  lemma PutKeepsInv<D>(es: seq<Entry<D>>, e: Entry<D>)
    requires Inv(es) && e.range.len > 0 && Free(es, e.range)
    ensures Inv(Put(es, e))
  {
    FreeIsNew(es, e.range);
    PutKeepsSorted(es, e);
    forall j, k | 0 <= j < k < |Put(es, e)|
      ensures !Put(es, e)[j].range.Meets(Put(es, e)[k].range)
    {
      PutOrders(es, e, j, k);
    }
  }

  /**
   An insertion that is judged succeeds exactly on a non-empty range that meets no other; a failure changes
   nothing.
   */
  lemma InsertedWhenFree<D>(es: seq<Entry<D>>, e: Entry<D>)
    requires Inv(es) && Judged(es, e)
    ensures var (es', ok) := Inserted(es, e);
            && (ok <==> e.range.len > 0 && Free(es, e.range))
            && (!ok ==> es' == es)
            && (ok ==> Same(es', es + [e]))
            && Inv(es')
  {
    SoundExactlyWhen(es, e);
    OverlapsIsSeen(es, e.range);
    if e.range.len > 0 && Free(es, e.range) {
      FreeIsNew(es, e.range);
      PutKeepsInv(es, e);
      PutSame(es, es, e);
    }
  }

  /** The map, updated in place. */
  class DeviceMap<D> {
    var devices: seq<Entry<D>>

    ghost predicate Valid()
      reads this
    {
      Sorted(devices) && NonEmpty(devices)
    }

    constructor ()
      ensures Valid() && devices == []
    {
      devices := [];
    }

    /** The test of the new range against every range of the map. */
    method MeetsAny(base: u64, len: u64) returns (found: bool)
      ensures found == AnyOverlaps(devices, base, len)
    {
      var i := 0;
      while i < |devices|
        invariant 0 <= i <= |devices|
        invariant forall j :: 0 <= j < i ==> !Overlaps(devices[j].range, base, len)
      {
        if Overlaps(devices[i].range, base, len) {
          return true;
        }
        i := i + 1;
      }
      return false;
    }

    /** Insertion into the ordered map; the result says whether there was an entry with that base. */
    method InsertOrdered(e: Entry<D>) returns (taken: bool)
      modifies this
      ensures devices == Put(old(devices), e) && taken == Taken(old(devices), e.range.base)
    {
      var i := 0;
      while i < |devices| && devices[i].range.base < e.range.base
        invariant 0 <= i <= |devices|
        invariant forall j :: 0 <= j < i ==> devices[j].range.base < e.range.base
      {
        i := i + 1;
      }
      PlaceIsFirst(devices, e.range.base, i);
      taken := i < |devices| && devices[i].range.base == e.range.base;
      if taken {
        devices := devices[i := devices[i].(dev := e.dev)];
      } else {
        devices := devices[..i] + [e] + devices[i..];
      }
    }

    /**
     In any state the new device answers at its base or nothing changes. On disjoint ranges, a range that is
     judged is added if and only if it is not empty and meets none of them, and they stay disjoint.
     */
    method Insert(dev: D, base: u64, len: u64, fullAddr: bool) returns (ok: bool)
      requires Valid()
      modifies this
      ensures Valid() && (devices, ok) == Inserted(old(devices), Entry(Range(base, len, fullAddr), dev))
      ensures devices == old(devices) ||
              exists k :: 0 <= k < |devices| && devices[k].range.base == base && devices[k].dev == dev
      ensures var e := Entry(Range(base, len, fullAddr), dev);
              Disjoint(old(devices)) && Judged(old(devices), e) ==>
                && Disjoint(devices)
                && (ok <==> len > 0 && Free(old(devices), e.range))
                && (if ok then Same(devices, old(devices) + [e]) else devices == old(devices))
    {
      ghost var es, e := devices, Entry(Range(base, len, fullAddr), dev);
      if Disjoint(es) && Judged(es, e) {
        InsertedWhenFree(es, e);
      }
      if len == 0 {
        return false;
      }
      var found := MeetsAny(base, len);
      if found {
        return false;
      }
      PutKeepsSorted(es, e);
      var taken := InsertOrdered(Entry(Range(base, len, fullAddr), dev));
      return !taken;
    }
  }

  /** A successful insertion routes the addresses of its range to the new device and all others as before. */
  lemma InsertedRouting<D>(es: seq<Entry<D>>, e: Entry<D>, addr: u64)
    requires Inv(es) && Judged(es, e) && Inserted(es, e).1
    ensures GetDevice(Inserted(es, e).0, addr) ==
            if e.range.Holds(addr) then Some((e.range.Told(addr), e.dev)) else GetDevice(es, addr)
  {
    var es' := Inserted(es, e).0;
    InsertedWhenFree(es, e);
    if k :| 0 <= k < |es'| && es'[k].range.Holds(addr) {
      RoutedToOwner(es', addr, k);
      assert es'[k] in es + [e];
      if es'[k] != e {
        var j :| 0 <= j < |es| && es[j] == es'[k];
        RoutedToOwner(es, addr, j);
        assert !es[j].range.Meets(e.range);
      }
    } else {
      RoutedNowhere(es', addr);
      forall i | 0 <= i < |es|
        ensures !es[i].range.Holds(addr)
      {
        assert (es + [e])[i] in es';
      }
      RoutedNowhere(es, addr);
      assert (es + [e])[|es|] in es';
    }
  }

  // ---------------------------------------------------------------------------
  // Every run of insertions
  // ---------------------------------------------------------------------------

  function Run<D>(ops: seq<Entry<D>>): (es: seq<Entry<D>>) {
    if ops == [] then [] else Inserted(Run(ops[..|ops| - 1]), ops[|ops| - 1]).0
  }

  /** The insertions that meet none accepted before, in the order they were made. */
  ghost function Accepted<D>(ops: seq<Entry<D>>): (r: seq<Entry<D>>) {
    if ops == [] then []
    else
      var before, e := Accepted(ops[..|ops| - 1]), ops[|ops| - 1];
      if e.range.len > 0 && Free(before, e.range) then before + [e] else before
  }

  /** Every insertion is judged against those accepted before it. */
  ghost predicate AllJudged<D>(ops: seq<Entry<D>>) {
    ops == [] || (AllJudged(ops[..|ops| - 1]) && Judged(Accepted(ops[..|ops| - 1]), ops[|ops| - 1]))
  }

  ghost predicate AllSound<D>(ops: seq<Entry<D>>) {
    ops == [] || (AllSound(ops[..|ops| - 1]) && Sound(Run(ops[..|ops| - 1]), ops[|ops| - 1]))
  }

  /** Search of a list for a range that holds the address. */
  function Lookup<D>(es: seq<Entry<D>>, addr: u64): (r: Option<(u64, D)>) {
    if es == [] then None
    else if es[0].range.Holds(addr) then Some((es[0].range.Told(addr), es[0].dev))
    else Lookup(es[1..], addr)
  }

  /** What the search finds is in entry `i`. */
  ghost predicate FoundAt<D>(es: seq<Entry<D>>, addr: u64, i: nat) {
    i < |es| && es[i].range.Holds(addr) && Lookup(es, addr) == Some((es[i].range.Told(addr), es[i].dev))
  }

  lemma {:induction false} LookupFinds<D>(es: seq<Entry<D>>, addr: u64)
    ensures Lookup(es, addr).Some? ==> exists i: nat :: FoundAt(es, addr, i)
    ensures Lookup(es, addr).None? ==> forall i :: 0 <= i < |es| ==> !es[i].range.Holds(addr)
  {
    if es != [] && es[0].range.Holds(addr) {
      assert FoundAt(es, addr, 0);
    } else if es != [] {
      LookupFinds(es[1..], addr);
      if Lookup(es, addr).Some? {
        var i: nat :| FoundAt(es[1..], addr, i);
        assert FoundAt(es, addr, i + 1);
      } else {
        forall i | 0 <= i < |es|
          ensures !es[i].range.Holds(addr)
        {
          if i > 0 {
            assert es[1..][i - 1] == es[i];
          }
        }
      }
    }
  }

  lemma SameOneMore<D>(es: seq<Entry<D>>, fs: seq<Entry<D>>, es': seq<Entry<D>>, e: Entry<D>)
    requires Same(es, fs) && Same(es', es + [e])
    ensures Same(es', fs + [e])
  {
    forall i | 0 <= i < |es'|
      ensures es'[i] in fs + [e]
    {
      assert es'[i] in es + [e];
    }
    forall i | 0 <= i < |fs + [e]|
      ensures (fs + [e])[i] in es'
    {
      if i < |fs| {
        assert fs[i] in es;
        var k :| 0 <= k < |es| && es[k] == fs[i];
        assert (es + [e])[k] in es';
      } else {
        assert (es + [e])[|es|] in es';
      }
    }
  }

  /** The order of the entries plays no part. */
  lemma JudgedOfSame<D>(es: seq<Entry<D>>, fs: seq<Entry<D>>, e: Entry<D>)
    requires Same(es, fs)
    ensures Free(es, e.range) ==> Free(fs, e.range)
    ensures AnySeen(es, e.range) ==> AnySeen(fs, e.range)
    ensures AlreadyThere(es, e) ==> AlreadyThere(fs, e)
  {
    if AnySeen(es, e.range) {
      var i :| 0 <= i < |es| && Seen(es[i].range, e.range);
      assert es[i] in fs;
    }
    if AlreadyThere(es, e) {
      var i :| 0 <= i < |es| && es[i].range.base == e.range.base && es[i].dev == e.dev;
      assert es[i] in fs;
    }
    if Free(es, e.range) {
      forall i | 0 <= i < |fs|
        ensures !fs[i].range.Meets(e.range)
      {
        assert fs[i] in es;
      }
    }
  }

  lemma {:induction false} RunHoldsAccepted<D>(ops: seq<Entry<D>>)
    requires AllJudged(ops)
    ensures Inv(Run(ops)) && Same(Run(ops), Accepted(ops))
  {
    if ops != [] {
      var init, e := ops[..|ops| - 1], ops[|ops| - 1];
      RunHoldsAccepted(init);
      JudgedOfSame(Accepted(init), Run(init), e);
      JudgedOfSame(Run(init), Accepted(init), e);
      InsertedWhenFree(Run(init), e);
      if Inserted(Run(init), e).1 {
        SameOneMore(Run(init), Accepted(init), Run(ops), e);
      }
    }
  }

  /** A run is sound throughout if and only if every insertion is judged against those accepted before it. */
  lemma {:induction false} RunSoundExactlyWhen<D>(ops: seq<Entry<D>>)
    ensures AllSound(ops) <==> AllJudged(ops)
  {
    if ops != [] {
      var init, e := ops[..|ops| - 1], ops[|ops| - 1];
      RunSoundExactlyWhen(init);
      if AllJudged(init) {
        RunHoldsAccepted(init);
        JudgedOfSame(Accepted(init), Run(init), e);
        JudgedOfSame(Run(init), Accepted(init), e);
        SoundExactlyWhen(Run(init), e);
      }
    }
  }

  /**
   The ordered map against a flat list: whatever was inserted, as long as it was judged, an address is
   routed as a search of the accepted insertions would route it, and the next insertion succeeds exactly
   when it meets none of them.
   */
  lemma {:induction false} RoutesAsList<D>(ops: seq<Entry<D>>, addr: u64, e: Entry<D>)
    requires AllJudged(ops)
    ensures GetDevice(Run(ops), addr) == Lookup(Accepted(ops), addr)
    ensures Judged(Accepted(ops), e) ==> (Inserted(Run(ops), e).1 <==> e.range.len > 0 && Free(Accepted(ops), e.range))
  {
    var es, fs := Run(ops), Accepted(ops);
    RunHoldsAccepted(ops);
    LookupFinds(fs, addr);
    if Lookup(fs, addr).Some? {
      var i: nat :| FoundAt(fs, addr, i);
      assert fs[i] in es;
      var k :| 0 <= k < |es| && es[k] == fs[i];
      RoutedToOwner(es, addr, k);
    } else {
      forall i | 0 <= i < |es|
        ensures !es[i].range.Holds(addr)
      {
        assert es[i] in fs;
      }
      RoutedNowhere(es, addr);
    }
    JudgedOfSame(fs, es, e);
    JudgedOfSame(es, fs, e);
    if Judged(fs, e) {
      InsertedWhenFree(es, e);
    }
  }

  lemma {:induction false} AcceptedIsMade<D>(ops: seq<Entry<D>>, i: nat)
    requires i < |Accepted(ops)|
    ensures Accepted(ops)[i] in ops
  {
    var init := ops[..|ops| - 1];
    if i < |Accepted(init)| {
      AcceptedIsMade(init, i);
    }
  }

  /**
   And only as long as it was judged: the first insertion of a new device that is not, takes the address of
   its base from what the search finds there.
   */
  lemma {:induction false} MisjudgedMisroutes<D>(ops: seq<Entry<D>>, e: Entry<D>)
    requires AllJudged(ops) && !Judged(Accepted(ops), e) && forall i :: 0 <= i < |ops| ==> ops[i].dev != e.dev
    ensures GetDevice(Run(ops + [e]), e.range.base) != Lookup(Accepted(ops + [e]), e.range.base)
  {
    var es, fs, addr := Run(ops), Accepted(ops), e.range.base;
    assert (ops + [e])[..|ops|] == ops;
    RunHoldsAccepted(ops);
    JudgedOfSame(es, fs, e);
    OverlapsIsSeen(es, e.range);
    assert Accepted(ops + [e]) == fs && Run(ops + [e]) == Put(es, e);
    PutKeepsSorted(es, e);
    var es', i := Put(es, e), Place(es, addr);
    assert i + 1 < |es'| ==> es'[i].range.base < es'[i + 1].range.base;
    FirstBeforeIsNearest(es', addr, i);
    assert GetDevice(es', addr).Some? && GetDevice(es', addr).value.1 == e.dev;
    LookupFinds(fs, addr);
    if Lookup(fs, addr).Some? {
      var k: nat :| FoundAt(fs, addr, k);
      AcceptedIsMade(ops, k);
    }
  }

  // ---------------------------------------------------------------------------
  // Ranges that reach the last address
  // ---------------------------------------------------------------------------

  /** One device at address 5, and a second from address 1 to the last one: both ranges hold address 5. */
  lemma WrappingRangeIsAccepted<D>(a: D, b: D)
    ensures var first := Entry(Range(5, 1, false), a);
            var second := Entry(Range(1, U64_END - 1, false), b);
            Inserted([first], second) == ([second, first], true) && first.range.Holds(5) && second.range.Holds(5)
  {
    var first := Entry(Range(5, 1, false), a);
    var second := Entry(Range(1, U64_END - 1, false), b);
    assert Place([first], 1) == 0;
    assert Put([first], second) == [second, first];
  }

  /**
   One device in the last 16 addresses, and a second of one byte among them: it is accepted, and the addresses
   behind it, which are the first device's, go nowhere.
   */
  lemma RangeUnderWrappingOneIsAccepted<D>(a: D, b: D)
    ensures var first := Entry(Range(U64_END - 16, 16, false), a);
            var second := Entry(Range(U64_END - 8, 1, false), b);
            && Inserted([first], second) == ([first, second], true)
            && first.range.Holds(U64_END - 4) && GetDevice([first, second], U64_END - 4) == None
  {
    var first := Entry(Range(U64_END - 16, 16, false), a);
    var second := Entry(Range(U64_END - 8, 1, false), b);
    PlaceIsFirst([first], U64_END - 8, 1);
    assert Put([first], second) == [first, second];
    FirstBeforeIsNearest([first, second], U64_END - 4, 1);
  }
}
