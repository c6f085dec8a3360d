/**
 * The growable slot allocator with a stack of free indices.
 *
 * Memory exhaustion is an input: the methods that allocate take the allocator's answer.  A list whose
 * storage could not be extended gives everything up and from then on refuses every request.
 */
module SlotList {
  import opened Bytes

  /** A pointer argument that may be null. */
  datatype Buffer = Null | Buf(bytes: seq<byte>)

  function Max(a: int, b: int): int {
    if a < b then b else a
  }

  /** `n` slots of `size` bytes each. */
  predicate Blocks(r: seq<seq<byte>>, n: nat, size: nat) {
    |r| == n && forall i :: 0 <= i < n ==> |r[i]| == size
  }

  // ---- The free stack ----

  /** The stack holds distinct indices of existing slots. */
  ghost predicate FreeOk(free: seq<int>, n: int) {
    && (forall i :: 0 <= i < |free| ==> 0 <= free[i] < n)
    && (forall i, j :: 0 <= i < j < |free| ==> free[i] != free[j])
  }

  /** The slots in use, exactly those that are not on the stack, with what they hold. */
  ghost function LiveData(free: seq<int>, data: seq<seq<byte>>): map<int, seq<byte>> {
    map i | 0 <= i < |data| && i !in free :: data[i]
  }

  lemma {:induction false} PopLive(free: seq<int>, data: seq<seq<byte>>, v: seq<byte>)
    requires free != [] && FreeOk(free, |data|)
    ensures var i, rest := free[|free| - 1], free[..|free| - 1];
            && FreeOk(rest, |data|)
            && i !in LiveData(free, data)
            && LiveData(rest, data[i := v]) == LiveData(free, data)[i := v]
  {
    var i, rest := free[|free| - 1], free[..|free| - 1];
    assert free == rest + [i];
    assert i !in rest;
    assert forall j :: j in free <==> j in rest || j == i;
  }

  lemma {:induction false} PushLive(free: seq<int>, data: seq<seq<byte>>, i: int)
    requires FreeOk(free, |data|) && i in LiveData(free, data)
    ensures FreeOk(free + [i], |data|)
    ensures LiveData(free + [i], data) == LiveData(free, data) - {i}
  {
    assert forall j :: j in free + [i] <==> j in free || j == i;
  }

  /** Pushing an index that is on the stack spoils it. */
  lemma {:induction false} PushTwice(free: seq<int>, i: int, n: int)
    requires i in free
    ensures !FreeOk(free + [i], n)
  {
    var k :| 0 <= k < |free| && free[k] == i;
    assert (free + [i])[k] == (free + [i])[|free|];
  }

  /** The indices from `lo` up to `hi`, as the growth loop pushes them. */
  function Range(lo: int, hi: int): (r: seq<int>)
    requires lo <= hi
    ensures |r| == hi - lo && forall i :: 0 <= i < hi - lo ==> r[i] == lo + i
  {
    seq(hi - lo, i => lo + i)
  }

  lemma {:induction false} GrowLive(data: seq<seq<byte>>, more: seq<seq<byte>>)
    ensures FreeOk(Range(|data|, |data| + |more|), |data| + |more|)
    ensures LiveData(Range(|data|, |data| + |more|), data + more) == LiveData([], data)
  {
    var r := Range(|data|, |data| + |more|);
    forall i | 0 <= i < |data| + |more| ensures i in r <==> i >= |data| {
      if i >= |data| {
        assert r[i - |data|] == i;
      }
    }
  }

  // ---- Counts ----

  /**
   * The numbers that decide what a list can take: bytes in a slot, slots, free ones, room for free ones, slots added
   * at a time and the most there may be.
   */
  datatype Counts = Counts(size: int, elems: int, free: int, cap: int, step: int, limit: int) {
    /** Another slot can be handed out, possibly after growth. */
    predicate Takes(memOk: bool) {
      free > 0 || (elems + step <= limit && memOk)
    }

    function AfterStore(): Counts {
      if free > 0 then this.(free := free - 1) else this.(elems := elems + step, free := step - 1)
    }

    function AfterRelease(): Counts {
      this.(free := free + 1, cap := if free >= cap then cap + step else cap)
    }
  }

  // ---- The list ----

  class DataList {
    const maxElements: int
    var hasData: bool
    var datalist: seq<seq<byte>>
    var freelist: array?<int>
    var elementsize: int
    var nelements: int
    var freelistsize: int
    var nfreeelements: int
    var nresizelem: int
    /** The size the list was created with. */
    ghost var initial: int

    /** The free stack. */
    ghost function Free(): seq<int>
      reads this, freelist
      requires freelist != null && 0 <= nfreeelements <= freelist.Length
    {
      freelist[..nfreeelements]
    }

    /** The slots handed out and not yet returned; none once the storage has been given up. */
    ghost function Live(): map<int, seq<byte>>
      reads this, freelist
    {
      if hasData && freelist != null && 0 <= nfreeelements <= freelist.Length then LiveData(Free(), datalist) else map[]
    }

    ghost function Count(): Counts
      reads this
    {
      Counts(elementsize, nelements, nfreeelements, freelistsize, nresizelem, maxElements)
    }

    ghost function State(): Slots
      reads this, freelist
    {
      if hasData then InUse(Live()) else Dead
    }

    ghost predicate Fresh()
      reads this
    {
      !hasData && freelist == null && nelements == 0 && nfreeelements == 0
    }

    ghost predicate Valid()
      reads this, freelist
    {
      hasData ==>
        && freelist != null && freelist.Length == freelistsize
        && 0 <= nfreeelements <= freelistsize
        && 1 <= nresizelem <= freelistsize
        && 0 < elementsize && 1 < nelements == |datalist|
        && nelements <= Max(initial, maxElements)
        && (forall i :: 0 <= i < nelements ==> |datalist[i]| == elementsize)
        && FreeOk(Free(), nelements)
    }

    constructor (maxElements: int)
      ensures Fresh() && Valid() && this.maxElements == maxElements && datalist == []
      ensures Count() == Counts(0, 0, 0, 0, 0, maxElements)
    {
      this.maxElements := maxElements;
      hasData := false;
      datalist := [];
      freelist := null;
      nfreeelements, freelistsize := 0, 0;
      elementsize, nelements, nresizelem, initial := 0, 0, 0, 0;
    }

    /** Slots of allocated but unwritten memory. */
    method Uninitialised(n: nat) returns (r: seq<seq<byte>>)
      requires elementsize > 0
      ensures |r| == n && forall i :: 0 <= i < n ==> |r[i]| == elementsize
    {
      var size: nat := elementsize;
      assert Blocks(seq(n, i => Zeros(size)), n, size);
      r :| Blocks(r, n, size);
      assert Blocks(r, n, size);
    }

    /** The first call; an argument check and two allocations. */
    method Init(nelem: int, elemsize: int, nresize: int, memOk: bool) returns (r: int)
      requires Fresh()
      modifies this
      ensures nresize >= 0 ==> Valid()
      ensures r == 0 <==> nelem > 1 && elemsize > 0 && nresize <= nelem && memOk
      ensures r == 0 ==> hasData && fresh(freelist) && Live() == map[] && initial == nelem
      ensures r == 0 ==> Count() == Counts(elemsize, nelem, nelem, nelem, if nresize == 0 then nelem / 2 else nresize,
                                           maxElements)
      ensures r != 0 ==> r == -1 && !hasData
    {
      if nelem <= 1 || elemsize <= 0 || nelem < nresize {
        return -1;
      }
      if !memOk {
        return -1;
      }
      elementsize := elemsize;
      datalist := Uninitialised(nelem);
      hasData := true;
      freelist := new int[nelem];
      nresizelem := if nresize == 0 then nelem / 2 else nresize;
      freelistsize := nelem;
      initial := nelem;
      PushNew(nelem);
      GrowLive([], datalist);
      assert Free() == Range(0, nelem);
      assert [] + datalist == datalist;
      nelements := nelem;
      return 0;
    }

    /** The loop that pushes the new indices; there is always room for them. */
    method PushNew(nelem: int)
      requires freelist != null && freelist.Length == freelistsize && 0 <= nelements <= nelem
      requires 0 <= nfreeelements && nfreeelements + (nelem - nelements) <= freelistsize
      modifies this`nfreeelements, freelist
      ensures nfreeelements == old(nfreeelements) + (nelem - nelements)
      ensures freelist[..nfreeelements] == old(freelist[..nfreeelements]) + Range(nelements, nelem)
    {
      ghost var before := freelist[..nfreeelements];
      for i := nelements to nelem
        invariant nfreeelements == old(nfreeelements) + (i - nelements)
        invariant freelist[..nfreeelements] == before + Range(nelements, i)
      {
        freelist[nfreeelements] := i;
        nfreeelements := nfreeelements + 1;
        assert freelist[..nfreeelements] == freelist[..nfreeelements - 1] + [i];
      }
    }

    /** Growth, tried only when the stack is empty. */
    method ResizeList(memOk: bool) returns (r: int)
      requires Valid() && hasData && nfreeelements == 0
      modifies this, freelist
      ensures Valid() && initial == old(initial) && elementsize == old(elementsize) && nresizelem == old(nresizelem)
      ensures r == 0 <==> old(nelements) + old(nresizelem) <= maxElements && memOk
      ensures r == 0 ==> hasData && freelist == old(freelist) && nfreeelements > 0 && Live() == old(Live())
      ensures r == 0 ==> Count() == old(Count().(elems := nelements + nresizelem, free := nresizelem))
      ensures r != 0 && hasData ==> Count() == old(Count())
      ensures r != 0 ==> r == -1 && (freelist == old(freelist) || freelist == null)
      ensures old(nelements) + old(nresizelem) > maxElements ==>
        hasData && freelist == old(freelist) && Live() == old(Live()) && nelements == old(nelements)
      ensures old(nelements) + old(nresizelem) <= maxElements && !memOk ==> !hasData
    {
      if nelements + nresizelem > maxElements {
        return -1;
      }
      var nelem := nelements + nresizelem;
      if !memOk {
        hasData, freelist := false, null;
        return -1;
      }
      ghost var data := datalist;
      var more := Uninitialised(nresizelem);
      datalist := datalist + more;
      PushNew(nelem);
      GrowLive(data, more);
      assert Free() == Range(nelements, nelem);
      nelements := nelem;
      return 0;
    }

    /** A list that cannot take another element: it is dead, or full with no way to grow. */
    ghost predicate Refuses(memOk: bool)
      reads this
    {
      !hasData || !Count().Takes(memOk)
    }

    /** Hands out a slot that nobody holds; the slots already out keep their index and contents. */
    method AddElement(databuf: Buffer, datalen: nat, memOk: bool) returns (index: int)
      requires Valid() && (databuf.Buf? ==> datalen <= |databuf.bytes|)
      modifies this, freelist
      ensures Valid() && initial == old(initial) && (hasData ==> old(hasData) && freelist == old(freelist))
      ensures freelist == old(freelist) || freelist == null
      ensures index == -1 <==> old(Refuses(memOk)) || databuf.Null? || datalen > old(elementsize)
      ensures index != -1 ==>
        && hasData && 0 <= index < nelements
        && index !in old(Live())
        && Live() == old(Live())[index := databuf.bytes[..datalen] + Zeros(old(elementsize) - datalen)]
      ensures index != -1 ==> Count() == old(Count().AfterStore())
      ensures index == -1 && hasData ==> Live() == old(Live()) && Count() == old(Count())
      ensures old(hasData) && !hasData <==>
        && old(hasData) && databuf.Buf? && datalen <= old(elementsize)
        && old(Count().Takes(true)) && !old(Count().Takes(memOk))
    {
      if !hasData || databuf.Null? || datalen > elementsize {
        return -1;
      }
      if nfreeelements <= 0 {
        var r := ResizeList(memOk);
        if r == -1 {
          return -1;
        }
      }
      index := Pop(databuf.bytes[..datalen] + Zeros(elementsize - datalen));
    }

    /** Takes the top index off the stack and fills its slot. */
    method Pop(slot: seq<byte>) returns (index: int)
      requires Valid() && hasData && nfreeelements > 0 && |slot| == elementsize
      modifies this`nfreeelements, this`datalist
      ensures Valid() && 0 <= index < nelements && index !in old(Live()) && Live() == old(Live())[index := slot]
      ensures nfreeelements == old(nfreeelements) - 1
    {
      nfreeelements := nfreeelements - 1;
      index := freelist[nfreeelements];
      PopLive(freelist[..nfreeelements + 1], datalist, slot);
      assert freelist[..nfreeelements + 1][..nfreeelements] == freelist[..nfreeelements];
      datalist := datalist[index := slot];
    }

    /** The reallocation of a full free array. */
    method GrowFree()
      requires Valid() && hasData && nfreeelements == freelistsize
      modifies this`freelist, this`freelistsize
      ensures Valid() && fresh(freelist) && freelistsize == old(freelistsize) + nresizelem && Free() == old(Free())
    {
      var bigger := new int[freelistsize + nresizelem];
      forall i | 0 <= i < freelistsize {
        bigger[i] := freelist[i];
      }
      freelist := bigger;
      freelistsize := freelistsize + nresizelem;
      assert Free() == old(Free());
    }

    /** A slot of the list that is on the free stack already. */
    ghost predicate AlreadyFree(index: int)
      reads this, freelist
    {
      hasData && 0 <= index < nelements && index !in Live()
    }

    /**
     * Takes back a slot.  Nothing looks for the index on the free stack, so the list stays in order exactly when
     * the slot was not free already; returning it twice puts it on the stack twice.
     */
    method DeleteElement(index: int, reset: bool, memOk: bool) returns (r: int)
      requires Valid()
      modifies this, freelist
      ensures initial == old(initial) && (hasData ==> old(hasData))
      ensures freelist == old(freelist) || freelist == null || fresh(freelist)
      ensures r == 0 || r == -1
      ensures hasData ==> (Valid() <==> !old(AlreadyFree(index)))
      ensures r == 0 ==> hasData
      ensures r == 0 ==>
        if index in old(Live()) then Live() == old(Live()) - {index} else old(AlreadyFree(index))
      ensures r == 0 ==> freelist != null && 0 <= nfreeelements <= freelist.Length && Free() == old(Free()) + [index]
      ensures r == 0 ==> Count() == old(Count().AfterRelease())
      ensures r == 0 ==> datalist == if reset then old(datalist)[index := Zeros(elementsize)] else old(datalist)
      ensures r == -1 && hasData ==> Live() == old(Live()) && Count() == old(Count()) && !(0 <= index < nelements)
      ensures old(hasData) && !hasData <==>
        old(hasData) && 0 <= index < old(nelements) && old(nfreeelements >= freelistsize) && !memOk
    {
      if !hasData || freelist == null || index >= nelements || index < 0 {
        return -1;
      }
      if nfreeelements >= freelistsize {
        if !memOk {
          hasData, freelist := false, null;
          return -1;
        }
        GrowFree();
      }
      Push(index);
      if reset {
        ghost var l := Live();
        datalist := datalist[index := Zeros(elementsize)];
        assert Live() == l;
      }
      return 0;
    }

    method Push(index: int)
      requires Valid() && hasData && nfreeelements < freelistsize && 0 <= index < nelements
      modifies this`nfreeelements, freelist
      ensures nfreeelements == old(nfreeelements) + 1 && Free() == old(Free()) + [index]
      ensures Valid() <==> index in old(Live())
      ensures index in old(Live()) ==> Live() == old(Live()) - {index}
    {
      ghost var before := Free();
      freelist[nfreeelements] := index;
      nfreeelements := nfreeelements + 1;
      assert Free() == before + [index];
      if index in LiveData(before, datalist) {
        PushLive(before, datalist, index);
      } else {
        PushTwice(before, index, |datalist|);
      }
    }

    /** Takes back every slot; refused when the list has outgrown the free array. */
    method ResetList() returns (r: int)
      requires Valid()
      modifies this, freelist
      ensures Valid() && initial == old(initial)
      ensures r == 0 <==> old(hasData) && old(nelements <= freelistsize)
      ensures r == 0 ==> hasData && freelist == old(freelist) && Live() == map[]
      ensures r == 0 ==> Count() == old(Count().(free := nelements))
      ensures r == 0 ==> forall i :: 0 <= i < nelements ==> datalist[i] == Zeros(elementsize)
      ensures r != 0 ==> r == -1 && hasData == old(hasData) && freelist == old(freelist) && Live() == old(Live())
      ensures r != 0 ==> Count() == old(Count())
    {
      if !hasData || nelements > freelistsize {
        return -1;
      }
      var size, n := elementsize, nelements;
      datalist := seq(n, i => Zeros(size));
      nfreeelements, nelements := 0, 0;
      PushNew(n);
      GrowLive([], datalist);
      assert [] + datalist == datalist && Free() == Range(0, n);
      nelements := n;
      return 0;
    }
  }

  // ---- Histories ----

  /** The slots in use, or nothing once the storage has been given up for want of memory. */
  datatype Slots = Dead | InUse(slots: map<int, seq<byte>>)

  datatype Event = Stored(index: int, data: seq<byte>) | Released(index: int) | Emptied | Refused | Lost

  /** What an event does to the slots in use; storage that has been given up refuses everything. */
  ghost predicate Served(before: Slots, e: Event, after: Slots) {
    match e
    case Stored(i, data) => before.InUse? && i !in before.slots && after == InUse(before.slots[i := data])
    case Released(i) => before.InUse? && i in before.slots && after == InUse(before.slots - {i})
    case Emptied => before.InUse? && after == InUse(map[])
    case Refused => after == before
    case Lost => before.InUse? && after == Dead
  }

  ghost predicate History(states: seq<Slots>, events: seq<Event>) {
    |states| == |events| + 1 && forall i :: 0 <= i < |events| ==> Served(states[i], events[i], states[i + 1])
  }

  /** The event ends the use of slot `x`. */
  predicate Ends(e: Event, x: int) {
    e == Released(x) || e == Emptied
  }

  /** Between two moments at which the same index is handed out it has been released, or the list emptied. */
  lemma {:induction false} NeverTwice(states: seq<Slots>, events: seq<Event>, i: nat, j: nat)
    requires History(states, events) && i < j < |events|
    requires events[i].Stored? && events[j].Stored? && events[i].index == events[j].index
    ensures exists k :: i < k < j && Ends(events[k], events[i].index)
  {
    assert Served(states[j], events[j], states[j + 1]);
    if forall k :: i < k < j ==> !Ends(events[k], events[i].index) {
      StillLive(states, events, i, j);
    }
  }

  /** A slot that is not released keeps what was stored in it, as long as there is storage. */
  lemma {:induction false} StillLive(states: seq<Slots>, events: seq<Event>, i: nat, j: nat)
    requires History(states, events) && i < j <= |events| && events[i].Stored?
    requires forall k :: i < k < j ==> !Ends(events[k], events[i].index)
    ensures states[j].InUse? ==>
      events[i].index in states[j].slots && states[j].slots[events[i].index] == events[i].data
    decreases j
  {
    assert Served(states[j - 1], events[j - 1], states[j - 1 + 1]);
    if i + 1 < j {
      StillLive(states, events, i, j - 1);
    }
  }

  // ---- Clients ----

  /**
   * What a client asks for.  It releases slots by their place among those it holds, or an index outside the list;
   * the allocator's answer comes with the request.
   */
  datatype Request =
    | Store(data: seq<byte>, memOk: bool)
    | StoreNull
    | Release(which: nat, reset: bool, memOk: bool)
    | ReleaseOutside(index: int, memOk: bool)
    | Reset

  /** What a client sees of a list: the slots in use, the counts and the slots it holds itself. */
  datatype Client = Out | In(slots: map<int, seq<byte>>, counts: Counts, held: seq<int>)

  ghost function SlotsOf(c: Client): Slots {
    if c.Out? then Dead else InUse(c.slots)
  }

  ghost function ClientOf(list: DataList, held: seq<int>): Client
    reads list, list.freelist
  {
    if list.hasData then In(list.Live(), list.Count(), held) else Out
  }

  /**
   * What a request comes to, which the counts and the allocator's answer decide but for the index handed out: that
   * may be any slot not in use.
   */
  ghost predicate Due(q: Request, b: Client, e: Event, a: Client) {
    if b.Out? then e == Refused && a == Out
    else
      match q
      case Store(data, memOk) =>
        if |data| > b.counts.size || !b.counts.Takes(true) then e == Refused && a == b
        else if !b.counts.Takes(memOk) then e == Lost && a == Out
        else
          && e.Stored? && e.index !in b.slots && e.data == data + Zeros(b.counts.size - |data|)
          && a == In(b.slots[e.index := e.data], b.counts.AfterStore(), b.held + [e.index])
      case Release(which, _, memOk) =>
        if which >= |b.held| then e == Refused && a == b
        else if b.counts.free >= b.counts.cap && !memOk then e == Lost && a == Out
        else
          && e == Released(b.held[which])
          && a == In(b.slots - {b.held[which]}, b.counts.AfterRelease(), b.held[..which] + b.held[which + 1..])
      case Reset =>
        if b.counts.elems <= b.counts.cap then e == Emptied && a == In(map[], b.counts.(free := b.counts.elems), [])
        else e == Refused && a == b
      case _ => e == Refused && a == b
  }

  /** A run: every request comes to what is due. */
  ghost predicate DueAt(clients: seq<Client>, qs: seq<Request>, events: seq<Event>, i: nat) {
    && i < |qs| && i < |events| && i + 1 < |clients|
    && Due(qs[i], clients[i], events[i], clients[i + 1])
  }

  /** Every slot is either in use or free. */
  ghost predicate Balanced(c: Client) {
    c.In? ==> |c.slots| + c.counts.free == c.counts.elems
  }

  /** With memory to be had, something that fits is refused only when all slots are in use and no more may be added. */
  lemma {:induction false} RefusedOnlyWhenFull(data: seq<byte>, b: Client, a: Client)
    requires b.In? && Balanced(b) && b.counts.free >= 0 && |data| <= b.counts.size
    ensures Due(Store(data, true), b, Refused, a) ==>
      a == b && |b.slots| == b.counts.elems && b.counts.elems + b.counts.step > b.counts.limit
  {
  }

  lemma {:induction false} AllLive(data: seq<seq<byte>>)
    ensures |LiveData([], data)| == |data|
    decreases |data|
  {
    if data == [] {
      assert LiveData([], data) == map[];
    } else {
      var n := |data| - 1;
      AllLive(data[..n]);
      assert LiveData([], data) == LiveData([], data[..n])[n := data[n]];
    }
  }

  /** Conservation: the slots in use and the free ones are all the slots. */
  lemma {:induction false} LiveSize(free: seq<int>, data: seq<seq<byte>>)
    requires FreeOk(free, |data|)
    ensures |LiveData(free, data)| + |free| == |data|
    decreases |free|
  {
    if free == [] {
      AllLive(data);
    } else {
      var i, rest := free[|free| - 1], free[..|free| - 1];
      PopLive(free, data, data[i]);
      LiveSize(rest, data);
      assert data[i := data[i]] == data;
    }
  }

  /** A client holds different slots, all of them in use. */
  ghost predicate Holds(held: seq<int>, s: Slots) {
    && (s.Dead? ==> held == [])
    && (forall i :: 0 <= i < |held| ==> s.InUse? && held[i] in s.slots)
    && (forall i, j :: 0 <= i < j < |held| ==> held[i] != held[j])
  }

  lemma {:induction false} HoldsMore(held: seq<int>, m: map<int, seq<byte>>, i: int, data: seq<byte>)
    requires Holds(held, InUse(m)) && i !in m
    ensures Holds(held + [i], InUse(m[i := data]))
  {
  }

  lemma {:induction false} HoldsLess(held: seq<int>, m: map<int, seq<byte>>, k: nat)
    requires Holds(held, InUse(m)) && k < |held|
    ensures Holds(held[..k] + held[k + 1..], InUse(m - {held[k]}))
  {
  }

  /** Serves one request of a client. */
  method Serve(list: DataList, q: Request, held: seq<int>) returns (e: Event, held': seq<int>)
    requires list.Valid() && Holds(held, list.State())
    modifies list, list.freelist
    ensures list.Valid() && Holds(held', list.State())
    ensures list.freelist == old(list.freelist) || list.freelist == null || fresh(list.freelist)
    ensures Served(old(list.State()), e, list.State()) && Due(q, old(ClientOf(list, held)), e, ClientOf(list, held'))
  {
    match q {
      case Store(data, memOk) =>
        e, held' := ServeStore(list, data, memOk, held);
      case StoreNull =>
        var index := list.AddElement(Null, 0, true);
        return Refused, held;
      case Release(which, reset, memOk) =>
        e, held' := ServeRelease(list, which, reset, memOk, held);
      case ReleaseOutside(index, memOk) =>
        if list.hasData && 0 <= index < list.nelements {
          return Refused, held;
        }
        var r := list.DeleteElement(index, false, memOk);
        return Refused, held;
      case Reset =>
        var r := list.ResetList();
        if r == 0 {
          return Emptied, [];
        }
        return Refused, held;
    }
  }

  method ServeStore(list: DataList, data: seq<byte>, memOk: bool, held: seq<int>) returns (e: Event, held': seq<int>)
    requires list.Valid() && Holds(held, list.State())
    modifies list, list.freelist
    ensures list.Valid() && Holds(held', list.State())
    ensures list.freelist == old(list.freelist) || list.freelist == null
    ensures Served(old(list.State()), e, list.State())
    ensures Due(Store(data, memOk), old(ClientOf(list, held)), e, ClientOf(list, held'))
  {
    var had, size := list.hasData, list.elementsize;
    ghost var m := list.Live();
    var index := list.AddElement(Buf(data), |data|, memOk);
    if index != -1 {
      var padded := data + Zeros(size - |data|);
      assert data[..|data|] == data;
      HoldsMore(held, m, index, padded);
      return Stored(index, padded), held + [index];
    }
    if list.hasData || !had {
      return Refused, held;
    }
    return Lost, [];
  }

  method ServeRelease(list: DataList, which: nat, reset: bool, memOk: bool, held: seq<int>)
    returns (e: Event, held': seq<int>)
    requires list.Valid() && Holds(held, list.State())
    modifies list, list.freelist
    ensures list.Valid() && Holds(held', list.State())
    ensures list.freelist == old(list.freelist) || list.freelist == null || fresh(list.freelist)
    ensures Served(old(list.State()), e, list.State())
    ensures Due(Release(which, reset, memOk), old(ClientOf(list, held)), e, ClientOf(list, held'))
  {
    if which >= |held| {
      return Refused, held;
    }
    ghost var m := list.Live();
    var r := list.DeleteElement(held[which], reset, memOk);
    if r == 0 {
      HoldsLess(held, m, which);
      return Released(held[which]), held[..which] + held[which + 1..];
    }
    return Lost, [];
  }

  /**
   * Any client: whatever it asks for and whatever the allocator answers, the list stays in order, each request comes
   * to what the counts say, and the slots in use go through a history, to which `NeverTwice` and `StillLive` apply.
   */
  method Drive(list: DataList, qs: seq<Request>)
    returns (events: seq<Event>, ghost clients: seq<Client>, ghost states: seq<Slots>)
    requires list.Valid()
    modifies list, list.freelist
    ensures list.Valid() && |events| == |qs| && |clients| == |qs| + 1 && History(states, events)
    ensures clients[0] == old(ClientOf(list, [])) && states[|qs|] == list.State()
    ensures exists held :: clients[|qs|] == ClientOf(list, held) && Holds(held, list.State())
    ensures forall i: nat {:trigger DueAt(clients, qs, events, i)} :: i < |qs| ==> DueAt(clients, qs, events, i)
    ensures forall i :: 0 <= i <= |qs| ==> states[i] == SlotsOf(clients[i]) && Balanced(clients[i])
  {
    events, clients, states := [], [ClientOf(list, [])], [list.State()];
    var held: seq<int> := [];
    BalancedList(list, held);
    for k := 0 to |qs|
      invariant list.Valid() && Holds(held, list.State()) && |events| == k && History(states, events)
      invariant list.freelist == old(list.freelist) || list.freelist == null || fresh(list.freelist)
      invariant |clients| == k + 1 && clients[0] == old(ClientOf(list, [])) && clients[k] == ClientOf(list, held)
      invariant forall i: nat {:trigger DueAt(clients, qs, events, i)} :: i < k ==> DueAt(clients, qs, events, i)
      invariant forall i :: 0 <= i <= k ==> states[i] == SlotsOf(clients[i]) && Balanced(clients[i])
    {
      var e;
      e, held := Serve(list, qs[k], held);
      HistoryMore(states, events, e, list.State());
      DueMore(clients, qs, events, e, ClientOf(list, held));
      BalancedList(list, held);
      events, clients, states := events + [e], clients + [ClientOf(list, held)], states + [list.State()];
    }
  }

  lemma {:induction false} BalancedList(list: DataList, held: seq<int>)
    requires list.Valid()
    ensures Balanced(ClientOf(list, held))
  {
    if list.hasData {
      LiveSize(list.Free(), list.datalist);
    }
  }

  lemma {:induction false} DueMore(clients: seq<Client>, qs: seq<Request>, events: seq<Event>, e: Event, c: Client)
    requires |clients| == |events| + 1 && |events| < |qs| && Due(qs[|events|], clients[|events|], e, c)
    requires forall i: nat {:trigger DueAt(clients, qs, events, i)} :: i < |events| ==> DueAt(clients, qs, events, i)
    ensures forall i: nat {:trigger DueAt(clients + [c], qs, events + [e], i)} ::
      i < |events| + 1 ==> DueAt(clients + [c], qs, events + [e], i)
  {
    forall i: nat {:trigger DueAt(clients + [c], qs, events + [e], i)} | i < |events| + 1
      ensures DueAt(clients + [c], qs, events + [e], i)
    {
      if i < |events| {
        assert DueAt(clients, qs, events, i);
      }
    }
  }

  lemma {:induction false} HistoryMore(states: seq<Slots>, events: seq<Event>, e: Event, s: Slots)
    requires History(states, events) && Served(states[|events|], e, s)
    ensures History(states + [s], events + [e])
  {
  }
}
