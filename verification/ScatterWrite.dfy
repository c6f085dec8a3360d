/**
 * Scatter/gather writes that survive partial writes, interrupts and "try later" answers.
 *
 * An I/O vector points into process memory, so a list of vectors denotes the concatenation of the
 * bytes it points at (`Gather`).  The operating system is a script of outcomes: each system call
 * takes the next one, and a call made after the script has run out fails.
 */
module ScatterWrite {
  import opened Bytes

  datatype IoVec = IoVec(base: nat, len: nat)

  datatype Outcome = Wrote(n: nat) | Interrupted | TryLater | Failed

  /** The largest number of vectors one call accepts. */
  const MAX_IOV := 64

  /** A caller-owned integer that a call may fill in. */
  class Cell {
    var value: int
    constructor (v: int)
      ensures value == v
    {
      value := v;
    }
  }

  // ---- What a list of vectors denotes ----

  predicate Inside(size: nat, v: IoVec) {
    v.base + v.len <= size
  }

  predicate AllInside(size: nat, iov: seq<IoVec>) {
    forall i :: 0 <= i < |iov| ==> Inside(size, iov[i])
  }

  function Total(iov: seq<IoVec>): nat {
    if iov == [] then 0 else iov[0].len + Total(iov[1..])
  }

  function Gather(mem: seq<byte>, iov: seq<IoVec>): (r: seq<byte>)
    requires AllInside(|mem|, iov)
    ensures |r| == Total(iov)
  {
    if iov == [] then []
    else mem[iov[0].base..iov[0].base + iov[0].len] + Gather(mem, iov[1..])
  }

  lemma {:induction false} GatherFrom(mem: seq<byte>, iov: seq<IoVec>, i: nat)
    requires i < |iov| && AllInside(|mem|, iov)
    ensures Gather(mem, iov[i..]) == mem[iov[i].base..iov[i].base + iov[i].len] + Gather(mem, iov[i + 1..])
    ensures Total(iov[i..]) == iov[i].len + Total(iov[i + 1..])
  {
    assert iov[i..][1..] == iov[i + 1..];
  }

  /** Vectors of length zero contribute nothing. */
  lemma {:induction false} GatherSkipsEmpty(mem: seq<byte>, iov: seq<IoVec>, i: nat)
    requires i <= |iov| && AllInside(|mem|, iov)
    requires forall k :: 0 <= k < i ==> iov[k].len == 0
    ensures Gather(mem, iov) == Gather(mem, iov[i..])
    ensures Total(iov) == Total(iov[i..])
    decreases i
  {
    if i == 0 {
      assert iov[0..] == iov;
    } else {
      GatherSkipsEmpty(mem, iov, i - 1);
      GatherFrom(mem, iov, i - 1);
    }
  }

  /** Memory outside the vectors does not matter. */
  lemma {:induction false} GatherFrame(m1: seq<byte>, m2: seq<byte>, iov: seq<IoVec>)
    requires |m1| == |m2| && AllInside(|m1|, iov)
    requires forall i, a :: 0 <= i < |iov| && iov[i].base <= a < iov[i].base + iov[i].len ==> m1[a] == m2[a]
    ensures Gather(m1, iov) == Gather(m2, iov)
  {
    if iov != [] {
      var v := iov[0];
      assert m1[v.base..v.base + v.len] == m2[v.base..v.base + v.len];
      forall i, a | 0 <= i < |iov[1..]| && iov[1..][i].base <= a < iov[1..][i].base + iov[1..][i].len
        ensures m1[a] == m2[a]
      {
        assert iov[1..][i] == iov[i + 1];
      }
      GatherFrame(m1, m2, iov[1..]);
    }
  }

  /** Conversely, two memories that gather to the same bytes agree on every vector. */
  lemma {:induction false} GatherDetermines(m1: seq<byte>, m2: seq<byte>, iov: seq<IoVec>, j: nat, a: nat)
    requires |m1| == |m2| && AllInside(|m1|, iov) && j < |iov|
    requires iov[j].base <= a < iov[j].base + iov[j].len
    requires Gather(m1, iov) == Gather(m2, iov)
    ensures m1[a] == m2[a]
  {
    var v := iov[0];
    var h1, h2 := m1[v.base..v.base + v.len], m2[v.base..v.base + v.len];
    assert Gather(m1, iov)[..v.len] == h1 && Gather(m2, iov)[..v.len] == h2;
    assert Gather(m1, iov)[v.len..] == Gather(m1, iov[1..]);
    assert Gather(m2, iov)[v.len..] == Gather(m2, iov[1..]);
    if j == 0 {
      assert h1[a - v.base] == h2[a - v.base];
    } else {
      GatherDetermines(m1, m2, iov[1..], j - 1, a);
    }
  }

  // ---- Keeping the base of a partially written buffer ----

  /** Memory after the unwritten rest of `v` has been moved down to its base. */
  function Shifted(mem: seq<byte>, v: IoVec, written: nat): (r: seq<byte>)
    requires Inside(|mem|, v) && written <= v.len
    ensures |r| == |mem|
  {
    mem[..v.base] + mem[v.base + written..v.base + v.len] + mem[v.base + v.len - written..]
  }

  lemma {:induction false} ShiftedAt(mem: seq<byte>, v: IoVec, written: nat, a: nat)
    requires Inside(|mem|, v) && written <= v.len && a < |mem|
    ensures Shifted(mem, v, written)[a] == if v.base <= a < v.base + v.len - written then mem[a + written] else mem[a]
  {
    var low, mid, high := mem[..v.base], mem[v.base + written..v.base + v.len], mem[v.base + v.len - written..];
    if a < v.base {
      assert (low + mid + high)[a] == low[a];
    } else if a < v.base + v.len - written {
      assert (low + mid + high)[a] == mid[a - v.base];
    } else {
      assert (low + mid + high)[a] == high[a - (v.base + v.len - written)];
    }
  }

  /** Moving the rest of `v` down to its base never overwrites a byte that `w` points at. */
  predicate Spares(v: IoVec, w: IoVec) {
    v.len <= 1 || w.len == 0 || v.base + v.len - 1 <= w.base || w.base + w.len <= v.base
  }

  /** Every buffer whose base must not move spares the buffers after it. */
  predicate KeepSafe(iov: seq<IoVec>, keep: seq<bool>) {
    |keep| == |iov| && forall i, j :: 0 <= i < j < |iov| && keep[i] ==> Spares(iov[i], iov[j])
  }

  lemma {:induction false} ShiftConserves(mem: seq<byte>, v: IoVec, rest: seq<IoVec>, written: nat)
    requires AllInside(|mem|, rest) && Inside(|mem|, v) && 0 < written <= v.len
    requires forall j :: 0 <= j < |rest| ==> Spares(v, rest[j])
    ensures Gather(Shifted(mem, v, written), [IoVec(v.base, v.len - written)] + rest)
         == mem[v.base + written..v.base + v.len] + Gather(mem, rest)
  {
    var m' := Shifted(mem, v, written);
    var iov' := [IoVec(v.base, v.len - written)] + rest;
    assert iov'[1..] == rest;
    forall i, a | 0 <= i < |rest| && rest[i].base <= a < rest[i].base + rest[i].len
      ensures mem[a] == m'[a]
    {
      assert Spares(v, rest[i]);
    }
    GatherFrame(mem, m', rest);
    assert m'[v.base..v.base + (v.len - written)] == mem[v.base + written..v.base + v.len];
  }

  /** Moving the rest of `v` down leaves what is still to be sent unchanged, for this memory and count. */
  predicate ShiftKeepsPending(mem: seq<byte>, v: IoVec, rest: seq<IoVec>, written: nat)
    requires AllInside(|mem|, rest) && Inside(|mem|, v) && written <= v.len
  {
    Gather(Shifted(mem, v, written), [IoVec(v.base, v.len - written)] + rest)
      == mem[v.base + written..v.base + v.len] + Gather(mem, rest)
  }

  /**
   * The exact condition under which keeping the base is harmless: for every memory content and every
   * partial write the pending bytes survive if and only if the buffer spares all later ones.
   */
  lemma {:induction false} ShiftConservesIff(size: nat, v: IoVec, rest: seq<IoVec>)
    requires AllInside(size, rest) && Inside(size, v)
    ensures (forall mem: seq<byte>, written: nat {:trigger ShiftKeepsPending(mem, v, rest, written)} ::
               |mem| == size && 0 < written <= v.len ==> ShiftKeepsPending(mem, v, rest, written))
            <==> (forall j :: 0 <= j < |rest| ==> Spares(v, rest[j]))
  {
    if forall j :: 0 <= j < |rest| ==> Spares(v, rest[j]) {
      forall mem: seq<byte>, written: nat | |mem| == size && 0 < written <= v.len
        ensures ShiftKeepsPending(mem, v, rest, written)
      {
        ShiftConserves(mem, v, rest, written);
      }
    } else {
      var j :| 0 <= j < |rest| && !Spares(v, rest[j]);
      var mem := ClobberedByShift(size, v, rest, j);
      assert !ShiftKeepsPending(mem, v, rest, 1);
    }
  }

  /** A memory whose pending bytes are corrupted when one byte of `v` has been written. */
  lemma {:induction false} ClobberedByShift(size: nat, v: IoVec, rest: seq<IoVec>, j: nat) returns (mem: seq<byte>)
    requires AllInside(size, rest) && Inside(size, v)
    requires j < |rest| && !Spares(v, rest[j])
    ensures |mem| == size && !ShiftKeepsPending(mem, v, rest, 1)
  {
    var w := rest[j];
    var a := if v.base <= w.base then w.base else v.base;
    mem := seq(size, i => if i == a + 1 then 1 else 0);
    var m' := Shifted(mem, v, 1);
    ShiftedAt(mem, v, 1, a);
    assert m'[a] == 1 && mem[a] == 0;
    if ShiftKeepsPending(mem, v, rest, 1) {
      var iov' := [IoVec(v.base, v.len - 1)] + rest;
      assert iov'[1..] == rest;
      assert Gather(m', iov')[v.len - 1..] == Gather(m', rest);
      assert (mem[v.base + 1..v.base + v.len] + Gather(mem, rest))[v.len - 1..] == Gather(mem, rest);
      GatherDetermines(mem, m', rest, j, a);
    }
  }

  // ---- What a script makes of a message ----

  /** The answer of the next system call when `room` bytes are offered, and the script after it. */
  function Answer(script: seq<Outcome>, room: nat): Outcome {
    if script == [] then Failed
    else if script[0].Wrote? && script[0].n > room then Wrote(room)
    else script[0]
  }

  function Later(script: seq<Outcome>): seq<Outcome> {
    if script == [] then [] else script[1..]
  }

  datatype Stop = Complete | Blocked | Error

  /** How a call ends: why it stops, with how many bytes sent, and the script then left. */
  datatype Fate = Fate(stop: Stop, sent: nat, script: seq<Outcome>)

  /** The end of a call that has sent `sent` of `total` bytes, from the answers to come. */
  function FateOf(script: seq<Outcome>, total: nat, sent: nat, canDefer: bool, isStream: bool): Fate
    requires sent < total
    decreases |script|
  {
    var o, rest := Answer(script, total - sent), Later(script);
    match o
    case Failed => Fate(Error, sent, rest)
    case TryLater => Fate(if canDefer then Blocked else Error, sent, rest)
    case Interrupted => FateOf(rest, total, sent, canDefer, isStream)
    case Wrote(n) =>
      if sent + n == total then Fate(Complete, total, rest)
      else if n > 0 && canDefer && isStream then Fate(Blocked, sent + n, rest)
      else FateOf(rest, total, sent + n, canDefer, isStream)
  }

  /** The call, with `sent` bytes sent and `script` left, is going to end with `f`. */
  ghost predicate HeadsFor(script: seq<Outcome>, total: nat, sent: nat, canDefer: bool, isStream: bool, f: Fate) {
    sent < total && FateOf(script, total, sent, canDefer, isStream) == f
  }

  /** What the next answer means for the end of the call. */
  lemma {:induction false} FateStep(script: seq<Outcome>, total: nat, sent: nat, canDefer: bool, isStream: bool,
                                    f: Fate, o: Outcome, rest: seq<Outcome>)
    requires HeadsFor(script, total, sent, canDefer, isStream, f)
    requires o == Answer(script, total - sent) && rest == Later(script)
    ensures o.Failed? ==> f == Fate(Error, sent, rest)
    ensures !o.Failed? ==> |rest| < |script|
    ensures o.TryLater? ==> f == Fate(if canDefer then Blocked else Error, sent, rest)
    ensures o.Interrupted? ==> HeadsFor(rest, total, sent, canDefer, isStream, f)
    ensures o.Wrote? ==> sent + o.n <= total
    ensures o.Wrote? && sent + o.n == total ==> f == Fate(Complete, total, rest)
    ensures o.Wrote? && 0 < o.n < total - sent ==>
      if canDefer && isStream then f == Fate(Blocked, sent + o.n, rest)
      else HeadsFor(rest, total, sent + o.n, canDefer, isStream, f)
    ensures o.Wrote? && o.n == 0 ==> HeadsFor(rest, total, sent, canDefer, isStream, f)
  {
  }

  lemma {:induction false} FateBounds(script: seq<Outcome>, total: nat, sent: nat, canDefer: bool, isStream: bool,
                                      f: Fate)
    requires HeadsFor(script, total, sent, canDefer, isStream, f)
    ensures sent <= f.sent <= total && (f.stop == Complete <==> f.sent == total) && (f.stop == Blocked ==> canDefer)
    decreases |script|
  {
    var o, rest := Answer(script, total - sent), Later(script);
    FateStep(script, total, sent, canDefer, isStream, f, o, rest);
    if HeadsFor(rest, total, sent, canDefer, isStream, f) && !o.Failed? {
      FateBounds(rest, total, sent, canDefer, isStream, f);
    } else if o.Wrote? && HeadsFor(rest, total, sent + o.n, canDefer, isStream, f) {
      FateBounds(rest, total, sent + o.n, canDefer, isStream, f);
    }
  }

  /** What a call with a message returns, as the script decides it. */
  ghost predicate Returns(script: seq<Outcome>, total: nat, canDefer: bool, isStream: bool, ret: int, sent: nat,
                          rest: seq<Outcome>)
  {
    total > 0 ==>
      var f := FateOf(script, total, 0, canDefer, isStream);
      ret == (if f.stop == Error then -1 else f.sent) && sent == f.sent && rest == f.script
  }

  /** The bytes a script takes before the first answer that stops a call. */
  function Supply(script: seq<Outcome>): nat {
    if script == [] || script[0].Failed? || script[0].TryLater? then 0
    else (if script[0].Wrote? then script[0].n else 0) + Supply(script[1..])
  }

  /** That answer. */
  function FirstStop(script: seq<Outcome>): Outcome {
    if script == [] then Failed
    else if script[0].Failed? || script[0].TryLater? then script[0]
    else FirstStop(script[1..])
  }

  /**
   * A call that goes on after short writes completes exactly when the script takes enough bytes before it stops it;
   * otherwise all those bytes are sent, and it defers exactly when it can and the answer that stops it is to try later.
   */
  lemma {:induction false} FateIs(script: seq<Outcome>, total: nat, sent: nat, canDefer: bool, isStream: bool)
    requires sent < total && !(canDefer && isStream)
    ensures var f := FateOf(script, total, sent, canDefer, isStream);
            if sent + Supply(script) >= total then f.stop == Complete && f.sent == total
            else
              && f.sent == sent + Supply(script)
              && f.stop == if FirstStop(script) == TryLater && canDefer then Blocked else Error
    decreases |script|
  {
    if script != [] {
      match script[0] {
        case Failed =>
        case TryLater =>
        case Interrupted =>
          FateIs(script[1..], total, sent, canDefer, isStream);
        case Wrote(n) =>
          if sent + n < total {
            FateIs(script[1..], total, sent + n, canDefer, isStream);
          }
      }
    }
  }

  /** The bytes a script takes before it fails for good, however often a call has to try later. */
  function Capacity(script: seq<Outcome>): nat {
    if script == [] || script[0].Failed? then 0
    else (if script[0].Wrote? then script[0].n else 0) + Capacity(script[1..])
  }

  /** What one call that can defer leaves of that: it fails only when the script has taken all it can. */
  lemma {:induction false} FateCapacity(script: seq<Outcome>, total: nat, sent: nat, isStream: bool)
    requires sent < total
    ensures var f := FateOf(script, total, sent, true, isStream);
            && sent <= f.sent <= total && (f.stop == Complete <==> f.sent == total)
            && (f.stop == Complete ==> sent + Capacity(script) >= total)
            && (f.stop == Blocked ==> sent + Capacity(script) == f.sent + Capacity(f.script) && |f.script| < |script|)
            && (f.stop == Error ==> sent + Capacity(script) == f.sent)
    decreases |script|
  {
    if script != [] {
      match script[0] {
        case Failed =>
        case TryLater =>
        case Interrupted =>
          FateCapacity(script[1..], total, sent, isStream);
        case Wrote(n) =>
          if sent + n < total && !(n > 0 && isStream) {
            FateCapacity(script[1..], total, sent + n, isStream);
          }
      }
    }
  }

  // ---- Stream sockets ----

  class Socket {
    var script: seq<Outcome>
    var delivered: seq<byte>

    constructor (script: seq<Outcome>)
      ensures this.script == script && delivered == []
    {
      this.script := script;
      delivered := [];
    }

    /** The writev system call: it transfers a prefix of the gathered bytes or fails transferring none. */
    method SysWritev(mem: array<byte>, iov: seq<IoVec>) returns (o: Outcome)
      requires AllInside(mem.Length, iov)
      modifies this
      ensures o == Answer(old(script), Total(iov)) && script == Later(old(script))
      ensures o.Wrote? ==> o.n <= Total(iov) && delivered == old(delivered) + Gather(mem[..], iov)[..o.n]
      ensures !o.Wrote? ==> delivered == old(delivered)
    {
      if script == [] {
        return Failed;
      }
      o := script[0];
      script := script[1..];
      if o.Wrote? {
        var bytes := Gather(mem[..], iov);
        o := Wrote(if o.n <= |bytes| then o.n else |bytes|);
        delivered := delivered + bytes[..o.n];
      }
    }
  }

  /** Vector `w` is what a call may leave of vector `v`. */
  predicate Remains(v: IoVec, w: IoVec, keep: bool) {
    v.base <= w.base && w.base + w.len <= v.base + v.len && (keep ==> w.base == v.base)
  }

  predicate AllRemain(before: seq<IoVec>, after: seq<IoVec>, keep: seq<bool>) {
    |before| == |after| == |keep| && forall i :: 0 <= i < |before| ==> Remains(before[i], after[i], keep[i])
  }

  lemma {:induction false} RemainsSafe(before: seq<IoVec>, after: seq<IoVec>, keep: seq<bool>, size: nat)
    requires AllInside(size, before) && AllRemain(before, after, keep)
    ensures AllInside(size, after)
    ensures KeepSafe(before, keep) ==> KeepSafe(after, keep)
  {
    forall i | 0 <= i < |after| ensures Inside(size, after[i]) {
      assert Remains(before[i], after[i], keep[i]) && Inside(size, before[i]);
    }
    if KeepSafe(before, keep) {
      forall i, j | 0 <= i < j < |after| && keep[i] ensures Spares(after[i], after[j]) {
        assert Spares(before[i], before[j]);
        assert Remains(before[i], after[i], keep[i]) && Remains(before[j], after[j], keep[j]);
      }
    }
  }

  // ---- The cursor ----

  /** Skipping `wrote` bytes from vector `start` is the same as skipping `written` bytes from vector `cur`. */
  ghost predicate Skips(mem: seq<byte>, iov: seq<IoVec>, start: nat, wrote: nat, cur: nat, written: nat) {
    && start <= cur < |iov|
    && AllInside(|mem|, iov)
    && wrote < Total(iov[start..]) && written < Total(iov[cur..])
    && Gather(mem, iov[start..])[wrote..] == Gather(mem, iov[cur..])[written..]
  }

  lemma {:induction false} SkipOne(mem: seq<byte>, iov: seq<IoVec>, start: nat, wrote: nat, cur: nat, written: nat)
    requires Skips(mem, iov, start, wrote, cur, written)
    requires written >= iov[cur].len
    ensures Skips(mem, iov, start, wrote, cur + 1, written - iov[cur].len)
  {
    GatherFrom(mem, iov, cur);
    var h, t := mem[iov[cur].base..iov[cur].base + iov[cur].len], Gather(mem, iov[cur + 1..]);
    assert (h + t)[written..] == t[written - |h|..];
    assert Total(iov[cur + 1..]) > 0;
  }

  /**
   * The cursor loop shared by both calls: skip the vectors that `wrote` bytes cover.  Because fewer
   * bytes were written than remain, the cursor stays on an existing vector.
   */
  method SkipWritten(piov: seq<IoVec>, start: nat, wrote: nat, ghost mem: seq<byte>) returns (cur: nat, written: nat)
    requires start < |piov| && AllInside(|mem|, piov) && wrote < Total(piov[start..])
    ensures Skips(mem, piov, start, wrote, cur, written) && written < piov[cur].len
  {
    cur, written := start, wrote;
    while written >= piov[cur].len
      invariant Skips(mem, piov, start, wrote, cur, written)
      decreases |piov| - cur
    {
      SkipOne(mem, piov, start, wrote, cur, written);
      written, cur := written - piov[cur].len, cur + 1;
    }
  }

  /** Models the memmove that preserves the base of a partially written buffer. */
  method MoveDown(mem: array<byte>, v: IoVec, written: nat)
    requires Inside(mem.Length, v) && written <= v.len
    modifies mem
    ensures mem[..] == Shifted(old(mem[..]), v, written)
  {
    ghost var m := mem[..];
    forall i | 0 <= i < v.len - written {
      mem[v.base + i] := mem[v.base + written + i];
    }
    forall a | 0 <= a < |m| ensures mem[a] == Shifted(m, v, written)[a] {
      ShiftedAt(m, v, written, a);
      assert v.base <= a < v.base + v.len - written ==>
          mem[v.base + (a - v.base)] == m[v.base + written + (a - v.base)];
    }
  }

  /** What is left of vector `v` after `written` of its bytes have gone out. */
  function Rest(v: IoVec, written: nat, keep: bool): IoVec
    requires written <= v.len
  {
    IoVec(if keep then v.base else v.base + written, v.len - written)
  }

  /** Memory after that. */
  function MemAfter(mem: seq<byte>, v: IoVec, written: nat, keep: bool): (r: seq<byte>)
    requires Inside(|mem|, v) && written <= v.len
    ensures |r| == |mem|
  {
    if keep && written > 0 then Shifted(mem, v, written) else mem
  }

  /** The vectors from the cursor on denote exactly the part of the message that is still to be sent. */
  ghost predicate InFlight(mem: seq<byte>, iov: seq<IoVec>, cur: nat, message: seq<byte>, twritten: nat) {
    && cur < |iov|
    && AllInside(|mem|, iov)
    && twritten < |message|
    && Gather(mem, iov[cur..]) == message[twritten..]
  }

  lemma {:induction false} AdvanceConserves(mem: seq<byte>, iov: seq<IoVec>, cur: nat, written: nat, keep: bool,
                         message: seq<byte>, twritten: nat)
    requires cur < |iov| && written < iov[cur].len && AllInside(|mem|, iov)
    requires keep ==> forall j :: cur < j < |iov| ==> Spares(iov[cur], iov[j])
    requires twritten < |message| && Gather(mem, iov[cur..])[written..] == message[twritten..]
    ensures InFlight(MemAfter(mem, iov[cur], written, keep), iov[cur := Rest(iov[cur], written, keep)], cur,
                     message, twritten)
  {
    var w, rest := Rest(iov[cur], written, keep), iov[cur + 1..];
    TailReplace(iov, cur, w);
    InsideReplace(|mem|, iov, cur, w);
    GatherTail(mem, iov, cur, written);
    RestGathers(mem, iov[cur], rest, written, keep);
  }

  lemma {:induction false} TailReplace(iov: seq<IoVec>, cur: nat, w: IoVec)
    requires cur < |iov|
    ensures iov[cur := w][cur..] == [w] + iov[cur + 1..]
  {
  }

  /** Shortening a vector, with or without moving its bytes, keeps what it and the later ones gather to. */
  lemma {:induction false} RestGathers(mem: seq<byte>, v: IoVec, rest: seq<IoVec>, written: nat, keep: bool)
    requires AllInside(|mem|, rest) && Inside(|mem|, v) && written <= v.len
    requires forall j :: 0 <= j < |rest| ==> keep ==> Spares(v, rest[j])
    ensures AllInside(|mem|, [Rest(v, written, keep)] + rest)
    ensures Gather(MemAfter(mem, v, written, keep), [Rest(v, written, keep)] + rest)
         == mem[v.base + written..v.base + v.len] + Gather(mem, rest)
  {
    if keep && written > 0 {
      ShiftConserves(mem, v, rest, written);
    } else {
      assert ([Rest(v, written, keep)] + rest)[1..] == rest;
    }
  }

  lemma {:induction false} InsideReplace(size: nat, iov: seq<IoVec>, cur: nat, w: IoVec)
    requires cur < |iov| && AllInside(size, iov) && Inside(size, w)
    ensures AllInside(size, iov[cur := w]) && AllInside(size, iov[cur + 1..])
  {
  }

  lemma {:induction false} GatherTail(mem: seq<byte>, iov: seq<IoVec>, cur: nat, written: nat)
    requires cur < |iov| && AllInside(|mem|, iov) && written <= iov[cur].len
    ensures Gather(mem, iov[cur..])[written..] ==
            mem[iov[cur].base + written..iov[cur].base + iov[cur].len] + Gather(mem, iov[cur + 1..])
  {
    GatherFrom(mem, iov, cur);
    var v, rest := iov[cur], Gather(mem, iov[cur + 1..]);
    var h := mem[v.base..v.base + v.len];
    assert (h + rest)[written..] == h[written..] + rest;
    assert h[written..] == mem[v.base + written..v.base + v.len];
  }

  lemma {:induction false} AdvanceRemains(before: seq<IoVec>, iov: seq<IoVec>, keep: seq<bool>, cur: nat, written: nat,
                                          kept: bool)
    requires AllRemain(before, iov, keep) && cur < |iov| && written <= iov[cur].len
    requires written > 0 && keep[cur] ==> kept
    ensures AllRemain(before, iov[cur := Rest(iov[cur], written, kept)], keep)
  {
    assert Remains(before[cur], iov[cur], keep[cur]);
  }

  // ---- gy_writev ----

  /** What the caller must pass: vectors inside memory and arrays long enough. */
  ghost predicate WritevArgs(mem: array<byte>, piovin: array<IoVec>, iovcnt: int, pending: array?<IoVec>,
                             pbytes: Cell?, baseConst: array?<bool>)
    reads piovin, baseConst
  {
    0 <= iovcnt <= MAX_IOV ==>
      && iovcnt <= piovin.Length
      && AllInside(mem.Length, piovin[..iovcnt])
      && (pending != null ==> iovcnt <= pending.Length)
      && (baseConst != null ==> iovcnt <= baseConst.Length)
  }

  /** Which bases a call must keep: none unless it may defer and is told to. */
  ghost function Keep(pending: array?<IoVec>, pbytes: Cell?, baseConst: array?<bool>, n: nat): (r: seq<bool>)
    requires baseConst != null ==> n <= baseConst.Length
    reads baseConst
    ensures |r| == n
  {
    if pending == null || pbytes == null || baseConst == null then seq(n, i => false) else baseConst[..n]
  }

  /** Models the loop that adds up the vector lengths. */
  method IovecBytes(piov: seq<IoVec>) returns (totallen: nat)
    ensures totallen == Total(piov)
  {
    totallen := 0;
    for i := 0 to |piov|
      invariant totallen + Total(piov[i..]) == Total(piov)
    {
      assert piov[i..][1..] == piov[i + 1..];
      totallen := totallen + piov[i].len;
    }
  }

  /** The vectors handed back: those before the cursor are complete and get length zero. */
  function Left(iov: seq<IoVec>, cur: nat): (r: seq<IoVec>)
    requires cur <= |iov|
    ensures |r| == |iov|
  {
    seq(|iov|, i requires 0 <= i < |iov| => if i < cur then iov[i].(len := 0) else iov[i])
  }

  lemma {:induction false} LeftDenotes(mem: seq<byte>, before: seq<IoVec>, iov: seq<IoVec>, keep: seq<bool>, cur: nat,
                                       message: seq<byte>, twritten: nat)
    requires InFlight(mem, iov, cur, message, twritten) && AllRemain(before, iov, keep)
    ensures AllInside(|mem|, Left(iov, cur)) && Gather(mem, Left(iov, cur)) == message[twritten..]
    ensures AllRemain(before, Left(iov, cur), keep)
  {
    var l := Left(iov, cur);
    forall i | 0 <= i < |l| ensures Inside(|mem|, l[i]) && Remains(before[i], l[i], keep[i]) {
      assert Inside(|mem|, iov[i]) && Remains(before[i], iov[i], keep[i]);
    }
    GatherSkipsEmpty(mem, l, cur);
    assert l[cur..] == iov[cur..];
  }

  /** Models the code at handle_eagain: report the rest to the caller. */
  method HandBack(piov: seq<IoVec>, cur: nat, pending: array<IoVec>)
    requires cur <= |piov| <= pending.Length
    modifies pending
    ensures pending[..|piov|] == Left(piov, cur)
    ensures pending[|piov|..] == old(pending[|piov|..])
  {
    forall i | 0 <= i < |piov| {
      pending[i] := piov[i];
    }
    for i := 0 to cur
      invariant forall k :: 0 <= k < |piov| ==> pending[k] == if k < i then piov[k].(len := 0) else piov[k]
      invariant pending[|piov|..] == old(pending[|piov|..])
    {
      pending[i] := pending[i].(len := 0);
    }
  }

  /** A call has put the first `n` bytes of the message on the wire. */
  ghost predicate Emitted(before: seq<byte>, after: seq<byte>, message: seq<byte>, n: nat) {
    n <= |message| && after == before + message[..n]
  }

  lemma {:induction false} EmitMore(before: seq<byte>, mid: seq<byte>, after: seq<byte>, message: seq<byte>, n: nat,
                                    k: nat)
    requires Emitted(before, mid, message, n)
    requires k <= |message| - n && after == mid + message[n..][..k]
    ensures Emitted(before, after, message, n + k)
  {
    assert message[..n] + message[n..][..k] == message[..n + k];
  }

  /** A deferred call: `ret` bytes went out and the vectors handed back denote exactly the others. */
  ghost predicate Deferred(mem: seq<byte>, before: seq<IoVec>, left: seq<IoVec>, keep: seq<bool>, message: seq<byte>,
                           ret: nat)
  {
    && AllRemain(before, left, keep)
    && AllInside(|mem|, left)
    && ret < |message|
    && Gather(mem, left) == message[ret..]
  }

  /** Everything the loop keeps true of the vectors. */
  ghost predicate Sending(mem: seq<byte>, before: seq<IoVec>, iov: seq<IoVec>, keep: seq<bool>, cur: nat,
                          message: seq<byte>, twritten: nat)
  {
    && InFlight(mem, iov, cur, message, twritten)
    && AllRemain(before, iov, keep)
    && AllInside(|mem|, before)
  }

  /**
   * What there is to send after a step that left `done` bytes sent: the same text, unless a kept base made
   * the step overwrite bytes of later buffers, and then another text of the same length.
   */
  ghost predicate Continues(text: seq<byte>, text': seq<byte>, done: nat, safe: bool) {
    |text'| == |text| && done <= |text| && text'[..done] == text[..done] && (safe ==> text' == text)
  }

  /** The vector at the cursor becomes shorter by what has been written of it. */
  lemma {:induction false} AdvanceTotal(iov: seq<IoVec>, cur: nat, w: IoVec)
    requires cur < |iov| && w.len <= iov[cur].len
    ensures Total(iov[cur := w][cur..]) == Total(iov[cur..]) - (iov[cur].len - w.len)
  {
    assert iov[cur..] == [iov[cur]] + iov[cur + 1..] && iov[cur := w][cur..] == [w] + iov[cur + 1..];
  }

  /** Some text of the right length is in flight whatever the buffers overlap. */
  lemma {:induction false} AdvanceAnyway(mem: seq<byte>, iov: seq<IoVec>, cur: nat, written: nat, keep: bool,
                                         text: seq<byte>, twritten: nat)
    returns (text': seq<byte>)
    requires cur < |iov| && written < iov[cur].len && AllInside(|mem|, iov)
    requires twritten < |text| && Total(iov[cur..]) - written == |text| - twritten
    ensures Continues(text, text', twritten, false)
    ensures InFlight(MemAfter(mem, iov[cur], written, keep), iov[cur := Rest(iov[cur], written, keep)], cur, text',
                     twritten)
  {
    var m', w := MemAfter(mem, iov[cur], written, keep), Rest(iov[cur], written, keep);
    var iov' := iov[cur := w];
    InsideReplace(|mem|, iov, cur, w);
    AdvanceTotal(iov, cur, w);
    text' := text[..twritten] + Gather(m', iov'[cur..]);
  }

  lemma {:induction false} AdvanceStep(mem: seq<byte>, before: seq<IoVec>, iov: seq<IoVec>, keep: seq<bool>, start: nat,
                                       wrote: nat, cur: nat, written: nat, text: seq<byte>, twritten: nat)
    returns (text': seq<byte>)
    requires wrote <= twritten < |text| && Sending(mem, before, iov, keep, start, text, twritten - wrote)
    requires Skips(mem, iov, start, wrote, cur, written) && written < iov[cur].len
    ensures Continues(text, text', twritten, KeepSafe(before, keep))
    ensures var kept := written > 0 && keep[cur];
            Sending(MemAfter(mem, iov[cur], written, kept), before, iov[cur := Rest(iov[cur], written, kept)], keep,
                    cur, text', twritten)
  {
    var kept := written > 0 && keep[cur];
    assert text[twritten - wrote..][wrote..] == text[twritten..];
    if KeepSafe(before, keep) {
      RemainsSafe(before, iov, keep, |mem|);
      text' := text;
      AdvanceConserves(mem, iov, cur, written, kept, text, twritten);
    } else {
      assert |Gather(mem, iov[cur..])[written..]| == |text[twritten..]|;
      text' := AdvanceAnyway(mem, iov, cur, written, kept, text, twritten);
    }
    AdvanceRemains(before, iov, keep, cur, written, kept);
  }

  /** The vector the cursor stops on is shortened, keeping its base in place when it must be kept. */
  method Shorten(mem: array<byte>, piov: seq<IoVec>, cur: nat, written: nat, kept: bool) returns (left: seq<IoVec>)
    requires cur < |piov| && Inside(mem.Length, piov[cur]) && written < piov[cur].len
    requires kept ==> written > 0
    modifies mem
    ensures mem[..] == MemAfter(old(mem[..]), piov[cur], written, kept)
    ensures left == piov[cur := Rest(piov[cur], written, kept)]
  {
    var v := piov[cur];
    if kept {
      MoveDown(mem, v, written);
      left := piov[cur := v.(len := v.len - written)];
    } else {
      left := piov[cur := IoVec(v.base + written, v.len - written)];
    }
  }

  /** The part of the loop after a partial write: move the cursor, then shorten the vector it stops on. */
  method Advance(mem: array<byte>, piov: seq<IoVec>, start: nat, wrote: nat, canDefer: bool, baseConst: array?<bool>,
                 ghost before: seq<IoVec>, ghost keep: seq<bool>, ghost text: seq<byte>, ghost twritten: nat)
    returns (cur: nat, left: seq<IoVec>, ghost text': seq<byte>)
    requires wrote <= twritten < |text| && Sending(mem[..], before, piov, keep, start, text, twritten - wrote)
    requires |piov| == |keep|
    requires baseConst != null ==> |piov| <= baseConst.Length
    requires forall i :: 0 <= i < |keep| ==> keep[i] == (canDefer && baseConst != null && baseConst[i])
    modifies mem
    ensures Continues(text, text', twritten, KeepSafe(before, keep))
    ensures Sending(mem[..], before, left, keep, cur, text', twritten)
    ensures baseConst == null || !canDefer ==> mem[..] == old(mem[..])
  {
    var written;
    cur, written, text' := Locate(piov, start, wrote, mem[..], before, keep, text, twritten);
    var kept := written > 0 && canDefer && baseConst != null && baseConst[cur];
    left := Shorten(mem, piov, cur, written, kept);
  }

  /** The cursor loop, with what it means for the rest of the text. */
  method Locate(piov: seq<IoVec>, start: nat, wrote: nat, ghost mem: seq<byte>, ghost before: seq<IoVec>,
                ghost keep: seq<bool>, ghost text: seq<byte>, ghost twritten: nat)
    returns (cur: nat, written: nat, ghost text': seq<byte>)
    requires wrote <= twritten < |text| && Sending(mem, before, piov, keep, start, text, twritten - wrote)
    ensures cur < |piov| == |keep| && written < piov[cur].len && Inside(|mem|, piov[cur])
    ensures Continues(text, text', twritten, KeepSafe(before, keep))
    ensures var kept := written > 0 && keep[cur];
            Sending(MemAfter(mem, piov[cur], written, kept), before, piov[cur := Rest(piov[cur], written, kept)], keep,
                    cur, text', twritten)
  {
    assert |Gather(mem, piov[start..])| == |text| - (twritten - wrote);
    cur, written := SkipWritten(piov, start, wrote, mem);
    text' := AdvanceStep(mem, before, piov, keep, start, wrote, cur, written, text, twritten);
  }

  /** One system call of the loop. */
  method Transfer(sock: Socket, mem: array<byte>, iov: seq<IoVec>, cur: nat, ghost d0: seq<byte>,
                  ghost message: seq<byte>, ghost twritten: nat)
    returns (o: Outcome)
    requires InFlight(mem[..], iov, cur, message, twritten)
    requires Emitted(d0, sock.delivered, message, twritten)
    modifies sock
    ensures o == Answer(old(sock.script), |message| - twritten) && sock.script == Later(old(sock.script))
    ensures o.Wrote? ==> o.n <= |message| - twritten && Emitted(d0, sock.delivered, message, twritten + o.n)
    ensures !o.Wrote? ==> Emitted(d0, sock.delivered, message, twritten)
  {
    o := sock.SysWritev(mem, iov[cur..]);
    if o.Wrote? {
      EmitMore(d0, old(sock.delivered), sock.delivered, message, twritten, o.n);
    }
  }

  /** Reporting a deferral: the pending count and the vectors of the rest. */
  method Defer(piov: seq<IoVec>, cur: nat, totallen: nat, twritten: nat, pending: array<IoVec>, pbytes: Cell,
               ghost mem: seq<byte>, ghost before: seq<IoVec>, ghost keep: seq<bool>, ghost message: seq<byte>)
    requires Sending(mem, before, piov, keep, cur, message, twritten) && totallen == |message|
    requires |before| == |piov| <= pending.Length
    modifies pending, pbytes
    ensures pbytes.value == totallen - twritten
    ensures Deferred(mem, before, pending[..|before|], keep, message, twritten)
  {
    LeftDenotes(mem, before, piov, keep, cur, message, twritten);
    pbytes.value := totallen - twritten;
    HandBack(piov, cur, pending);
  }

  /** The same, with what it means for what has been sent. */
  method AdvanceText(mem: array<byte>, piov: seq<IoVec>, start: nat, wrote: nat, canDefer: bool,
                     baseConst: array?<bool>, ghost before: seq<IoVec>, ghost keep: seq<bool>, ghost text: seq<byte>,
                     ghost twritten: nat, ghost message: seq<byte>, ghost d0: seq<byte>, ghost d: seq<byte>)
    returns (cur: nat, left: seq<IoVec>, ghost text': seq<byte>)
    requires wrote <= twritten < |text| && Sending(mem[..], before, piov, keep, start, text, twritten - wrote)
    requires |piov| == |keep|
    requires baseConst != null ==> |piov| <= baseConst.Length
    requires forall i :: 0 <= i < |keep| ==> keep[i] == (canDefer && baseConst != null && baseConst[i])
    requires Emitted(d0, d, text, twritten) && Stands(message, text, KeepSafe(before, keep))
    modifies mem
    ensures Sending(mem[..], before, left, keep, cur, text', twritten) && |left| == |keep|
    ensures Emitted(d0, d, text', twritten) && Stands(message, text', KeepSafe(before, keep))
    ensures baseConst == null || !canDefer ==> mem[..] == old(mem[..])
  {
    cur, left, text' := Advance(mem, piov, start, wrote, canDefer, baseConst, before, keep, text, twritten);
    EmitContinues(d0, d, message, text, text', twritten, KeepSafe(before, keep));
  }

  /** What a call sends in place of the message: the message itself when it is safe to keep bases in place. */
  ghost predicate Stands(message: seq<byte>, text: seq<byte>, safe: bool) {
    |text| == |message| && (safe ==> text == message)
  }

  lemma {:induction false} EmitContinues(before: seq<byte>, after: seq<byte>, message: seq<byte>, text: seq<byte>,
                                         text': seq<byte>, done: nat, safe: bool)
    requires Emitted(before, after, text, done) && Continues(text, text', done, safe) && Stands(message, text, safe)
    ensures Emitted(before, after, text', done) && Stands(message, text', safe)
  {
  }

  /** Everything the send loop keeps true. */
  ghost predicate Going(mem: seq<byte>, before: seq<IoVec>, iov: seq<IoVec>, keep: seq<bool>, cur: nat, text: seq<byte>,
                        twritten: nat, message: seq<byte>, d0: seq<byte>, d: seq<byte>)
  {
    && Sending(mem, before, iov, keep, cur, text, twritten) && |iov| == |keep|
    && Emitted(d0, d, text, twritten) && Stands(message, text, KeepSafe(before, keep))
  }

  /** One round of the send loop, which stops it or goes on. */
  method Round(sock: Socket, mem: array<byte>, piov: seq<IoVec>, cur: nat, twritten: nat, totallen: nat, canDefer: bool,
               isStream: bool, baseConst: array?<bool>, ghost iov: seq<IoVec>, ghost keep: seq<bool>,
               ghost text: seq<byte>, ghost message: seq<byte>, ghost d0: seq<byte>, ghost f0: Fate)
    returns (stopped: bool, stop: Stop, left: seq<IoVec>, cur': nat, twritten': nat, ghost text': seq<byte>)
    requires totallen == |message| && Going(mem[..], iov, piov, keep, cur, text, twritten, message, d0, sock.delivered)
    requires HeadsFor(sock.script, totallen, twritten, canDefer, isStream, f0)
    requires baseConst != null ==> |piov| <= baseConst.Length
    requires forall i :: 0 <= i < |keep| ==> keep[i] == (canDefer && baseConst != null && baseConst[i])
    modifies sock, mem
    ensures Emitted(d0, sock.delivered, text', twritten') && Stands(message, text', KeepSafe(iov, keep))
    ensures !stopped || stop == Blocked ==>
      Going(mem[..], iov, left, keep, cur', text', twritten', message, d0, sock.delivered)
    ensures if stopped then f0 == Fate(stop, twritten', sock.script) && (stop == Blocked ==> canDefer)
            else
              && HeadsFor(sock.script, totallen, twritten', canDefer, isStream, f0)
              && |sock.script| < |old(sock.script)|
    ensures baseConst == null || !canDefer ==> mem[..] == old(mem[..])
  {
    ghost var script := sock.script;
    stopped, stop, left, cur', twritten', text' := false, Error, piov, cur, twritten, text;
    var o := Transfer(sock, mem, piov, cur, d0, text, twritten);
    FateStep(script, totallen, twritten, canDefer, isStream, f0, o, sock.script);
    if o.Wrote? && o.n > 0 {
      twritten' := twritten + o.n;
      if twritten' >= totallen {
        stopped, stop := true, Complete;
        return;
      }
      cur', left, text' := AdvanceText(mem, piov, cur, o.n, canDefer, baseConst, iov, keep, text, twritten', message,
                                       d0, sock.delivered);
      if canDefer && isStream {
        stopped, stop := true, Blocked;
      }
    } else if o == TryLater && canDefer {
      stopped, stop := true, Blocked;
    } else if o == Failed || o == TryLater {
      stopped, stop := true, Error;
    }
  }

  /**
   * The send loop of gy_writev, entered with at least one byte to send, up to where it stops.  `text` is what the
   * call sends: the message itself when kept bases spare the later buffers.
   */
  method WritevLoop(sock: Socket, mem: array<byte>, iov: seq<IoVec>, totallen: nat, canDefer: bool, isStream: bool,
                    baseConst: array?<bool>, ghost keep: seq<bool>, ghost message: seq<byte>)
    returns (stop: Stop, piov: seq<IoVec>, cur: nat, twritten: nat, ghost text: seq<byte>)
    requires totallen == |message| > 0 && Sending(mem[..], iov, iov, keep, 0, message, 0)
    requires |iov| == |keep|
    requires baseConst != null ==> |iov| <= baseConst.Length
    requires forall i :: 0 <= i < |keep| ==> keep[i] == (canDefer && baseConst != null && baseConst[i])
    modifies sock, mem
    ensures Stands(message, text, KeepSafe(iov, keep))
    ensures Emitted(old(sock.delivered), sock.delivered, text, twritten)
    ensures Fate(stop, twritten, sock.script) == FateOf(old(sock.script), totallen, 0, canDefer, isStream)
    ensures stop == Blocked ==> canDefer && Sending(mem[..], iov, piov, keep, cur, text, twritten)
    ensures baseConst == null || !canDefer ==> mem[..] == old(mem[..])
  {
    piov, cur, twritten, text, stop := iov, 0, 0, message, Error;
    ghost var d0, m0, f0 := sock.delivered, mem[..], FateOf(sock.script, totallen, 0, canDefer, isStream);
    var stopped := false;
    while !stopped
      invariant Emitted(d0, sock.delivered, text, twritten) && Stands(message, text, KeepSafe(iov, keep))
      invariant !stopped || stop == Blocked ==>
        Going(mem[..], iov, piov, keep, cur, text, twritten, message, d0, sock.delivered)
      invariant if stopped then f0 == Fate(stop, twritten, sock.script) && (stop == Blocked ==> canDefer)
                else HeadsFor(sock.script, totallen, twritten, canDefer, isStream, f0)
      invariant baseConst == null || !canDefer ==> mem[..] == m0
      decreases !stopped, |sock.script|
    {
      stopped, stop, piov, cur, twritten, text :=
        Round(sock, mem, piov, cur, twritten, totallen, canDefer, isStream, baseConst, iov, keep, text, message, d0,
              f0);
    }
  }

  method Writev(sock: Socket, mem: array<byte>, piovin: array<IoVec>, iovcnt: int, pending: array?<IoVec>,
                pbytes: Cell?, isStream: bool, baseConst: array?<bool>)
    returns (ret: int, ghost sent: nat, ghost text: seq<byte>)
    requires WritevArgs(mem, piovin, iovcnt, pending, pbytes, baseConst)
    modifies sock, mem, if pending == null then {} else {pending}, if pbytes == null then {} else {pbytes}
    ensures !(0 <= iovcnt <= 64) ==> ret == -1 && sock.delivered == old(sock.delivered)
    ensures !(0 <= iovcnt <= 64) ==> sock.script == old(sock.script)
    ensures 0 <= iovcnt <= 64 ==>
      var message := old(Gather(mem[..], piovin[..iovcnt]));
      var keep := old(Keep(pending, pbytes, baseConst, iovcnt));
      && Stands(message, text, old(KeepSafe(piovin[..iovcnt], Keep(pending, pbytes, baseConst, iovcnt))))
      && (if ret == -1 then sent < |message| else ret == sent <= |message|)
      && Emitted(old(sock.delivered), sock.delivered, text, sent)
      && (0 <= ret < |message| ==>
            && pending != null && pbytes != null && pbytes.value == |message| - ret
            && Deferred(mem[..], old(piovin[..iovcnt]), pending[..iovcnt], keep, text, ret))
      && (ret < 0 || ret == |message| ==>
            && (pending != null ==> pending[..] == old(pending[..]))
            && (pbytes != null ==> pbytes.value == if |message| == 0 then 0 else old(pbytes.value)))
      && (|message| == 0 ==> ret == 0 && sock.script == old(sock.script))
      && Returns(old(sock.script), |message|, pending != null && pbytes != null, isStream, ret, sent, sock.script)
    ensures baseConst == null || pending == null || pbytes == null ==> mem[..] == old(mem[..])
  {
    text := [];
    if !(0 <= iovcnt <= MAX_IOV) {
      return -1, 0, text;
    }
    var piov := piovin[..iovcnt];
    ghost var before, message, keep := piov, Gather(mem[..], piov), Keep(pending, pbytes, baseConst, iovcnt);
    var totallen := IovecBytes(piov);
    if totallen == 0 {
      if pbytes != null {
        pbytes.value := 0;
      }
      return 0, 0, message;
    }
    assert piov[0..] == piov && message[0..] == message;
    var canDefer := pending != null && pbytes != null;
    var stop, left, cur, twritten;
    stop, left, cur, twritten, text := WritevLoop(sock, mem, piov, totallen, canDefer, isStream, baseConst, keep,
                                                  message);
    FateBounds(old(sock.script), totallen, 0, canDefer, isStream, Fate(stop, twritten, sock.script));
    if stop == Error {
      return -1, twritten, text;
    }
    if stop == Blocked {
      Defer(left, cur, totallen, twritten, pending, pbytes, mem[..], before, keep, text);
    }
    return twritten, twritten, text;
  }

  // ---- gy_pwritev ----

  /** File contents after `bytes` have been written one after the other from `offset` on. */
  function Overlay(content: map<int, byte>, offset: int, bytes: seq<byte>): map<int, byte>
    decreases |bytes|
  {
    if bytes == [] then content else Overlay(content[offset := bytes[0]], offset + 1, bytes[1..])
  }

  /** Byte i lands at offset + i and nothing else changes. */
  lemma {:induction false} OverlayAt(content: map<int, byte>, offset: int, bytes: seq<byte>, a: int)
    ensures var r := Overlay(content, offset, bytes);
            if offset <= a < offset + |bytes| then a in r && r[a] == bytes[a - offset]
            else (a in r <==> a in content) && (a in r ==> r[a] == content[a])
    decreases |bytes|
  {
    if bytes != [] {
      OverlayAt(content[offset := bytes[0]], offset + 1, bytes[1..], a);
    }
  }

  /** Writing two consecutive pieces is writing their concatenation. */
  lemma {:induction false} OverlayCompose(content: map<int, byte>, offset: int, a: seq<byte>, b: seq<byte>)
    ensures Overlay(Overlay(content, offset, a), offset + |a|, b) == Overlay(content, offset, a + b)
    decreases |a|
  {
    if a == [] {
      assert a + b == b;
    } else {
      assert (a + b)[1..] == a[1..] + b;
      OverlayCompose(content[offset := a[0]], offset + 1, a[1..], b);
    }
  }

  class File {
    var script: seq<Outcome>
    var content: map<int, byte>

    constructor (script: seq<Outcome>, content: map<int, byte>)
      ensures this.script == script && this.content == content
    {
      this.script := script;
      this.content := content;
    }

    /** The pwritev system call. */
    method SysPwritev(mem: array<byte>, iov: seq<IoVec>, offset: int) returns (o: Outcome)
      requires AllInside(mem.Length, iov)
      modifies this
      ensures o == Answer(old(script), Total(iov)) && script == Later(old(script))
      ensures o.Wrote? ==> o.n <= Total(iov) && content == Overlay(old(content), offset, Gather(mem[..], iov)[..o.n])
      ensures !o.Wrote? ==> content == old(content)
    {
      if script == [] {
        return Failed;
      }
      o := script[0];
      script := script[1..];
      if o.Wrote? {
        var bytes := Gather(mem[..], iov);
        o := Wrote(if o.n <= |bytes| then o.n else |bytes|);
        content := Overlay(content, offset, bytes[..o.n]);
      }
    }
  }

  /** The first `n` bytes of the message are in the file at `offset`, and nothing else has changed. */
  ghost predicate Stored(before: map<int, byte>, after: map<int, byte>, offset: int, message: seq<byte>, n: nat) {
    n <= |message| && after == Overlay(before, offset, message[..n])
  }

  lemma {:induction false} StoreMore(before: map<int, byte>, mid: map<int, byte>, after: map<int, byte>, offset: int,
                                     message: seq<byte>, n: nat, k: nat)
    requires Stored(before, mid, offset, message, n)
    requires k <= |message| - n && after == Overlay(mid, offset + n, message[n..][..k])
    ensures Stored(before, after, offset, message, n + k)
  {
    OverlayCompose(before, offset, message[..n], message[n..][..k]);
    assert message[..n] + message[n..][..k] == message[..n + k];
  }

  method TransferAt(file: File, mem: array<byte>, iov: seq<IoVec>, cur: nat, offset: int, ghost base: int,
                    ghost c0: map<int, byte>, ghost message: seq<byte>, ghost twritten: nat)
    returns (o: Outcome)
    requires InFlight(mem[..], iov, cur, message, twritten) && offset == base + twritten
    requires Stored(c0, file.content, base, message, twritten)
    modifies file
    ensures o == Answer(old(file.script), |message| - twritten) && file.script == Later(old(file.script))
    ensures o.Wrote? ==> o.n <= |message| - twritten && Stored(c0, file.content, base, message, twritten + o.n)
    ensures !o.Wrote? ==> Stored(c0, file.content, base, message, twritten)
  {
    o := file.SysPwritev(mem, iov[cur..], offset);
    if o.Wrote? {
      StoreMore(c0, old(file.content), file.content, base, message, twritten, o.n);
    }
  }

  /** The part of the loop after a partial write, where bases always move. */
  method AdvanceBases(piov: seq<IoVec>, start: nat, wrote: nat, ghost mem: seq<byte>, ghost before: seq<IoVec>,
                      ghost keep: seq<bool>, ghost message: seq<byte>, ghost twritten: nat)
    returns (cur: nat, left: seq<IoVec>)
    requires wrote <= twritten < |message| && Sending(mem, before, piov, keep, start, message, twritten - wrote)
    requires forall i :: 0 <= i < |keep| ==> !keep[i]
    ensures Sending(mem, before, left, keep, cur, message, twritten)
  {
    var written;
    ghost var text;
    cur, written, text := Locate(piov, start, wrote, mem, before, keep, message, twritten);
    left := piov[cur := IoVec(piov[cur].base + written, piov[cur].len - written)];
  }

  /** Everything the send loop keeps true. */
  ghost predicate Storing(mem: seq<byte>, before: seq<IoVec>, iov: seq<IoVec>, keep: seq<bool>, cur: nat,
                          message: seq<byte>, twritten: nat, c0: map<int, byte>, c: map<int, byte>, base: int,
                          offset: int)
  {
    && Sending(mem, before, iov, keep, cur, message, twritten)
    && Stored(c0, c, base, message, twritten) && offset == base + twritten
  }

  /** One round of the send loop, which stops it or goes on. */
  method RoundAt(file: File, mem: array<byte>, piov: seq<IoVec>, cur: nat, twritten: nat, offset: int, totallen: nat,
                 canDefer: bool, ghost iov: seq<IoVec>, ghost keep: seq<bool>, ghost message: seq<byte>,
                 ghost c0: map<int, byte>, ghost base: int, ghost f0: Fate)
    returns (stopped: bool, stop: Stop, left: seq<IoVec>, cur': nat, twritten': nat, offset': int)
    requires totallen == |message|
    requires Storing(mem[..], iov, piov, keep, cur, message, twritten, c0, file.content, base, offset)
    requires HeadsFor(file.script, totallen, twritten, canDefer, false, f0)
    requires forall i :: 0 <= i < |keep| ==> !keep[i]
    modifies file
    ensures Stored(c0, file.content, base, message, twritten') && offset' == base + twritten'
    ensures !stopped || stop == Blocked ==>
      Storing(mem[..], iov, left, keep, cur', message, twritten', c0, file.content, base, offset')
    ensures if stopped then f0 == Fate(stop, twritten', file.script) && (stop == Blocked ==> canDefer)
            else HeadsFor(file.script, totallen, twritten', canDefer, false, f0) && |file.script| < |old(file.script)|
  {
    ghost var script := file.script;
    stopped, stop, left, cur', twritten', offset' := false, Error, piov, cur, twritten, offset;
    var o := TransferAt(file, mem, piov, cur, offset, base, c0, message, twritten);
    FateStep(script, totallen, twritten, canDefer, false, f0, o, file.script);
    if o.Wrote? && o.n > 0 {
      twritten', offset' := twritten + o.n, offset + o.n;
      if twritten' >= totallen {
        stopped, stop := true, Complete;
        return;
      }
      cur', left := AdvanceBases(piov, cur, o.n, mem[..], iov, keep, message, twritten');
    } else if o == TryLater && canDefer {
      stopped, stop := true, Blocked;
    } else if o == Failed || o == TryLater {
      stopped, stop := true, Error;
    }
  }

  /** The send loop of gy_pwritev, entered with at least one byte to write, up to where it stops. */
  method PwritevLoop(file: File, mem: array<byte>, iov: seq<IoVec>, totallen: nat, offset0: int, canDefer: bool,
                     ghost keep: seq<bool>, ghost message: seq<byte>)
    returns (stop: Stop, piov: seq<IoVec>, cur: nat, twritten: nat, offset: int)
    requires totallen == |message| > 0 && Sending(mem[..], iov, iov, keep, 0, message, 0)
    requires forall i :: 0 <= i < |keep| ==> !keep[i]
    modifies file
    ensures Stored(old(file.content), file.content, offset0, message, twritten) && offset == offset0 + twritten
    ensures Fate(stop, twritten, file.script) == FateOf(old(file.script), totallen, 0, canDefer, false)
    ensures stop == Blocked ==> canDefer && Sending(mem[..], iov, piov, keep, cur, message, twritten)
  {
    piov, cur, twritten, offset, stop := iov, 0, 0, offset0, Error;
    ghost var c0, f0 := file.content, FateOf(file.script, totallen, 0, canDefer, false);
    assert message[..0] == [] && Overlay(c0, offset0, []) == c0;
    var stopped := false;
    while !stopped
      invariant Stored(c0, file.content, offset0, message, twritten) && offset == offset0 + twritten
      invariant !stopped || stop == Blocked ==>
        Storing(mem[..], iov, piov, keep, cur, message, twritten, c0, file.content, offset0, offset)
      invariant if stopped then f0 == Fate(stop, twritten, file.script) && (stop == Blocked ==> canDefer)
                else HeadsFor(file.script, totallen, twritten, canDefer, false, f0)
      decreases !stopped, |file.script|
    {
      stopped, stop, piov, cur, twritten, offset :=
        RoundAt(file, mem, piov, cur, twritten, offset, totallen, canDefer, iov, keep, message, c0, offset0, f0);
    }
  }

  method Pwritev(file: File, mem: array<byte>, piovin: array<IoVec>, iovcnt: int, offset: int, pending: array?<IoVec>,
                 pbytes: Cell?, poff: Cell?)
    returns (ret: int, ghost sent: nat)
    requires WritevArgs(mem, piovin, iovcnt, pending, pbytes, null)
    requires pbytes != null ==> pbytes != poff
    modifies file, if pending == null then {} else {pending}, if pbytes == null then {} else {pbytes},
             if poff == null then {} else {poff}
    ensures !(0 <= iovcnt <= 64) ==> ret == -1 && file.content == old(file.content)
    ensures !(0 <= iovcnt <= 64) ==> file.script == old(file.script)
    ensures 0 <= iovcnt <= 64 ==>
      var message := old(Gather(mem[..], piovin[..iovcnt]));
      && (if ret == -1 then sent < |message| else ret == sent <= |message|)
      && Stored(old(file.content), file.content, offset, message, sent)
      && (0 <= ret < |message| ==>
            && pending != null && pbytes != null && poff != null
            && pbytes.value == |message| - ret && poff.value == offset + ret
            && Deferred(mem[..], old(piovin[..iovcnt]), pending[..iovcnt], seq(iovcnt, i => false), message, ret))
      && (ret < 0 || ret == |message| ==>
            && (pending != null ==> pending[..] == old(pending[..])) && (poff != null ==> poff.value == old(poff.value))
            && (pbytes != null ==> pbytes.value == if |message| == 0 then 0 else old(pbytes.value)))
      && (|message| == 0 ==> ret == 0 && file.script == old(file.script))
      && Returns(old(file.script), |message|, pending != null && pbytes != null && poff != null, false, ret, sent,
                 file.script)
  {
    if !(0 <= iovcnt <= MAX_IOV) {
      return -1, 0;
    }
    var piov := piovin[..iovcnt];
    ghost var before, message, keep := piov, Gather(mem[..], piov), seq(iovcnt, i => false);
    var totallen := IovecBytes(piov);
    if totallen == 0 {
      assert message[..0] == [] && Overlay(file.content, offset, []) == file.content;
      if pbytes != null {
        pbytes.value := 0;
      }
      return 0, 0;
    }
    assert piov[0..] == piov && message[0..] == message;
    assert Sending(mem[..], before, before, keep, 0, message, 0);
    var canDefer := pending != null && pbytes != null && poff != null;
    var stop, left, cur, twritten, off := PwritevLoop(file, mem, piov, totallen, offset, canDefer, keep, message);
    FateBounds(old(file.script), totallen, 0, canDefer, false, Fate(stop, twritten, file.script));
    if stop == Error {
      return -1, twritten;
    }
    if stop == Blocked {
      Defer(left, cur, totallen, twritten, pending, pbytes, mem[..], before, keep, message);
      poff.value := off;
    }
    return twritten, twritten;
  }

  /**
   * A non-blocking write to a file that is resumed from what the last call handed back: the pending vectors, which
   * take the place of the ones passed, and the pending offset.
   */
  class FileWriter {
    const file: File
    const mem: array<byte>
    const iovarr: array<IoVec>
    const niov: nat
    var offset: int
    var left: nat
    ghost var base: int
    ghost var message: seq<byte>
    ghost var before: map<int, byte>

    /** What is stored, from the first offset on, and what is pending make up the message. */
    ghost predicate Valid()
      reads this, file, mem, iovarr
    {
      && niov <= iovarr.Length && niov <= MAX_IOV && AllInside(mem.Length, iovarr[..niov])
      && Underway(mem[..], iovarr[..niov], offset, left, base, message, before, file.content)
    }

    constructor (file: File, mem: array<byte>, iovarr: array<IoVec>, niov: nat, offset: int)
      requires niov <= iovarr.Length && niov <= MAX_IOV && AllInside(mem.Length, iovarr[..niov])
      ensures Valid() && this.file == file && this.mem == mem && this.iovarr == iovarr && this.niov == niov
      ensures base == offset && message == Gather(mem[..], iovarr[..niov]) && before == file.content
      ensures left == |message|
    {
      this.file, this.mem, this.iovarr, this.niov, this.offset := file, mem, iovarr, niov, offset;
      var total := IovecBytes(iovarr[..niov]);
      left := total;
      base, message, before := offset, Gather(mem[..], iovarr[..niov]), file.content;
    }

    /**
     * One more call.  However many calls it takes, byte i of the message is stored at the first offset plus i for
     * all bytes sent so far, and no other byte of the file has changed; at the end all of it is stored.
     */
    method Resume() returns (ret: int, ghost done: nat)
      requires Valid() && left > 0
      modifies this`offset, this`left, file, iovarr
      ensures Stored(before, file.content, base, message, done) && |message| - old(left) <= done
      ensures ret == -1 ==> done < |message| && offset == old(offset) && left == old(left)
      ensures ret != -1 ==> Valid() && done == |message| - left && ret == old(left) - left
      ensures ret != -1 && left == 0 ==> file.content == Overlay(before, base, message)
      ensures Returns(old(file.script), old(left), true, false, ret, done - (|message| - old(left)), file.script)
    {
      var pbytes := new Cell(0);
      var poff := new Cell(0);
      ret, done := PushOut(pbytes, poff);
      if ret == -1 {
        return;
      }
      if pbytes.value > 0 {
        offset, left := poff.value, pbytes.value;
      } else {
        offset, left := offset + left, 0;
        assert message[..|message|] == message;
      }
    }

    /**
     * The write resumed until it is done or fails: the whole message gets stored exactly when the script takes that
     * many bytes before it fails, and otherwise just the bytes it takes.
     */
    method Finish() returns (ok: bool)
      requires Valid()
      modifies this`offset, this`left, file, iovarr
      ensures ok <==> Capacity(old(file.script)) >= old(left)
      ensures if ok then file.content == Overlay(before, base, message)
              else Stored(before, file.content, base, message, |message| - old(left) + Capacity(old(file.script)))
    {
      ghost var enough := |message| - left + Capacity(file.script);
      while left > 0
        invariant Valid() && left <= old(left)
        invariant if left > 0 then |message| - left + Capacity(file.script) == enough else enough >= |message|
        decreases left > 0, |file.script|
      {
        FateCapacity(file.script, left, 0, false);
        var ret, done := Resume();
        if ret == -1 {
          return false;
        }
      }
      assert message[..|message|] == message;
      return true;
    }

    method PushOut(pbytes: Cell, poff: Cell) returns (ret: int, ghost done: nat)
      requires Valid() && left > 0 && pbytes != poff && pbytes.value == 0
      modifies file, iovarr, pbytes, poff
      ensures AllInside(mem.Length, iovarr[..niov])
      ensures Stored(before, file.content, base, message, done) && |message| - left <= done
      ensures ret == -1 ==> done < |message|
      ensures ret != -1 ==> 0 <= pbytes.value <= left && ret == left - pbytes.value && done == |message| - pbytes.value
      ensures ret != -1 ==>
        Underway(mem[..], iovarr[..niov], if pbytes.value > 0 then poff.value else offset + left, pbytes.value, base,
                 message, before, file.content)
      ensures Returns(old(file.script), left, true, false, ret, done - (|message| - left), file.script)
    {
      ghost var iov, c := iovarr[..niov], file.content;
      ghost var sent;
      ret, sent := Pwritev(file, mem, iovarr, niov, offset, iovarr, pbytes, poff);
      done := |message| - left + sent;
      ResumeStep(mem[..], iov, iovarr[..niov], offset, left, base, message, before, c, file.content, sent);
    }
  }

  /** The state of a resumed write: the first bytes are stored and the vectors and the offset denote the others. */
  ghost predicate Underway(mem: seq<byte>, iov: seq<IoVec>, offset: int, left: nat, base: int, message: seq<byte>,
                           before: map<int, byte>, content: map<int, byte>)
    requires AllInside(|mem|, iov)
  {
    && left <= |message| && offset == base + |message| - left
    && Stored(before, content, base, message, |message| - left)
    && (left > 0 ==> Gather(mem, iov) == message[|message| - left..])
  }

  /** One call that stores `sent` bytes of what was left and leaves vectors that gather to the rest of it. */
  lemma {:induction false} ResumeStep(mem: seq<byte>, iov: seq<IoVec>, iov': seq<IoVec>, offset: int, left: nat,
                                      base: int, message: seq<byte>, before: map<int, byte>, mid: map<int, byte>,
                                      after: map<int, byte>, sent: nat)
    requires AllInside(|mem|, iov) && Underway(mem, iov, offset, left, base, message, before, mid) && left > 0
    requires Stored(mid, after, offset, Gather(mem, iov), sent) && AllInside(|mem|, iov')
    ensures Stored(before, after, base, message, |message| - left + sent)
    ensures sent == left ==> Underway(mem, iov', offset + left, 0, base, message, before, after)
    ensures sent < left && Gather(mem, iov') == Gather(mem, iov)[sent..] ==>
      Underway(mem, iov', offset + sent, left - sent, base, message, before, after)
  {
    StoreMore(before, mid, after, base, message, |message| - left, sent);
    assert message[|message| - left..][sent..] == message[|message| - left + sent..];
  }

  // ---- The connection that resumes ----

  /** The largest number of vectors one scheduled message has. */
  const MAX_IOVEC_ARR := 8

  /**
   * The write side of an epoll connection.  `SendDataIovec` runs whenever the socket may take more
   * data; the ghost fields remember the message scheduled and where on the wire it started.
   */
  class Sender {
    const sock: Socket
    const mem: array<byte>
    const iovarr: array<IoVec>
    const mustFree: array<bool>
    const isStream: bool
    var niov: int
    var dataSz: nat
    var closed: bool
    ghost var message: seq<byte>
    ghost var wire: seq<byte>

    /** Nothing is lost, duplicated or reordered: what is on the wire and what is pending make up the message. */
    ghost predicate Valid()
      reads this, sock, mem, iovarr, mustFree
    {
      && iovarr.Length == mustFree.Length == MAX_IOVEC_ARR
      && 0 <= niov <= MAX_IOVEC_ARR
      && Conserved(mem[..], iovarr[..niov], mustFree[..niov], dataSz, sock.delivered, wire, message)
    }

    /** A message is scheduled on an idle connection. */
    constructor (sock: Socket, mem: array<byte>, iovarr: array<IoVec>, mustFree: array<bool>, niov: nat, isStream: bool)
      requires iovarr.Length == mustFree.Length == MAX_IOVEC_ARR && niov <= MAX_IOVEC_ARR
      requires AllInside(mem.Length, iovarr[..niov]) && KeepSafe(iovarr[..niov], mustFree[..niov])
      ensures Valid() && !closed
      ensures this.sock == sock && this.mem == mem && this.iovarr == iovarr && this.mustFree == mustFree
      ensures this.isStream == isStream && iovarr.Length == 8
      ensures message == Gather(mem[..], iovarr[..niov]) && wire == sock.delivered
    {
      this.sock, this.mem, this.iovarr, this.mustFree, this.isStream := sock, mem, iovarr, mustFree, isStream;
      this.niov := niov;
      var total := IovecBytes(iovarr[..niov]);
      dataSz := total;
      closed := false;
      message := Gather(mem[..], iovarr[..niov]);
      wire := sock.delivered;
    }

    /** Some prefix of the message, and nothing else, has reached the wire. */
    ghost predicate PrefixSent()
      reads this, sock
    {
      wire <= sock.delivered <= wire + message
    }

    method SendDataIovec() returns (sret: int, isBlocked: bool)
      requires Valid() && !closed && dataSz > 0
      modifies this`dataSz, this`closed, sock, mem, iovarr
      ensures PrefixSent()
      ensures closed <==> sret == -1
      ensures sret >= 0 ==> Valid() && (isBlocked <==> dataSz > 0) && (!isBlocked ==> sock.delivered == wire + message)
      ensures |old(sock.delivered)| <= |sock.delivered| && (sret >= 0 ==> dataSz == old(dataSz) - sret)
      ensures Returns(old(sock.script), old(dataSz), true, isStream, sret, |sock.delivered| - |old(sock.delivered)|,
                      sock.script)
    {
      var pending := new IoVec[MAX_IOVEC_ARR];
      var pbytes := new Cell(0);
      sret := PushOut(pending, pbytes);
      if sret < 0 {
        closed := true;
        return sret, false;
      }
      isBlocked := pbytes.value > 0;
      if isBlocked {
        TakeBack(pending);
      }
      dataSz := pbytes.value;
    }

    /**
     * The connection served until the message is out or it is closed: the whole message gets out exactly when the
     * script takes that many bytes before it fails, and otherwise just the bytes it takes.
     */
    method Finish() returns (ok: bool)
      requires Valid() && !closed
      modifies this`dataSz, this`closed, sock, mem, iovarr
      ensures ok <==> Capacity(old(sock.script)) >= old(dataSz)
      ensures if ok then !closed && sock.delivered == wire + message
              else closed && PrefixSent() && |sock.delivered| == |old(sock.delivered)| + Capacity(old(sock.script))
    {
      ghost var enough := |sock.delivered| + Capacity(sock.script);
      while dataSz > 0
        invariant Valid() && !closed
        invariant |sock.delivered| + dataSz == |wire| + |message|
        invariant if dataSz > 0 then |sock.delivered| + Capacity(sock.script) == enough
                  else enough >= |wire| + |message|
        decreases dataSz > 0, |sock.script|
      {
        FateCapacity(sock.script, dataSz, 0, isStream);
        var sret, isBlocked := SendDataIovec();
        if sret < 0 {
          return false;
        }
      }
      return true;
    }

    /** The system call and what it leaves to do: the pending vectors, or nothing. */
    method PushOut(pending: array<IoVec>, pbytes: Cell) returns (sret: int)
      requires Valid() && dataSz > 0 && pending.Length == MAX_IOVEC_ARR && pending != iovarr && pbytes.value == 0
      modifies sock, mem, pending, pbytes
      ensures PrefixSent() && sret >= -1 && pbytes.value >= 0
      ensures sret >= 0 ==>
        Conserved(mem[..], if pbytes.value > 0 then pending[..niov] else iovarr[..niov], mustFree[..niov], pbytes.value,
                  sock.delivered, wire, message)
      ensures |old(sock.delivered)| <= |sock.delivered| && (sret >= 0 ==> pbytes.value == dataSz - sret)
      ensures Returns(old(sock.script), dataSz, true, isStream, sret, |sock.delivered| - |old(sock.delivered)|,
                      sock.script)
    {
      ghost var m0, d0, iov, keep := mem[..], sock.delivered, iovarr[..niov], mustFree[..niov];
      ghost var sent, text;
      assert Keep(pending, pbytes, mustFree, niov) == keep;
      sret, sent, text := Writev(sock, mem, iovarr, niov, pending, pbytes, isStream, mustFree);
      PartSent(m0, iov, keep, dataSz, d0, sock.delivered, wire, message, sent);
      if sret >= 0 {
        if pbytes.value > 0 {
          RestPending(m0, mem[..], iov, pending[..niov], keep, dataSz, d0, sock.delivered, wire, message, sret);
        } else {
          AllSent(m0, mem[..], iov, keep, dataSz, d0, sock.delivered, wire, message);
        }
      }
    }

    /** Models the copy of the pending vectors over the scheduled ones. */
    method TakeBack(pending: array<IoVec>)
      requires 0 <= niov <= iovarr.Length && niov <= pending.Length && pending != iovarr
      modifies iovarr
      ensures iovarr[..niov] == pending[..niov]
    {
      forall i | 0 <= i < niov {
        iovarr[i] := pending[i];
      }
    }
  }

  /** The bytes still scheduled. */
  ghost function Scheduled(mem: seq<byte>, iov: seq<IoVec>, dataSz: nat): seq<byte>
    requires AllInside(|mem|, iov)
  {
    if dataSz == 0 then [] else Gather(mem, iov)
  }

  ghost predicate Conserved(mem: seq<byte>, iov: seq<IoVec>, keep: seq<bool>, dataSz: nat, delivered: seq<byte>,
                            wire: seq<byte>, message: seq<byte>)
  {
    && AllInside(|mem|, iov) && KeepSafe(iov, keep)
    && |wire| <= |delivered|
    && |Scheduled(mem, iov, dataSz)| == dataSz
    && delivered + Scheduled(mem, iov, dataSz) == wire + message
  }

  lemma {:induction false} PartSent(mem: seq<byte>, iov: seq<IoVec>, keep: seq<bool>, dataSz: nat, before: seq<byte>,
                                    after: seq<byte>, wire: seq<byte>, message: seq<byte>, sent: nat)
    requires Conserved(mem, iov, keep, dataSz, before, wire, message) && dataSz > 0
    requires Emitted(before, after, Gather(mem, iov), sent)
    ensures after + Gather(mem, iov)[sent..] == wire + message && wire <= after <= wire + message
  {
    SplitOff(before, Gather(mem, iov), wire, message, sent);
  }

  lemma {:induction false} SplitOff(before: seq<byte>, todo: seq<byte>, wire: seq<byte>, message: seq<byte>, sent: nat)
    requires before + todo == wire + message && |wire| <= |before| && sent <= |todo|
    ensures before + todo[..sent] + todo[sent..] == wire + message
    ensures wire <= before + todo[..sent] <= wire + message
  {
    assert todo[..sent] + todo[sent..] == todo;
    assert before + todo[..sent] + todo[sent..] == before + (todo[..sent] + todo[sent..]);
    assert before + todo[..sent] == (wire + message)[..|before| + sent];
    assert (wire + message)[..|wire|] == wire;
  }

  lemma {:induction false} AllSent(mem: seq<byte>, mem': seq<byte>, iov: seq<IoVec>, keep: seq<bool>, dataSz: nat,
                                   before: seq<byte>, after: seq<byte>, wire: seq<byte>, message: seq<byte>)
    requires |mem| == |mem'| && Conserved(mem, iov, keep, dataSz, before, wire, message) && dataSz > 0
    requires Emitted(before, after, Gather(mem, iov), dataSz)
    ensures Conserved(mem', iov, keep, 0, after, wire, message)
  {
    PartSent(mem, iov, keep, dataSz, before, after, wire, message, dataSz);
  }

  lemma {:induction false} RestPending(mem: seq<byte>, mem': seq<byte>, iov: seq<IoVec>, iov': seq<IoVec>,
                                       keep: seq<bool>, dataSz: nat, before: seq<byte>, after: seq<byte>,
                                       wire: seq<byte>, message: seq<byte>, sent: nat)
    requires |mem| == |mem'| && Conserved(mem, iov, keep, dataSz, before, wire, message) && dataSz > 0
    requires Emitted(before, after, Gather(mem, iov), sent) && Deferred(mem', iov, iov', keep, Gather(mem, iov), sent)
    ensures Conserved(mem', iov', keep, |Gather(mem, iov)| - sent, after, wire, message)
  {
    RemainsSafe(iov, iov', keep, |mem|);
    PartSent(mem, iov, keep, dataSz, before, after, wire, message, sent);
  }
}
