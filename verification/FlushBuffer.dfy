/**
 * The fixed-size string buffer that hands its contents to a callback when the next append does not fit.
 */
module FlushBuffer {
  import opened Bytes

  /** One call of the overflow callback. */
  datatype Flush = Flush(text: seq<byte>, isTrunc: bool, newUpdates: bool)

  /** The overflow callback: it answers as its owner likes, and what it accepts it has taken over. */
  class Sink {
    const answer: nat -> bool
    var log: seq<Flush>
    var accepted: seq<byte>

    constructor (answer: nat -> bool)
      ensures this.answer == answer && log == [] && accepted == []
    {
      this.answer := answer;
      log, accepted := [], [];
    }

    method Overflow(text: seq<byte>, isTrunc: bool, newUpdates: bool) returns (ok: bool)
      modifies this
      ensures ok == answer(|old(log)|)
      ensures log == old(log) + [Flush(text, isTrunc, newUpdates)]
      ensures accepted == if ok then old(accepted) + text else old(accepted)
    {
      ok := answer(|log|);
      log := log + [Flush(text, isTrunc, newUpdates)];
      if ok {
        accepted := accepted + text;
      }
    }
  }

  function Min(a: nat, b: nat): nat {
    if a <= b then a else b
  }

  /** What fits into `n` bytes. */
  function Cut(s: seq<byte>, n: nat): seq<byte> {
    s[..Min(n, |s|)]
  }

  /** What the buffer holds must go before `n` more bytes are copied in. */
  predicate MustFlush(held: nat, n: nat, maxsz: nat) {
    held >= maxsz || (held > 0 && held + n >= maxsz)
  }

  /** The callback is offered `f` if that is `due`, and what it takes leaves the buffer. */
  ghost predicate Offered(answer: nat -> bool, due: bool, f: Flush, log: seq<Flush>, ok: bool, log': seq<Flush>,
                          content': seq<byte>)
  {
    if due then ok == answer(|log|) && log' == log + [f] && content' == if ok then [] else f.text
    else ok && log' == log && content' == f.text
  }

  /**
   * What an append does.  What the buffer holds is offered first when the input does not fit behind it with room to
   * spare, and if that is refused nothing is taken.  An input that fills the buffer is then offered too, flagged as
   * cut off when it is longer than the buffer.
   */
  ghost predicate AppendDone(answer: nat -> bool, maxsz: nat, s: seq<byte>, log: seq<Flush>, content: seq<byte>,
                             taken: seq<byte>, ok: bool, log': seq<Flush>, content': seq<byte>, taken': seq<byte>)
  {
    var first := Flush(content, false, false);
    var due := MustFlush(|content|, |s|, maxsz);
    if due && !answer(|log|) then !ok && log' == log + [first] && content' == content && taken' == taken
    else
      var log1 := if due then log + [first] else log;
      var full := if due then Cut(s, maxsz) else content + Cut(s, maxsz);
      && taken' == taken + Cut(s, maxsz)
      && Offered(answer, |s| >= maxsz, Flush(full, |s| > maxsz, true), log1, ok, log', content')
  }

  lemma {:induction false} Appends(answer: nat -> bool, maxsz: nat, s: seq<byte>, log: seq<Flush>, content: seq<byte>,
                                   taken: seq<byte>, log1: seq<Flush>, c1: seq<byte>, c2: seq<byte>, ok: bool,
                                   log': seq<Flush>, content': seq<byte>, taken': seq<byte>)
    requires |content| <= maxsz && |c1| <= maxsz
    requires Offered(answer, MustFlush(|content|, |s|, maxsz), Flush(content, false, false), log, true, log1, c1)
    requires c2 == c1 + Cut(s, maxsz - |c1|) && taken' == taken + Cut(s, maxsz - |c1|)
    requires Offered(answer, |c2| >= maxsz, Flush(c2, |s| > maxsz, true), log1, ok, log', content')
    ensures AppendDone(answer, maxsz, s, log, content, taken, ok, log', content', taken')
  {
    assert Cut(s, maxsz - |c1|) == Cut(s, maxsz);
    assert [] + Cut(s, maxsz) == Cut(s, maxsz);
  }

  /** The callback says yes to its calls from number `lo` up to `hi`. */
  predicate AllYes(answer: nat -> bool, lo: nat, hi: nat) {
    forall i :: lo <= i < hi ==> answer(i)
  }

  lemma {:induction false} AllYesMore(answer: nat -> bool, lo: nat, mid: nat, hi: nat)
    requires lo <= mid <= hi
    ensures AllYes(answer, lo, hi) <==> AllYes(answer, lo, mid) && AllYes(answer, mid, hi)
  {
  }

  class StrWrBuf {
    const maxsz: nat
    const buf: array<byte>
    const sink: Sink
    var currsz: nat
    /** Everything the appends have taken so far. */
    ghost var taken: seq<byte>

    ghost function Content(): seq<byte>
      reads this, buf
      requires currsz <= buf.Length
    {
      buf[..currsz]
    }

    /** The buffer is a terminated string, and nothing taken has been lost, repeated or reordered. */
    ghost predicate Valid()
      reads this, buf, sink
    {
      && buf.Length == maxsz + 1 && currsz <= maxsz
      && buf[currsz] == NUL
      && sink.accepted + Content() == taken
    }

    constructor (size: nat, sink: Sink)
      requires size > 0
      ensures Valid() && this.sink == sink && maxsz == size - 1 && currsz == 0 && taken == sink.accepted && fresh(buf)
    {
      maxsz := size - 1;
      buf := new byte[size](_ => NUL);
      this.sink := sink;
      currsz := 0;
      taken := sink.accepted;
      new;
      assert buf[..0] == [];
    }

    /** Offers the contents to the callback and, if it takes them, empties the buffer. */
    method FlushAll(isTrunc: bool, newUpdates: bool) returns (ok: bool)
      requires Valid()
      modifies this`currsz, buf, sink
      ensures Valid() && ok == sink.answer(|old(sink.log)|)
      ensures sink.log == old(sink.log) + [Flush(old(Content()), isTrunc, newUpdates)]
      ensures Content() == if ok then [] else old(Content())
    {
      ok := sink.Overflow(buf[..currsz], isTrunc, newUpdates);
      if ok {
        currsz := 0;
        buf[0] := NUL;
        assert sink.accepted + [] == sink.accepted && buf[..0] == [];
      } else {
        assert Content() == old(Content());
      }
    }

    /** Copies as much as fits behind the contents. */
    method CopyIn(s: seq<byte>)
      requires Valid()
      modifies this`currsz, this`taken, buf
      ensures Valid() && taken == old(taken) + Cut(s, maxsz - old(currsz))
      ensures Content() == old(Content()) + Cut(s, maxsz - old(currsz))
    {
      var sz := Min(maxsz - currsz, |s|);
      forall i | 0 <= i < sz {
        buf[currsz + i] := s[i];
      }
      currsz := currsz + sz;
      buf[currsz] := NUL;
      taken := taken + s[..sz];
      assert Content() == old(Content()) + s[..sz];
      assert sink.accepted + (old(Content()) + s[..sz]) == sink.accepted + old(Content()) + s[..sz];
    }

    /** The part of the call before the copy. */
    method MakeRoom(n: nat) returns (ok: bool, isTrunc: bool)
      requires Valid()
      modifies this`currsz, buf, sink
      ensures Valid() && isTrunc == (n > maxsz) && (ok <==> AllYes(sink.answer, |old(sink.log)|, |sink.log|))
      ensures Offered(sink.answer, MustFlush(old(currsz), n, maxsz), Flush(old(Content()), false, false), old(sink.log),
                      ok, sink.log, Content())
    {
      isTrunc := n > maxsz;
      if currsz >= maxsz {
        ok := FlushAll(false, false);
        if !ok {
          return;
        }
      }
      if n >= maxsz - currsz && currsz > 0 {
        ok := FlushAll(false, false);
        if !ok {
          return;
        }
      }
      ok := true;
    }

    /**
     * appendcb.  The call succeeds exactly when every answer is yes, and has then taken the whole of `s` (its first
     * `maxsz` bytes if it is longer).
     */
    method AppendCb(s: seq<byte>) returns (ok: bool)
      requires Valid()
      modifies this`currsz, this`taken, buf, sink
      ensures Valid() && (ok <==> AllYes(sink.answer, |old(sink.log)|, |sink.log|))
      ensures AppendDone(sink.answer, maxsz, s, old(sink.log), old(Content()), old(taken), ok, sink.log, Content(),
                         taken)
      ensures ok && maxsz > 0 ==> currsz < maxsz
    {
      ghost var c0, log0 := Content(), sink.log;
      var isTrunc;
      ok, isTrunc := MakeRoom(|s|);
      if !ok {
        return;
      }
      ghost var c1, log1 := Content(), sink.log;
      CopyIn(s);
      ghost var c2 := Content();
      ok := FlushFull(isTrunc);
      AllYesMore(sink.answer, |log0|, |log1|, |sink.log|);
      Appends(sink.answer, maxsz, s, log0, c0, old(taken), log1, c1, c2, ok, sink.log, Content(), taken);
      assert |Content()| == currsz;
    }

    /** The part of the call after the copy: a full buffer is offered. */
    method FlushFull(isTrunc: bool) returns (ok: bool)
      requires Valid()
      modifies this`currsz, buf, sink
      ensures Valid() && (ok <==> AllYes(sink.answer, |old(sink.log)|, |sink.log|))
      ensures Offered(sink.answer, old(currsz) >= maxsz, Flush(old(Content()), isTrunc, true), old(sink.log), ok,
                      sink.log, Content())
    {
      ok := true;
      if currsz >= maxsz {
        ok := FlushAll(isTrunc, true);
      }
    }

    /** One call, as far as a client's stream is concerned. */
    method AppendNext(s: seq<byte>) returns (ok: bool)
      requires Valid()
      modifies this`currsz, this`taken, buf, sink
      ensures Valid() && old(sink.log) <= sink.log
      ensures ok <==> AllYes(sink.answer, |old(sink.log)|, |sink.log|)
      ensures taken == old(taken) + Cut(s, maxsz) || (!ok && taken == old(taken))
      ensures ok && maxsz > 0 ==> currsz < maxsz
    {
      ok := AppendCb(s);
    }

    /** A sequence of calls, up to the first that is refused. */
    method AppendAll(inputs: seq<seq<byte>>) returns (n: nat)
      requires Valid()
      modifies this`currsz, this`taken, buf, sink
      ensures Valid() && old(sink.log) <= sink.log && n <= |inputs|
      ensures n == |inputs| <==> AllYes(sink.answer, |old(sink.log)|, |sink.log|)
      ensures taken == Appended(old(taken), inputs, n, maxsz) ||
              (n < |inputs| && taken == Appended(old(taken), inputs, n + 1, maxsz))
      ensures n == |inputs| > 0 && maxsz > 0 ==> currsz < maxsz
    {
      n := 0;
      while n < |inputs|
        invariant 0 <= n <= |inputs| && Valid() && old(sink.log) <= sink.log
        invariant taken == Appended(old(taken), inputs, n, maxsz)
        invariant n > 0 && maxsz > 0 ==> currsz < maxsz
        invariant AllYes(sink.answer, |old(sink.log)|, |sink.log|)
      {
        ghost var mid := |sink.log|;
        var ok := AppendNext(inputs[n]);
        AllYesMore(sink.answer, |old(sink.log)|, mid, |sink.log|);
        if !ok {
          return;
        }
        n := n + 1;
      }
    }
  }

  /** The first `n` inputs, as much of each as a buffer takes, behind what was there before. */
  function Appended(start: seq<byte>, inputs: seq<seq<byte>>, n: nat, maxsz: nat): seq<byte>
    requires n <= |inputs|
  {
    if n == 0 then start
    else Appended(start, inputs, n - 1, maxsz) + Cut(inputs[n - 1], maxsz)
  }

  function Join(parts: seq<seq<byte>>): seq<byte> {
    if parts == [] then [] else Join(parts[..|parts| - 1]) + parts[|parts| - 1]
  }

  /** Inputs that fit the buffer are appended whole. */
  lemma {:induction false} AppendedWhole(start: seq<byte>, inputs: seq<seq<byte>>, n: nat, maxsz: nat)
    requires n <= |inputs| && forall i :: 0 <= i < |inputs| ==> |inputs[i]| <= maxsz
    ensures Appended(start, inputs, n, maxsz) == start + Join(inputs[..n])
    decreases n
  {
    if n > 0 {
      AppendedWhole(start, inputs, n - 1, maxsz);
      var parts, last := inputs[..n], inputs[n - 1];
      assert parts[..n - 1] == inputs[..n - 1] && parts[n - 1] == last && last[..|last|] == last;
      assert start + (Join(parts[..n - 1]) + last) == (start + Join(parts[..n - 1])) + last;
    }
  }

  /**
   * A callback that always takes what it is offered: over any number of appends that fit the buffer nothing is lost,
   * repeated or reordered, and the buffer is never left full.
   */
  method StreamAll(buf: StrWrBuf, inputs: seq<seq<byte>>)
    requires buf.Valid() && AlwaysYes(buf.sink.answer)
    requires forall i :: 0 <= i < |inputs| ==> |inputs[i]| <= buf.maxsz
    modifies buf`currsz, buf`taken, buf.buf, buf.sink
    ensures buf.Valid() && buf.sink.accepted + buf.Content() == old(buf.sink.accepted + buf.Content()) + Join(inputs)
    ensures inputs != [] && buf.maxsz > 0 ==> buf.currsz < buf.maxsz
  {
    ghost var start := buf.taken;
    var n := buf.AppendAll(inputs);
    AppendedWhole(start, inputs, n, buf.maxsz);
    assert inputs[..n] == inputs;
  }

  ghost predicate AlwaysYes(answer: nat -> bool) {
    forall i :: answer(i)
  }
}
