/**
 * Wire framing: an 8-byte aligned header followed by variable-length elements that are each padded to
 * a multiple of 8 and validated in place.
 *
 * The struct sizes and field positions are symbolic (`Layout`): every statement holds for any fixed
 * part whose size is a multiple of 8 with length fields inside it.
 */
module Framing {
  import opened Bytes

  // ---- Layouts ----

  /** A length field of the fixed part: one byte, or two bytes in little-endian order. */
  datatype LenField = LenField(off: nat, wide: bool) {
    function Width(): nat {
      if wide then 2 else 1
    }

    predicate Covers(a: int) {
      off <= a < off + Width()
    }
  }

  /**
   * The fixed part of an element: its size, the length fields of the variable parts in the order the
   * parts follow, the position of the padding count, and the last bytes of the fixed strings.
   */
  datatype Layout = Layout(size: nat, lens: seq<LenField>, pad: nat, strings: seq<nat>)

  /** All fields lie inside the fixed part. */
  predicate Fits(l: Layout) {
    && l.size > 0 && l.pad < l.size
    && (forall k :: 0 <= k < |l.lens| ==> l.lens[k].off + l.lens[k].Width() <= l.size)
    && (forall k :: 0 <= k < |l.strings| ==> l.strings[k] < l.size)
  }

  /** Byte `a` of the fixed part belongs to a length field or is the padding count. */
  ghost predicate Counts(l: Layout, a: int) {
    a == l.pad || exists k :: 0 <= k < |l.lens| && l.lens[k].Covers(a)
  }

  /** The fixed strings do not end on a length field or the padding count. */
  ghost predicate Separate(l: Layout) {
    forall j :: 0 <= j < |l.strings| ==> !Counts(l, l.strings[j])
  }

  /** The fixed part of an aggregated-task element: two variable parts, command line and tag. */
  const AGGR_TASK := Layout(48, [LenField(40, true), LenField(42, false)], 44, [])

  function ReadLen(s: seq<byte>, at: nat, f: LenField): nat
    requires at + f.off + f.Width() <= |s|
  {
    var lo: int := s[at + f.off];
    if f.wide then lo + 256 * (s[at + f.off + 1] as int) else lo
  }

  /** The lengths of the variable parts of the element at `at`. */
  function Lens(s: seq<byte>, at: nat, l: Layout): (r: seq<nat>)
    requires Fits(l) && at + l.size <= |s|
    ensures |r| == |l.lens|
  {
    seq(|l.lens|, k requires 0 <= k < |l.lens| => ReadLen(s, at, l.lens[k]))
  }

  function Sum(xs: seq<nat>): nat {
    if xs == [] then 0 else xs[0] + Sum(xs[1..])
  }

  /** Where the element at `at` ends, padding included. */
  function Next(s: seq<byte>, at: nat, l: Layout): (r: nat)
    requires Fits(l) && at + l.size <= |s|
    ensures r >= at + l.size
  {
    at + l.size + Sum(Lens(s, at, l)) + s[at + l.pad]
  }

  /** The bytes of a length field. */
  lemma {:induction false} FieldBytes(f: LenField, a: int)
    ensures f.Covers(a) <==> a == f.off || (f.wide && a == f.off + 1)
  {
  }

  /** The size of an aggregated-task element from its bytes: 40 and 41 and 42 give the lengths, 44 the padding. */
  lemma {:induction false} AggrTaskSize(s: seq<byte>, at: nat)
    requires at + 48 <= |s|
    ensures Fits(AGGR_TASK)
    ensures var cmdline: int, tag: int, pad: int := s[at + 40] + 256 * (s[at + 41] as int), s[at + 42], s[at + 44];
            Lens(s, at, AGGR_TASK) == [cmdline, tag] && Next(s, at, AGGR_TASK) == at + 48 + cmdline + tag + pad
    ensures forall a :: Counts(AGGR_TASK, a) <==> 40 <= a <= 42 || a == 44
  {
    forall a ensures Counts(AGGR_TASK, a) <==> 40 <= a <= 42 || a == 44 {
      FieldBytes(AGGR_TASK.lens[0], a);
      FieldBytes(AGGR_TASK.lens[1], a);
    }
    var xs := Lens(s, at, AGGR_TASK);
    assert Sum(xs) == xs[0] + Sum(xs[1..]) && Sum(xs[1..]) == xs[1] + Sum(xs[1..][1..]);
  }

  // ---- What a validator accepts ----

  /** The element at `pos` may be walked over when the message ends at `lim`. */
  predicate Walkable(s: seq<byte>, l: Layout, pos: nat, lim: nat)
    requires Fits(l) && lim <= |s|
  {
    pos + l.size <= lim && Next(s, pos, l) <= lim && (Next(s, pos, l) - pos) % 8 == 0
  }

  /** How many of the next `n` elements are walked over before the walk stops. */
  function Walked(s: seq<byte>, l: Layout, pos: nat, lim: nat, n: nat): (k: nat)
    requires Fits(l) && lim <= |s|
    ensures k <= n
    decreases n
  {
    if n == 0 || !Walkable(s, l, pos, lim) then 0 else 1 + Walked(s, l, Next(s, pos, l), lim, n - 1)
  }

  /** The first `k` elements can all be walked over. */
  predicate Walks(s: seq<byte>, l: Layout, pos: nat, lim: nat, k: nat)
    requires Fits(l) && lim <= |s|
    decreases k
  {
    k == 0 || (Walkable(s, l, pos, lim) && Walks(s, l, Next(s, pos, l), lim, k - 1))
  }

  lemma {:induction false} WalkedWalks(s: seq<byte>, l: Layout, pos: nat, lim: nat, n: nat, k: nat)
    requires Fits(l) && lim <= |s|
    requires k <= n
    ensures Walks(s, l, pos, lim, k) <==> k <= Walked(s, l, pos, lim, n)
    decreases k
  {
    if k > 0 && Walkable(s, l, pos, lim) {
      WalkedWalks(s, l, Next(s, pos, l), lim, n - 1, k - 1);
    }
  }

  /** Where element number `k` of a walk starts. */
  function Start(s: seq<byte>, l: Layout, pos: nat, lim: nat, k: nat): (p: nat)
    requires Fits(l) && lim <= |s| && Walks(s, l, pos, lim, k)
    ensures pos <= p && (k > 0 ==> Next(s, pos, l) <= p <= lim)
    decreases k
  {
    if k == 0 then pos else Start(s, l, Next(s, pos, l), lim, k - 1)
  }

  lemma {:induction false} Mod8Chain(a: int, b: int, c: int)
    requires (b - a) % 8 == 0 && (c - b) % 8 == 0
    ensures (c - a) % 8 == 0
  {
  }

  /** The walked elements tile the message: each is aligned, inside it, and ends where the next begins. */
  lemma {:induction false} WalkTiles(s: seq<byte>, l: Layout, pos: nat, lim: nat, k: nat, i: nat)
    requires Fits(l) && lim <= |s| && Walks(s, l, pos, lim, k) && i < k
    ensures Walks(s, l, pos, lim, i) && Walks(s, l, pos, lim, i + 1)
    ensures var p := Start(s, l, pos, lim, i);
            && p + l.size <= lim && Next(s, p, l) <= lim
            && Next(s, p, l) == Start(s, l, pos, lim, i + 1)
            && (p - pos) % 8 == 0
    decreases i
  {
    if i > 0 {
      WalkTiles(s, l, Next(s, pos, l), lim, k - 1, i - 1);
      Mod8Chain(pos, Next(s, pos, l), Start(s, l, pos, lim, i));
    }
  }

  // ---- Terminators ----

  /** Zeroes the last byte of each nonempty part, the parts lying one after the other from `off`. */
  function TermParts(s: seq<byte>, off: nat, lens: seq<nat>): (r: seq<byte>)
    requires off + Sum(lens) <= |s|
    ensures |r| == |s|
    decreases |lens|
  {
    if lens == [] then s
    else TermParts(if lens[0] > 0 then s[off + lens[0] - 1 := NUL] else s, off + lens[0], lens[1..])
  }

  function TermStrings(s: seq<byte>, at: nat, ends: seq<nat>): (r: seq<byte>)
    requires forall k :: 0 <= k < |ends| ==> at + ends[k] < |s|
    ensures |r| == |s|
    decreases |ends|
  {
    if ends == [] then s else TermStrings(s[at + ends[0] := NUL], at, ends[1..])
  }

  /** The buffer after the strings of the element at `at` have been terminated. */
  function Term(s: seq<byte>, at: nat, l: Layout): (r: seq<byte>)
    requires Fits(l) && at + l.size <= |s| && Next(s, at, l) <= |s|
    ensures |r| == |s|
  {
    TermParts(TermStrings(s, at, l.strings), at + l.size, Lens(s, at, l))
  }

  /** Byte `a` ends one of the nonempty parts that lie one after the other from `off`. */
  predicate PartEnd(off: nat, lens: seq<nat>, a: int)
    decreases |lens|
  {
    lens != [] && ((lens[0] > 0 && a == off + lens[0] - 1) || PartEnd(off + lens[0], lens[1..], a))
  }

  /** Byte `a` ends one of the strings of the element at `at`. */
  ghost predicate IsEnd(s: seq<byte>, l: Layout, at: nat, a: int)
    requires Fits(l) && at + l.size <= |s|
  {
    (exists k :: 0 <= k < |l.strings| && a == at + l.strings[k]) || PartEnd(at + l.size, Lens(s, at, l), a)
  }

  lemma {:induction false} PartEndInside(off: nat, lens: seq<nat>, a: int)
    requires PartEnd(off, lens, a)
    ensures off <= a < off + Sum(lens)
    decreases |lens|
  {
    if !(lens[0] > 0 && a == off + lens[0] - 1) {
      PartEndInside(off + lens[0], lens[1..], a);
    }
  }

  lemma {:induction false} TermPartsAt(s: seq<byte>, off: nat, lens: seq<nat>, a: nat)
    requires off + Sum(lens) <= |s| && a < |s|
    ensures TermParts(s, off, lens)[a] == if PartEnd(off, lens, a) then NUL else s[a]
    decreases |lens|
  {
    if lens != [] {
      var s1 := if lens[0] > 0 then s[off + lens[0] - 1 := NUL] else s;
      TermPartsAt(s1, off + lens[0], lens[1..], a);
    }
  }

  lemma {:induction false} TermStringsAt(s: seq<byte>, at: nat, ends: seq<nat>, a: nat)
    requires forall k :: 0 <= k < |ends| ==> at + ends[k] < |s|
    requires a < |s|
    ensures TermStrings(s, at, ends)[a] == if exists k :: 0 <= k < |ends| && a == at + ends[k] then NUL else s[a]
    decreases |ends|
  {
    if ends != [] {
      TermStringsAt(s[at + ends[0] := NUL], at, ends[1..], a);
      if k :| 0 <= k < |ends| && a == at + ends[k] {
        assert k > 0 ==> a == at + ends[1..][k - 1];
      }
    }
  }

  /** Terminating an element zeroes the ends of its strings and changes nothing else. */
  lemma {:induction false} TermAt(s: seq<byte>, at: nat, l: Layout, a: nat)
    requires Fits(l) && at + l.size <= |s| && Next(s, at, l) <= |s| && a < |s|
    ensures Term(s, at, l)[a] == if IsEnd(s, l, at, a) then NUL else s[a]
  {
    TermStringsAt(s, at, l.strings, a);
    TermPartsAt(TermStrings(s, at, l.strings), at + l.size, Lens(s, at, l), a);
  }

  /** The ends lie inside the element, and never on a length field or the padding count. */
  lemma {:induction false} EndInside(s: seq<byte>, l: Layout, at: nat, a: int)
    requires Fits(l) && Separate(l) && at + l.size <= |s| && IsEnd(s, l, at, a)
    ensures at <= a < Next(s, at, l) && !Counts(l, a - at)
  {
    if PartEnd(at + l.size, Lens(s, at, l), a) {
      PartEndInside(at + l.size, Lens(s, at, l), a);
    }
  }

  /** Equal bytes in the length fields and the padding count. */
  ghost predicate SameCounts(s: seq<byte>, s': seq<byte>, l: Layout, at: nat)
    requires Fits(l) && at + l.size <= |s| == |s'|
  {
    forall a :: 0 <= a < l.size && Counts(l, a) ==> s[at + a] == s'[at + a]
  }

  lemma {:induction false} SameCountsSame(s: seq<byte>, s': seq<byte>, l: Layout, at: nat)
    requires Fits(l) && at + l.size <= |s| == |s'| && SameCounts(s, s', l, at)
    ensures Lens(s, at, l) == Lens(s', at, l) && Next(s, at, l) == Next(s', at, l)
  {
    forall k | 0 <= k < |l.lens| ensures ReadLen(s, at, l.lens[k]) == ReadLen(s', at, l.lens[k]) {
      var f := l.lens[k];
      assert f.Covers(f.off) && Counts(l, f.off);
      if f.wide {
        assert f.Covers(f.off + 1) && Counts(l, f.off + 1);
      }
    }
    assert Counts(l, l.pad);
  }

  /** Equal bytes from `lo` up to `hi`. */
  ghost predicate Agree(s: seq<byte>, s': seq<byte>, lo: nat, hi: nat) {
    |s| == |s'| && hi <= |s| && forall a :: lo <= a < hi ==> s[a] == s'[a]
  }

  lemma {:induction false} TermFrame(s: seq<byte>, at: nat, l: Layout)
    requires Fits(l) && Separate(l) && at + l.size <= |s| && Next(s, at, l) <= |s|
    ensures SameCounts(s, Term(s, at, l), l, at)
    ensures Agree(s, Term(s, at, l), 0, at)
    ensures Agree(s, Term(s, at, l), Next(s, at, l), |s|)
  {
    var s' := Term(s, at, l);
    forall a: nat | a < |s| && (a < at || Next(s, at, l) <= a || Counts(l, a - at)) ensures s'[a] == s[a] {
      TermAt(s, at, l, a);
      if IsEnd(s, l, at, a) {
        EndInside(s, l, at, a);
      }
    }
    forall a | 0 <= a < l.size && Counts(l, a) ensures s[at + a] == s'[at + a] {
      assert Counts(l, at + a - at);
    }
  }

  // ---- The walk depends only on the bytes it covers ----

  lemma {:induction false} WalkableAgree(s: seq<byte>, s': seq<byte>, l: Layout, pos: nat, lim: nat)
    requires Fits(l) && lim <= |s| && Agree(s, s', pos, lim)
    ensures Walkable(s, l, pos, lim) == Walkable(s', l, pos, lim)
    ensures pos + l.size <= lim ==> Lens(s, pos, l) == Lens(s', pos, l) && Next(s, pos, l) == Next(s', pos, l)
  {
    if pos + l.size <= lim {
      SameCountsSame(s, s', l, pos);
    }
  }

  lemma {:induction false} WalkedAgree(s: seq<byte>, s': seq<byte>, l: Layout, pos: nat, lim: nat, n: nat)
    requires Fits(l) && lim <= |s| && Agree(s, s', pos, lim)
    ensures Walked(s, l, pos, lim, n) == Walked(s', l, pos, lim, n)
    ensures Walks(s, l, pos, lim, n) == Walks(s', l, pos, lim, n)
    decreases n
  {
    WalkableAgree(s, s', l, pos, lim);
    if n > 0 && Walkable(s, l, pos, lim) {
      WalkedAgree(s, s', l, Next(s, pos, l), lim, n - 1);
    }
  }

  lemma {:induction false} WalkedAfterTerm(s: seq<byte>, l: Layout, pos: nat, lim: nat, n: nat)
    requires Fits(l) && Separate(l) && lim <= |s| && Walkable(s, l, pos, lim)
    ensures Walked(Term(s, pos, l), l, Next(s, pos, l), lim, n) == Walked(s, l, Next(s, pos, l), lim, n)
    ensures Walks(Term(s, pos, l), l, Next(s, pos, l), lim, n) == Walks(s, l, Next(s, pos, l), lim, n)
  {
    TermFrame(s, pos, l);
    WalkedAgree(s, Term(s, pos, l), l, Next(s, pos, l), lim, n);
  }

  /** The buffer after the first `k` elements of a walk have been terminated one after the other. */
  function TermAll(s: seq<byte>, l: Layout, pos: nat, lim: nat, k: nat): (r: seq<byte>)
    requires Fits(l) && Separate(l) && lim <= |s| && Walks(s, l, pos, lim, k)
    ensures |r| == |s|
    decreases k
  {
    if k == 0 then s
    else
      WalkedAfterTerm(s, l, pos, lim, k - 1);
      TermAll(Term(s, pos, l), l, Next(s, pos, l), lim, k - 1)
  }

  // ---- What an accepted walk guarantees ----

  /** Byte `a` ends a string of one of the first `k` elements of a walk. */
  ghost predicate WalkEnd(s: seq<byte>, l: Layout, pos: nat, lim: nat, k: nat, a: int)
    requires Fits(l) && lim <= |s| && Walks(s, l, pos, lim, k)
    decreases k
  {
    k > 0 && (IsEnd(s, l, pos, a) || WalkEnd(s, l, Next(s, pos, l), lim, k - 1, a))
  }

  lemma {:induction false} WalkEndAgree(s: seq<byte>, s': seq<byte>, l: Layout, pos: nat, lim: nat, k: nat, a: int)
    requires Fits(l) && lim <= |s| && Agree(s, s', pos, lim) && Walks(s, l, pos, lim, k)
    ensures Walks(s', l, pos, lim, k) && WalkEnd(s, l, pos, lim, k, a) == WalkEnd(s', l, pos, lim, k, a)
    decreases k
  {
    WalkedAgree(s, s', l, pos, lim, k);
    if k > 0 {
      WalkableAgree(s, s', l, pos, lim);
      WalkEndAgree(s, s', l, Next(s, pos, l), lim, k - 1, a);
    }
  }

  /** Validation zeroes exactly the ends of the strings of the walked elements. */
  lemma {:induction false} TermAllAt(s: seq<byte>, l: Layout, pos: nat, lim: nat, k: nat, a: nat)
    requires Fits(l) && Separate(l) && lim <= |s| && Walks(s, l, pos, lim, k) && a < |s|
    ensures TermAll(s, l, pos, lim, k)[a] == if WalkEnd(s, l, pos, lim, k, a) then NUL else s[a]
    decreases k
  {
    if k > 0 {
      var s1, p1 := Term(s, pos, l), Next(s, pos, l);
      TermFrame(s, pos, l);
      TermAt(s, pos, l, a);
      WalkEndAgree(s, s1, l, p1, lim, k - 1, a);
      TermAllAt(s1, l, p1, lim, k - 1, a);
    }
  }

  /** Every end lies in the element it belongs to, off its length fields and padding count. */
  lemma {:induction false} WalkEndOwner(s: seq<byte>, l: Layout, pos: nat, lim: nat, k: nat, a: int) returns (i: nat)
    requires Fits(l) && Separate(l) && lim <= |s| && Walks(s, l, pos, lim, k) && WalkEnd(s, l, pos, lim, k, a)
    ensures i < k && Walks(s, l, pos, lim, i)
    ensures var p := Start(s, l, pos, lim, i);
            p + l.size <= lim && IsEnd(s, l, p, a) && p <= a < Next(s, p, l) <= lim && !Counts(l, a - p)
    decreases k
  {
    if IsEnd(s, l, pos, a) {
      EndInside(s, l, pos, a);
      i := 0;
    } else {
      i := WalkEndOwner(s, l, Next(s, pos, l), lim, k - 1, a);
      i := i + 1;
    }
  }

  lemma {:induction false} TermAllFrame(s: seq<byte>, l: Layout, pos: nat, lim: nat, k: nat)
    requires Fits(l) && Separate(l) && lim <= |s| && Walks(s, l, pos, lim, k)
    ensures Agree(s, TermAll(s, l, pos, lim, k), 0, pos) || |s| < pos
    decreases k
  {
    if k > 0 {
      TermFrame(s, pos, l);
      WalkedAfterTerm(s, l, pos, lim, k - 1);
      TermAllFrame(Term(s, pos, l), l, Next(s, pos, l), lim, k - 1);
    }
  }

  lemma {:induction false} TermIdem(s: seq<byte>, s': seq<byte>, l: Layout, at: nat)
    requires Fits(l) && Separate(l) && at + l.size <= |s| && Next(s, at, l) <= |s|
    requires Agree(Term(s, at, l), s', 0, Next(s, at, l))
    ensures Lens(s', at, l) == Lens(s, at, l) && Next(s', at, l) == Next(s, at, l)
    ensures Term(s', at, l) == s'
  {
    TermFrame(s, at, l);
    SameCountsSame(s, s', l, at);
    forall a: nat | a < |s| ensures Term(s', at, l)[a] == s'[a] {
      TermAt(s', at, l, a);
      if IsEnd(s', l, at, a) {
        EndInside(s', l, at, a);
        TermAt(s, at, l, a);
      }
    }
  }

  /**
   * Validating twice is validating once: the second walk takes the same steps over the same elements
   * and leaves the buffer as it is.
   */
  lemma {:induction false} RevalidateSame(s: seq<byte>, l: Layout, pos: nat, lim: nat, k: nat, n: nat)
    requires Fits(l) && Separate(l) && lim <= |s| && Walks(s, l, pos, lim, k)
    ensures var s' := TermAll(s, l, pos, lim, k);
            && Walked(s', l, pos, lim, n) == Walked(s, l, pos, lim, n)
            && Walks(s', l, pos, lim, k)
            && TermAll(s', l, pos, lim, k) == s'
    decreases k, n
  {
    if k > 0 {
      var s1, p1 := Term(s, pos, l), Next(s, pos, l);
      WalkedAfterTerm(s, l, pos, lim, k - 1);
      var s' := TermAll(s1, l, p1, lim, k - 1);
      TermAllFrame(s1, l, p1, lim, k - 1);
      TermIdem(s, s', l, pos);
      var m := if n > 0 then n - 1 else 0;
      WalkedAfterTerm(s, l, pos, lim, m);
      RevalidateSame(s1, l, p1, lim, k - 1, m);
      RevalidateStep(s, s', l, pos, lim, k, n);
    }
  }

  /** A first element that is terminated and followed by terminated ones. */
  lemma {:induction false} RevalidateStep(s: seq<byte>, s': seq<byte>, l: Layout, pos: nat, lim: nat, k: nat, n: nat)
    requires Fits(l) && Separate(l) && lim <= |s| == |s'| && k > 0
    requires Walkable(s, l, pos, lim) && Next(s', pos, l) == Next(s, pos, l) && Term(s', pos, l) == s'
    requires var p1 := Next(s, pos, l);
             && Walks(s', l, p1, lim, k - 1) && TermAll(s', l, p1, lim, k - 1) == s'
             && (n > 0 ==> Walked(s', l, p1, lim, n - 1) == Walked(s, l, p1, lim, n - 1))
    ensures Walked(s', l, pos, lim, n) == Walked(s, l, pos, lim, n)
    ensures Walks(s', l, pos, lim, k) && TermAll(s', l, pos, lim, k) == s'
  {
  }

  // ---- The validators ----

  /** The terminator writes of one element, each length being read from the buffer as it is then. */
  method Terminate(buf: array<byte>, l: Layout, at: nat)
    requires Fits(l) && Separate(l) && at + l.size <= buf.Length && Next(buf[..], at, l) <= buf.Length
    modifies buf
    ensures buf[..] == Term(old(buf[..]), at, l)
  {
    ghost var s0 := buf[..];
    ghost var lens := Lens(s0, at, l);
    TerminateStrings(buf, l, at);
    ghost var s1 := buf[..];
    TermStringsKeepCounts(s0, l, at);
    var off := at + l.size;
    for k := 0 to |l.lens|
      invariant off + Sum(lens[k..]) <= buf.Length
      invariant off >= at + l.size && Agree(s1, buf[..], 0, at + l.size)
      invariant TermParts(buf[..], off, lens[k..]) == TermParts(s1, at + l.size, lens)
    {
      AgreeLen(s1, buf[..], l, at, k);
      var len := ReadLen(buf[..], at, l.lens[k]);
      off := TerminatePart(buf, off, len, at + l.size, lens[k..]);
      assert lens[k..][1..] == lens[k + 1..];
    }
  }

  /** The terminator of one variable part. */
  method TerminatePart(buf: array<byte>, off: nat, len: nat, ghost start: nat, ghost lens: seq<nat>) returns (next: nat)
    requires lens != [] && len == lens[0] && start <= off && off + Sum(lens) <= buf.Length
    modifies buf
    ensures next == off + len && next + Sum(lens[1..]) <= buf.Length
    ensures Agree(old(buf[..]), buf[..], 0, start)
    ensures TermParts(buf[..], next, lens[1..]) == TermParts(old(buf[..]), off, lens)
  {
    if len > 0 {
      buf[off + len - 1] := NUL;
    }
    next := off + len;
  }

  lemma {:induction false} AgreeLen(s: seq<byte>, s': seq<byte>, l: Layout, at: nat, k: nat)
    requires Fits(l) && at + l.size <= |s| && Agree(s, s', 0, at + l.size) && k < |l.lens|
    ensures ReadLen(s', at, l.lens[k]) == Lens(s, at, l)[k]
  {
  }

  lemma {:induction false} TermStringsKeepCounts(s: seq<byte>, l: Layout, at: nat)
    requires Fits(l) && Separate(l) && at + l.size <= |s|
    ensures Lens(TermStrings(s, at, l.strings), at, l) == Lens(s, at, l)
  {
    var s' := TermStrings(s, at, l.strings);
    forall a | 0 <= a < l.size && Counts(l, a) ensures s[at + a] == s'[at + a] {
      TermStringsAt(s, at, l.strings, at + a);
    }
    SameCountsSame(s, s', l, at);
  }

  method TerminateStrings(buf: array<byte>, l: Layout, at: nat)
    requires Fits(l) && at + l.size <= buf.Length
    modifies buf
    ensures buf[..] == TermStrings(old(buf[..]), at, l.strings)
  {
    for k := 0 to |l.strings|
      invariant TermStrings(buf[..], at, l.strings[k..]) == TermStrings(old(buf[..]), at, l.strings)
    {
      assert l.strings[k..][1..] == l.strings[k + 1..];
      buf[at + l.strings[k]] := NUL;
    }
  }

  lemma {:induction false} WalkedSelf(s: seq<byte>, l: Layout, pos: nat, lim: nat, n: nat)
    requires Fits(l) && lim <= |s|
    ensures Walks(s, l, pos, lim, Walked(s, l, pos, lim, n))
    ensures Walks(s, l, pos, lim, n) <==> Walked(s, l, pos, lim, n) == n
  {
    WalkedWalks(s, l, pos, lim, n, Walked(s, l, pos, lim, n));
    WalkedWalks(s, l, pos, lim, n, n);
  }

  /** The buffer a validator leaves behind: the elements it got past are terminated. */
  function Validated(s: seq<byte>, l: Layout, pos: nat, lim: nat, n: nat): seq<byte>
    requires Fits(l) && Separate(l) && lim <= |s|
  {
    WalkedSelf(s, l, pos, lim, n);
    TermAll(s, l, pos, lim, Walked(s, l, pos, lim, n))
  }

  /** One step of a walk: terminating the current element and going on is the whole walk. */
  lemma {:induction false} ValidatedStep(s: seq<byte>, l: Layout, pos: nat, lim: nat, n: nat)
    requires Fits(l) && Separate(l) && lim <= |s| && n > 0 && Walkable(s, l, pos, lim)
    ensures Validated(s, l, pos, lim, n) == Validated(Term(s, pos, l), l, Next(s, pos, l), lim, n - 1)
    ensures Walks(s, l, pos, lim, n) == Walks(Term(s, pos, l), l, Next(s, pos, l), lim, n - 1)
  {
    WalkedAfterTerm(s, l, pos, lim, n - 1);
    WalkedSelf(s, l, pos, lim, n);
  }

  /** From here on the walk comes to buffer `v` and result `w`. */
  ghost predicate Validating(s: seq<byte>, l: Layout, pos: nat, lim: nat, n: nat, v: seq<byte>, w: bool)
    requires Fits(l) && Separate(l) && lim <= |s|
  {
    Validated(s, l, pos, lim, n) == v && Walks(s, l, pos, lim, n) == w
  }

  lemma {:induction false} ValidatingStep(s: seq<byte>, s': seq<byte>, l: Layout, pos: nat, lim: nat, n: nat,
                                          v: seq<byte>, w: bool)
    requires Fits(l) && Separate(l) && lim <= |s| && n > 0 && Walkable(s, l, pos, lim) && s' == Term(s, pos, l)
    requires Validating(s, l, pos, lim, n, v, w)
    ensures Validating(s', l, Next(s, pos, l), lim, n - 1, v, w)
  {
    ValidatedStep(s, l, pos, lim, n);
  }

  /** A walk that cannot take its next step leaves the buffer and has failed. */
  lemma {:induction false} ValidatedStop(s: seq<byte>, l: Layout, pos: nat, lim: nat, n: nat)
    requires Fits(l) && Separate(l) && lim <= |s| && n > 0 && !Walkable(s, l, pos, lim)
    ensures Validated(s, l, pos, lim, n) == s && !Walks(s, l, pos, lim, n)
  {
  }

  lemma {:induction false} ValidatedEnd(s: seq<byte>, l: Layout, pos: nat, lim: nat)
    requires Fits(l) && Separate(l) && lim <= |s|
    ensures Validated(s, l, pos, lim, 0) == s && Walks(s, l, pos, lim, 0)
  {
  }

  /**
   * The messages the validator accepts: room for what precedes the elements, not too many of them, and all walkable.
   */
  predicate Accepted(s: seq<byte>, l: Layout, fixedSz: nat, actLen: nat, nelems: nat, maxElems: nat)
    requires Fits(l) && actLen <= |s|
  {
    fixedSz <= actLen && nelems <= maxElems && Walks(s, l, fixedSz, actLen, nelems)
  }

  /**
   * The validator of element lists that counts down the remaining length.  `fixedSz` bytes precede the
   * first element, and `actLen` is the message length without padding.
   */
  method ValidateElems(buf: array<byte>, l: Layout, fixedSz: nat, actLen: nat, nelems: nat, maxElems: nat)
    returns (ok: bool)
    requires Fits(l) && Separate(l) && actLen <= buf.Length
    modifies buf
    ensures ok <==> Accepted(old(buf[..]), l, fixedSz, actLen, nelems, maxElems)
    ensures buf[..] ==
            if fixedSz <= actLen && nelems <= maxElems then Validated(old(buf[..]), l, fixedSz, actLen, nelems)
                       else old(buf[..])
  {
    if actLen < fixedSz {
      return false;
    }
    if nelems > maxElems {
      return false;
    }
    ghost var v0, w0 := Validated(buf[..], l, fixedSz, actLen, nelems), Walks(buf[..], l, fixedSz, actLen, nelems);
    var totallen := actLen - fixedSz;
    var pone: nat := fixedSz;
    var i := 0;
    while i < nelems && totallen >= l.size
      invariant 0 <= i <= nelems && pone + totallen == actLen && totallen >= 0
      invariant Validating(buf[..], l, pone, actLen, nelems - i, v0, w0)
    {
      ghost var s := buf[..];
      var elemSz := Next(buf[..], pone, l) - pone;
      if totallen < elemSz {
        ValidatedStop(s, l, pone, actLen, nelems - i);
        return false;
      }
      if elemSz % 8 != 0 {
        ValidatedStop(s, l, pone, actLen, nelems - i);
        return false;
      }
      Terminate(buf, l, pone);
      ValidatingStep(s, buf[..], l, pone, actLen, nelems - i, v0, w0);
      totallen := totallen - elemSz;
      pone := pone + elemSz;
      i := i + 1;
    }
    if i == nelems {
      ValidatedEnd(buf[..], l, pone, actLen);
    } else {
      ValidatedStop(buf[..], l, pone, actLen, nelems - i);
    }
    return i == nelems;
  }

  // ---- The header ----

  const U32 := 0x1_0000_0000

  /** Messages are smaller than 16 MB. */
  const MAX_COMM_DATA_SZ := 0x100_0000

  const HEADER_SZ := 16
  const NOTIFY_SZ := 8

  datatype Header = Header(magic: nat, total: nat, dtype: nat, padding: nat)

  const INV_HDR_MAGIC := 0
  const PS_ADHOC_MAGIC := 0x05555505
  const NS_HDR_MAGIC := 0x05999905
  const NM_HDR_MAGIC := 0x05AAAA05
  const NS_ADHOC_MAGIC := 0x05B00105
  const NM_ADHOC_MAGIC := 0x05C00105
  const COMM_MIN_TYPE := 1
  const COMM_EVENT_NOTIFY := 14
  const COMM_MAX_TYPE := 18

  /** Node web servers send their requests unpadded. */
  predicate IsHostNode(magic: nat) {
    magic == NS_HDR_MAGIC || magic == NM_HDR_MAGIC || magic == NS_ADHOC_MAGIC || magic == NM_ADHOC_MAGIC
  }

  /** The 64-bit computation ((n - 1) & ~7) + 8; for n = 0 it wraps around to 0. */
  function AlignUp8(n: nat): (r: nat)
    ensures r % 8 == 0 && n <= r < n + 8
  {
    if n == 0 then 0 else (n - 1) / 8 * 8 + 8
  }

  /** set_type_len: the aligned size is truncated to 32 bits before it is compared. */
  function SetTypeLen(h: Header, dtype: nat, total: nat, magic: nat): (Header, bool)
    requires total < U32
  {
    var aligned := if IsHostNode(magic) then total else AlignUp8(total) % U32;
    if aligned < MAX_COMM_DATA_SZ && total >= HEADER_SZ && COMM_MIN_TYPE < dtype < COMM_MAX_TYPE
       && PS_ADHOC_MAGIC - 1 < magic < NM_ADHOC_MAGIC + 1
    then (Header(magic, aligned, dtype, (aligned - total) % U32), true)
    else (h.(magic := INV_HDR_MAGIC), false)
  }

  function ActLen(h: Header): nat {
    (h.total - h.padding) % U32
  }

  /** COMM_HEADER::validate; `bodySz` gives the size of the struct that must follow for each type. */
  predicate ValidateHeader(h: Header, addr: nat, reqMagic: nat, bodySz: nat -> nat) {
    && h.magic == reqMagic
    && HEADER_SZ <= h.total < MAX_COMM_DATA_SZ && h.padding < 8
    && COMM_MIN_TYPE < h.dtype < COMM_MAX_TYPE
    && h.total % 8 == 0
    && addr % 8 == 0
    && ActLen(h) >= HEADER_SZ + bodySz(h.dtype)
  }

  /**
   * Exactly which requests give a header that the receiver accepts, over all 32-bit sizes: the size
   * must leave room for the struct of its type, and stay below 16 MB after alignment; a node's size must be
   * aligned by itself.
   */
  lemma {:induction false} HeaderAcceptedIff(h: Header, dtype: nat, total: nat, magic: nat, addr: nat,
                                             bodySz: nat -> nat)
    requires total < U32 && addr % 8 == 0
    ensures var (h', ok) := SetTypeLen(h, dtype, total, magic);
            (ok && ValidateHeader(h', addr, magic, bodySz)) <==>
              && 0x05555505 <= magic <= 0x05C00105
              && 1 < dtype < 18
              && total >= 16 + bodySz(dtype)
              && AlignUp8(total) < 16 * 1024 * 1024
              && (magic in {0x05999905, 0x05AAAA05, 0x05B00105, 0x05C00105} ==> total % 8 == 0)
    ensures var (h', ok) := SetTypeLen(h, dtype, total, magic);
            ok ==> ActLen(h') == total
  {
    AlignedSize(total);
  }

  /** The aligned size and its padding in 32 bits give back the size, also when the aligned size wraps around to 0. */
  lemma {:induction false} AlignedSize(total: nat)
    requires total < U32
    ensures var a := AlignUp8(total) % U32;
            && (a - (a - total) % U32) % U32 == total
            && if AlignUp8(total) < U32 then a == AlignUp8(total) && (a - total) % U32 == a - total < 8
               else a == 0 && AlignUp8(total) == U32
  {
    var a := AlignUp8(total) % U32;
    if AlignUp8(total) < U32 {
      assert (a - total) % U32 == a - total;
    } else {
      assert a == 0 && (a - total) % U32 == U32 - total;
    }
  }

  /** A header that a sender builds for `t` bytes of this type under magic `m`, with room for the struct of the type. */
  predicate BuildsFor(h: Header, dtype: nat, t: nat, m: nat, bodySz: nat -> nat) {
    && t < MAX_COMM_DATA_SZ && t >= 16 + bodySz(dtype)
    && SetTypeLen(Header(0, 0, 0, 0), dtype, t, m) == (h, true)
  }

  lemma {:induction false} BuiltFrom(h: Header, m: nat, addr: nat, bodySz: nat -> nat)
    requires 0x05555505 <= m <= 0x05C00105 && !IsHostNode(m) && ValidateHeader(h, addr, m, bodySz)
    ensures BuildsFor(h, h.dtype, h.total - h.padding, m, bodySz)
  {
    assert AlignUp8(h.total - h.padding) == h.total;
  }

  /**
   * Any header received: for a magic that is not a node's, the receiver accepts exactly what a sender under that magic
   * builds for a message of less than 16 MB.
   */
  lemma {:induction false} AcceptedIsBuilt(h: Header, m: nat, addr: nat, bodySz: nat -> nat)
    requires 0x05555505 <= m <= 0x05C00105 && !IsHostNode(m)
    ensures ValidateHeader(h, addr, m, bodySz) <==>
            addr % 8 == 0 && exists dtype, t :: BuildsFor(h, dtype, t, m, bodySz)
  {
    if ValidateHeader(h, addr, m, bodySz) {
      BuiltFrom(h, m, addr, bodySz);
    }
    if dtype, t :| addr % 8 == 0 && BuildsFor(h, dtype, t, m, bodySz) {
      HeaderAcceptedIff(Header(0, 0, 0, 0), dtype, t, m, addr, bodySz);
    }
  }

  /**
   * A node's header: the receiver accepts what a node builds for an aligned size, and the same header with a padding of
   * up to 7 bytes in it, as long as the struct of the type fits before the padding.
   */
  lemma {:induction false} AcceptedFromNode(h: Header, m: nat, addr: nat, bodySz: nat -> nat)
    requires IsHostNode(m)
    ensures ValidateHeader(h, addr, m, bodySz) <==>
            && addr % 8 == 0 && h.padding < 8 && h.total % 8 == 0 && h.total >= 16 + bodySz(h.dtype) + h.padding
            && BuildsFor(h.(padding := 0), h.dtype, h.total, m, bodySz)
  {
  }

  /** A header that the sender is refused stays as it was but for its magic, and no receiver accepts it. */
  lemma {:induction false} RefusedHeader(h: Header, dtype: nat, total: nat, m: nat, addr: nat, m': nat,
                                         bodySz: nat -> nat)
    requires total < U32 && 0x05555505 <= m' <= 0x05C00105
    ensures var (h', ok) := SetTypeLen(h, dtype, total, m);
            !ok ==> h' == h.(magic := 0) && !ValidateHeader(h', addr, m', bodySz)
  {
  }

  /** No header is accepted under two magics, whatever the sizes of the structs. */
  lemma {:induction false} OneMagic(h: Header, m: nat, m': nat, addr: nat, addr': nat, bodySz: nat -> nat,
                                    bodySz': nat -> nat)
    requires ValidateHeader(h, addr, m, bodySz) && ValidateHeader(h, addr', m', bodySz')
    ensures m == m'
  {
  }

  /** The last seven 32-bit sizes wrap around to 0 when aligned: the sender is told yes, and no receiver accepts. */
  lemma {:induction false} WrappedSize(h: Header, dtype: nat, total: nat, m: nat, addr: nat, bodySz: nat -> nat)
    requires 0xFFFF_FFF8 < total <= 0xFFFF_FFFF && 1 < dtype < 18
    requires 0x05555505 <= m <= 0x05C00105 && !IsHostNode(m)
    ensures var (h', ok) := SetTypeLen(h, dtype, total, m);
            ok && h' == Header(m, 0, dtype, 0x1_0000_0000 - total) && !ValidateHeader(h', addr, m, bodySz)
  {
  }

  /** A header that the receiver has accepted for an event notification. */
  predicate EventHeader(h: Header) {
    && h.total < MAX_COMM_DATA_SZ && h.padding < 8
    && h.total - h.padding >= HEADER_SZ + NOTIFY_SZ
  }

  /** The per-element part: the element at `at` against what the shrunken header still allows. */
  method ValidateOne(buf: array<byte>, h: Header, l: Layout, at: nat, ghost lim: nat) returns (ok: bool, elemSz: nat)
    requires Fits(l) && Separate(l) && lim <= buf.Length && at <= lim
    requires h.total == h.padding + HEADER_SZ + NOTIFY_SZ + lim - at < U32
    modifies buf
    ensures ok <==> Walkable(old(buf[..]), l, at, lim)
    ensures ok ==> elemSz == HEADER_SZ + NOTIFY_SZ + Next(old(buf[..]), at, l) - at
    ensures buf[..] == if ok then Term(old(buf[..]), at, l) else old(buf[..])
  {
    var fixedSz := HEADER_SZ + NOTIFY_SZ + l.size;
    if ActLen(h) < fixedSz {
      return false, 0;
    }
    elemSz := HEADER_SZ + NOTIFY_SZ + Next(buf[..], at, l) - at;
    if ActLen(h) < elemSz {
      return false, 0;
    }
    if elemSz % 8 != 0 {
      return false, 0;
    }
    Terminate(buf, l, at);
    return true, elemSz;
  }

  /**
   * The validator that shrinks a copy of the header.  It accepts exactly the messages the remaining-length
   * validator accepts (when that has no limit on their number) and leaves the same buffer.
   */
  method ValidateShrinking(buf: array<byte>, hdr: Header, l: Layout, nevents: nat) returns (ok: bool)
    requires Fits(l) && Separate(l) && EventHeader(hdr) && ActLen(hdr) <= buf.Length
    modifies buf
    ensures ok <==> Walks(old(buf[..]), l, HEADER_SZ + NOTIFY_SZ, ActLen(hdr), nevents)
    ensures buf[..] == Validated(old(buf[..]), l, HEADER_SZ + NOTIFY_SZ, ActLen(hdr), nevents)
  {
    var fixedSz := HEADER_SZ + NOTIFY_SZ;
    ghost var lim := ActLen(hdr);
    ghost var v0, w0 := Validated(buf[..], l, fixedSz, lim, nevents), Walks(buf[..], l, fixedSz, lim, nevents);
    var h := hdr;
    var ptask: nat := fixedSz;
    var i := 0;
    while i < nevents && h.total > HEADER_SZ
      invariant 0 <= i <= nevents && h.padding == hdr.padding && ptask <= lim
      invariant h.total == h.padding + fixedSz + lim - ptask
      invariant Validating(buf[..], l, ptask, lim, nevents - i, v0, w0)
    {
      ghost var s := buf[..];
      var bret, elemSz := ValidateOne(buf, h, l, ptask, lim);
      if !bret {
        ValidatedStop(s, l, ptask, lim, nevents - i);
        return false;
      }
      ValidatingStep(s, buf[..], l, ptask, lim, nevents - i, v0, w0);
      h := Shrink(h, elemSz - fixedSz);
      ptask := ptask + elemSz - fixedSz;
      i := i + 1;
    }
    assert i == nevents;
    ValidatedEnd(buf[..], l, ptask, lim);
    return i == nevents;
  }

  /** Subtracting an element size from a header copy, in 32-bit arithmetic. */
  function Shrink(h: Header, n: nat): (r: Header)
    ensures n <= h.total < U32 ==> r == h.(total := h.total - n)
  {
    h.(total := (h.total - n) % U32)
  }

  lemma {:induction false} StartStep(s: seq<byte>, l: Layout, pos: nat, lim: nat, n: nat)
    requires Fits(l) && lim <= |s| && Walks(s, l, pos, lim, n) && n > 0
    ensures Walks(s, l, Next(s, pos, l), lim, n - 1) && pos + l.size <= Next(s, pos, l) <= lim
    ensures Start(s, l, Next(s, pos, l), lim, n - 1) == Start(s, l, pos, lim, n)
  {
  }

  /** The size of a list computed by an unguarded walk over it; called only on validated lists. */
  method ListElemSize(buf: array<byte>, l: Layout, pos: nat, ghost lim: nat, nelems: nat, ownSz: nat)
    returns (totallen: nat)
    requires Fits(l) && pos <= lim <= buf.Length && Walks(buf[..], l, pos, lim, nelems)
    requires ownSz <= pos && lim < MAX_COMM_DATA_SZ
    ensures totallen == ownSz + Start(buf[..], l, pos, lim, nelems) - pos
    ensures pos - ownSz + totallen <= lim
  {
    ghost var s, end := buf[..], Start(buf[..], l, pos, lim, nelems);
    var pone: nat := pos;
    totallen := ownSz;
    for i := 0 to nelems
      invariant totallen == ownSz + pone - pos && pos <= pone <= lim
      invariant SizeLeft(s, l, pone, lim, nelems - i, end)
    {
      SizeStep(s, l, pone, lim, nelems - i, end);
      assert buf[..] == s;
      var next := Next(buf[..], pone, l);
      totallen := Add32(totallen, next - pone);
      pone := next;
    }
  }

  /** The rest of the list, which ends at `end`. */
  ghost predicate SizeLeft(s: seq<byte>, l: Layout, pos: nat, lim: nat, n: nat, end: nat)
    requires Fits(l) && lim <= |s|
  {
    Walks(s, l, pos, lim, n) && Start(s, l, pos, lim, n) == end
  }

  lemma {:induction false} SizeStep(s: seq<byte>, l: Layout, pos: nat, lim: nat, n: nat, end: nat)
    requires Fits(l) && lim <= |s| && n > 0 && SizeLeft(s, l, pos, lim, n, end)
    ensures pos + l.size <= |s| && pos <= Next(s, pos, l) <= lim && SizeLeft(s, l, Next(s, pos, l), lim, n - 1, end)
  {
    StartStep(s, l, pos, lim, n);
  }

  /** 32-bit addition. */
  function Add32(a: nat, b: nat): (r: nat)
    ensures a + b < U32 ==> r == a + b
  {
    (a + b) % U32
  }
}
