/**
 * The sending side of the framing: elements built with their padding counts, laid one after the other
 * behind a header, and the proof that the receiver's validation and walk give them back.
 */
module FrameBuilder {
  import opened Bytes
  import opened Framing

  /** An element: the bytes of its fixed part and its variable parts. */
  datatype Elem = Elem(head: seq<byte>, parts: seq<seq<byte>>)

  function Flat(parts: seq<seq<byte>>): (r: seq<byte>)
    ensures |r| == Sum(Sizes(parts))
  {
    if parts == [] then []
    else
      assert Sizes(parts)[1..] == Sizes(parts[1..]);
      parts[0] + Flat(parts[1..])
  }

  function Sizes(parts: seq<seq<byte>>): (r: seq<nat>)
    ensures |r| == |parts| && forall k :: 0 <= k < |parts| ==> r[k] == |parts[k]|
  {
    seq(|parts|, k requires 0 <= k < |parts| => |parts[k]|)
  }

  /** The counts in the fixed part describe the variable parts and pad the element to a multiple of 8. */
  ghost predicate ElemOk(l: Layout, e: Elem) {
    && Fits(l) && |e.head| == l.size && |e.parts| == |l.lens|
    && Lens(e.head, 0, l) == Sizes(e.parts)
    && (l.size + |Flat(e.parts)| + e.head[l.pad]) % 8 == 0
  }

  function Encode(l: Layout, e: Elem): (r: seq<byte>)
    requires l.pad < |e.head|
    ensures |r| == |e.head| + |Flat(e.parts)| + e.head[l.pad]
  {
    e.head + Flat(e.parts) + Zeros(e.head[l.pad])
  }

  // ---- Building one element ----

  function SetByte(s: seq<byte>, i: nat, v: nat): (r: seq<byte>)
    requires i < |s|
    ensures |r| == |s|
  {
    s[i := v % 256]
  }

  /** Stores a length in its field. */
  function SetLen(s: seq<byte>, f: LenField, v: nat): (r: seq<byte>)
    requires f.off + f.Width() <= |s|
    ensures |r| == |s|
  {
    if f.wide then SetByte(SetByte(s, f.off, v), f.off + 1, v / 256) else SetByte(s, f.off, v)
  }

  function SetLens(s: seq<byte>, fs: seq<LenField>, vs: seq<nat>): (r: seq<byte>)
    requires |fs| == |vs| && forall k :: 0 <= k < |fs| ==> fs[k].off + fs[k].Width() <= |s|
    ensures |r| == |s|
    decreases |fs|
  {
    if fs == [] then s else SetLens(SetLen(s, fs[0], vs[0]), fs[1..], vs[1..])
  }

  /** set_padding_len: the padding count that rounds the unpadded size up to a multiple of 8. */
  function SetPadding(s: seq<byte>, l: Layout, actSize: nat): (r: seq<byte>)
    requires l.pad < |s|
    ensures |r| == |s|
  {
    SetByte(s, l.pad, AlignUp8(actSize) - actSize)
  }

  /** Models an element constructor: other fields as given, counts from the variable parts. */
  function Make(l: Layout, raw: seq<byte>, parts: seq<seq<byte>>): Elem
    requires Fits(l) && |raw| == l.size && |parts| == |l.lens|
  {
    Elem(SetPadding(SetLens(raw, l.lens, Sizes(parts)), l, l.size + |Flat(parts)|), parts)
  }

  /** Different fields do not share bytes. */
  ghost predicate Apart(l: Layout) {
    && (forall k :: 0 <= k < |l.lens| ==> !l.lens[k].Covers(l.pad))
    && FieldsApart(l.lens)
  }

  ghost predicate FieldsApart(fs: seq<LenField>) {
    forall k, j, a :: 0 <= k < j < |fs| && fs[k].Covers(a) ==> !fs[j].Covers(a)
  }

  /** Each length fits its field. */
  predicate FitsField(f: LenField, v: nat) {
    v < if f.wide then 0x1_0000 else 0x100
  }

  lemma {:induction false} SetLenRead(s: seq<byte>, f: LenField, v: nat)
    requires f.off + f.Width() <= |s| && FitsField(f, v)
    ensures ReadLen(SetLen(s, f, v), 0, f) == v
    ensures forall a :: 0 <= a < |s| && !f.Covers(a) ==> SetLen(s, f, v)[a] == s[a]
  {
  }

  lemma {:induction false} SetLensRead(s: seq<byte>, fs: seq<LenField>, vs: seq<nat>)
    requires |fs| == |vs| && FieldsApart(fs)
    requires forall k :: 0 <= k < |fs| ==> fs[k].off + fs[k].Width() <= |s|
    requires forall k :: 0 <= k < |fs| ==> FitsField(fs[k], vs[k])
    ensures forall k :: 0 <= k < |fs| ==> ReadLen(SetLens(s, fs, vs), 0, fs[k]) == vs[k]
    ensures forall a :: 0 <= a < |s| && (forall k :: 0 <= k < |fs| ==> !fs[k].Covers(a)) ==>
      SetLens(s, fs, vs)[a] == s[a]
    decreases |fs|
  {
    if fs != [] {
      var s1 := SetLen(s, fs[0], vs[0]);
      SetLenRead(s, fs[0], vs[0]);
      SetLensRead(s1, fs[1..], vs[1..]);
      var r := SetLens(s1, fs[1..], vs[1..]);
      forall a | 0 <= a < |s| && fs[0].Covers(a) ensures r[a] == s1[a] {
        forall k | 0 <= k < |fs[1..]| ensures !fs[1..][k].Covers(a) {
          assert fs[1..][k] == fs[k + 1];
        }
      }
      ReadSame(s1, r, fs[0]);
      forall k | 1 <= k < |fs| ensures ReadLen(r, 0, fs[k]) == vs[k] {
        assert fs[k] == fs[1..][k - 1];
      }
    }
  }

  lemma {:induction false} ReadSame(s: seq<byte>, s': seq<byte>, f: LenField)
    requires f.off + f.Width() <= |s| == |s'|
    requires forall a :: 0 <= a < |s| && f.Covers(a) ==> s[a] == s'[a]
    ensures ReadLen(s, 0, f) == ReadLen(s', 0, f)
  {
    assert f.Covers(f.off) && (f.wide ==> f.Covers(f.off + 1));
  }

  /** What a constructor builds is well formed, with fewer than 8 bytes of padding. */
  lemma {:induction false} MakeOk(l: Layout, raw: seq<byte>, parts: seq<seq<byte>>)
    requires Fits(l) && Apart(l) && |raw| == l.size && |parts| == |l.lens|
    requires forall k :: 0 <= k < |parts| ==> FitsField(l.lens[k], |parts[k]|)
    ensures ElemOk(l, Make(l, raw, parts)) && Make(l, raw, parts).head[l.pad] < 8
  {
    var s1 := SetLens(raw, l.lens, Sizes(parts));
    SetLensRead(raw, l.lens, Sizes(parts));
    var act := l.size + |Flat(parts)|;
    var s2 := SetPadding(s1, l, act);
    LensAfterPadding(s1, l, act);
    assert Lens(s1, 0, l) == Sizes(parts);
    assert s2[l.pad] == AlignUp8(act) - act;
  }

  /** The layout of an aggregated-task element meets what the framing theorems ask of a layout. */
  lemma {:induction false} AggrTaskLayout()
    ensures Fits(AGGR_TASK) && Separate(AGGR_TASK) && Apart(AGGR_TASK)
  {
  }

  lemma {:induction false} LensAfterPadding(s: seq<byte>, l: Layout, act: nat)
    requires Fits(l) && |s| == l.size && forall k :: 0 <= k < |l.lens| ==> !l.lens[k].Covers(l.pad)
    ensures Lens(SetPadding(s, l, act), 0, l) == Lens(s, 0, l)
  {
    forall k | 0 <= k < |l.lens| ensures ReadLen(SetPadding(s, l, act), 0, l.lens[k]) == ReadLen(s, 0, l.lens[k]) {
      ReadSame(s, SetPadding(s, l, act), l.lens[k]);
    }
  }

  // ---- Reading elements back ----

  /** Cuts the bytes from `off` into parts of the given lengths. */
  function Cut(s: seq<byte>, off: nat, lens: seq<nat>): seq<seq<byte>>
    requires off + Sum(lens) <= |s|
    decreases |lens|
  {
    if lens == [] then [] else [s[off..off + lens[0]]] + Cut(s, off + lens[0], lens[1..])
  }

  function ReadElem(s: seq<byte>, l: Layout, at: nat): Elem
    requires Fits(l) && at + l.size <= |s| && Next(s, at, l) <= |s|
  {
    Elem(s[at..at + l.size], Cut(s, at + l.size, Lens(s, at, l)))
  }

  /**
   * Stepping from `pos` by the element sizes reads exactly `es`, or with `term` set, `es` with all
   * strings terminated.
   */
  ghost predicate Reads(s: seq<byte>, l: Layout, pos: nat, lim: nat, es: seq<Elem>, term: bool)
    requires Fits(l) && lim <= |s|
    decreases |es|
  {
    es == [] || (
      && Walkable(s, l, pos, lim)
      && ReadElem(s, l, pos) == Expected(l, es[0], term)
      && Reads(s, l, Next(s, pos, l), lim, es[1..], term))
  }

  lemma {:induction false} ReadsStep(s: seq<byte>, l: Layout, pos: nat, next: nat, lim: nat, es: seq<Elem>, term: bool)
    requires Fits(l) && lim <= |s| && es != [] && Walkable(s, l, pos, lim) && Next(s, pos, l) == next
    requires ReadElem(s, l, pos) == Expected(l, es[0], term) && Reads(s, l, next, lim, es[1..], term)
    ensures Reads(s, l, pos, lim, es, term)
  {
  }

  function Expected(l: Layout, e: Elem, term: bool): Elem
    requires Fits(l)
  {
    if term && |e.head| == l.size then TermElem(l, e) else e
  }

  lemma {:induction false} CutFlat(s: seq<byte>, off: nat, parts: seq<seq<byte>>)
    requires StandsAt(s, off, Flat(parts))
    ensures Cut(s, off, Sizes(parts)) == parts
    decreases |parts|
  {
    if parts != [] {
      StandsSplit(s, off, parts[0], Flat(parts[1..]));
      StandsSlice(s, off, parts[0]);
      assert Sizes(parts)[1..] == Sizes(parts[1..]);
      CutFlat(s, off + |parts[0]|, parts[1..]);
      assert parts == [parts[0]] + parts[1..];
    }
  }

  /** The three pieces of an encoded element. */
  lemma {:induction false} EncodeAt(l: Layout, e: Elem, s: seq<byte>, pos: nat)
    requires ElemOk(l, e)
    ensures StandsAt(s, pos, Encode(l, e)) <==>
              && StandsAt(s, pos, e.head)
              && StandsAt(s, pos + l.size, Flat(e.parts))
              && StandsAt(s, pos + l.size + |Flat(e.parts)|, Zeros(e.head[l.pad]))
  {
    StandsSplit(s, pos, e.head + Flat(e.parts), Zeros(e.head[l.pad]));
    StandsSplit(s, pos, e.head, Flat(e.parts));
  }

  /** The counts of an encoded element, read in place. */
  lemma {:induction false} CountsInPlace(l: Layout, e: Elem, s: seq<byte>, pos: nat)
    requires ElemOk(l, e) && StandsAt(s, pos, e.head)
    ensures Lens(s, pos, l) == Sizes(e.parts)
    ensures Next(s, pos, l) == pos + |Encode(l, e)| && (Next(s, pos, l) - pos) % 8 == 0
  {
    forall k | 0 <= k < |l.lens| ensures ReadLen(s, pos, l.lens[k]) == ReadLen(e.head, 0, l.lens[k]) {
      var f := l.lens[k];
      assert e.head[f.off] == s[pos + f.off];
      assert f.wide ==> e.head[f.off + 1] == s[pos + f.off + 1];
    }
    assert e.head[l.pad] == s[pos + l.pad];
    assert Lens(s, pos, l) == Lens(e.head, 0, l);
  }

  /** An encoded element is walked over, and read back. */
  lemma {:induction false} ElemWalkable(l: Layout, e: Elem, s: seq<byte>, pos: nat, lim: nat)
    requires ElemOk(l, e) && StandsAt(s, pos, Encode(l, e)) && pos + |Encode(l, e)| <= lim <= |s|
    ensures Walkable(s, l, pos, lim) && Next(s, pos, l) == pos + |Encode(l, e)|
    ensures ReadElem(s, l, pos) == e
  {
    ReadsBack(l, e, s, pos);
  }

  lemma {:induction false} ReadsBack(l: Layout, e: Elem, s: seq<byte>, pos: nat)
    requires ElemOk(l, e) && StandsAt(s, pos, Encode(l, e))
    ensures Next(s, pos, l) == pos + |Encode(l, e)| && (Next(s, pos, l) - pos) % 8 == 0
    ensures ReadElem(s, l, pos) == e
  {
    EncodeAt(l, e, s, pos);
    CountsInPlace(l, e, s, pos);
    CutFlat(s, pos + l.size, e.parts);
    StandsSlice(s, pos, e.head);
  }

  /** Reading looks only at the bytes from `pos` to `lim`. */
  lemma {:induction false} CutAgree(s: seq<byte>, s': seq<byte>, off: nat, lens: seq<nat>)
    requires off + Sum(lens) <= |s| && Agree(s, s', off, off + Sum(lens))
    ensures Cut(s, off, lens) == Cut(s', off, lens)
    decreases |lens|
  {
    if lens != [] {
      assert s[off..off + lens[0]] == s'[off..off + lens[0]];
      CutAgree(s, s', off + lens[0], lens[1..]);
    }
  }

  lemma {:induction false} ReadElemAgree(s: seq<byte>, s': seq<byte>, l: Layout, pos: nat, lim: nat)
    requires Fits(l) && lim <= |s| && Agree(s, s', pos, lim) && Walkable(s, l, pos, lim)
    ensures Next(s', pos, l) == Next(s, pos, l) && ReadElem(s', l, pos) == ReadElem(s, l, pos)
  {
    WalkableAgree(s, s', l, pos, lim);
    CutAgree(s, s', pos + l.size, Lens(s, pos, l));
    assert s[pos..pos + l.size] == s'[pos..pos + l.size];
  }

  lemma {:induction false} ReadsAgree(s: seq<byte>, s': seq<byte>, l: Layout, pos: nat, lim: nat, es: seq<Elem>,
                                      term: bool)
    requires Fits(l) && lim <= |s| && Agree(s, s', pos, lim) && Reads(s, l, pos, lim, es, term)
    ensures Reads(s', l, pos, lim, es, term)
    decreases |es|
  {
    if es != [] {
      WalkableAgree(s, s', l, pos, lim);
      ReadElemAgree(s, s', l, pos, lim);
      ReadsAgree(s, s', l, Next(s, pos, l), lim, es[1..], term);
    }
  }

  lemma {:induction false} ReadsWalks(s: seq<byte>, l: Layout, pos: nat, lim: nat, es: seq<Elem>, term: bool)
    requires Fits(l) && lim <= |s| && Reads(s, l, pos, lim, es, term)
    ensures Walks(s, l, pos, lim, |es|)
    decreases |es|
  {
    if es != [] {
      ReadsWalks(s, l, Next(s, pos, l), lim, es[1..], term);
    }
  }

  // ---- Reading what validation leaves ----

  function ZeroLast(p: seq<byte>): (r: seq<byte>)
    ensures |r| == |p|
  {
    if p == [] then p else p[|p| - 1 := NUL]
  }

  function ZeroLasts(parts: seq<seq<byte>>): (r: seq<seq<byte>>)
    ensures |r| == |parts|
    decreases |parts|
  {
    if parts == [] then [] else [ZeroLast(parts[0])] + ZeroLasts(parts[1..])
  }

  /** The element with all its strings terminated. */
  function TermElem(l: Layout, e: Elem): Elem
    requires forall k :: 0 <= k < |l.strings| ==> l.strings[k] < |e.head|
  {
    Elem(TermStrings(e.head, 0, l.strings), ZeroLasts(e.parts))
  }

  lemma {:induction false} TermPartsBefore(s: seq<byte>, off: nat, lens: seq<nat>)
    requires off + Sum(lens) <= |s|
    ensures Agree(s, TermParts(s, off, lens), 0, off)
  {
    forall a: nat | a < off ensures TermParts(s, off, lens)[a] == s[a] {
      TermPartsAt(s, off, lens, a);
      if PartEnd(off, lens, a) {
        PartEndInside(off, lens, a);
      }
    }
  }

  lemma {:induction false} CutTerm(s: seq<byte>, off: nat, lens: seq<nat>)
    requires off + Sum(lens) <= |s|
    ensures Cut(TermParts(s, off, lens), off, lens) == ZeroLasts(Cut(s, off, lens))
    decreases |lens|
  {
    if lens != [] {
      var n := lens[0];
      var s1 := if n > 0 then s[off + n - 1 := NUL] else s;
      FirstPartTerm(s, off, n, lens[1..]);
      CutTerm(s1, off + n, lens[1..]);
      CutAgree(s, s1, off + n, lens[1..]);
    }
  }

  /** The first part is terminated and not touched again. */
  lemma {:induction false} FirstPartTerm(s: seq<byte>, off: nat, n: nat, lens: seq<nat>)
    requires off + n + Sum(lens) <= |s|
    ensures var s1 := if n > 0 then s[off + n - 1 := NUL] else s;
            TermParts(s1, off + n, lens)[off..off + n] == ZeroLast(s[off..off + n])
  {
    var s1 := if n > 0 then s[off + n - 1 := NUL] else s;
    TermPartsBefore(s1, off + n, lens);
    assert TermParts(s1, off + n, lens)[off..off + n] == s1[off..off + n];
  }

  lemma {:induction false} HeadTerm(s: seq<byte>, l: Layout, pos: nat)
    requires Fits(l) && pos + l.size <= |s| && Next(s, pos, l) <= |s|
    ensures Term(s, pos, l)[pos..pos + l.size] == TermStrings(s[pos..pos + l.size], 0, l.strings)
  {
    var h, s1 := s[pos..pos + l.size], TermStrings(s, pos, l.strings);
    TermPartsBefore(s1, pos + l.size, Lens(s, pos, l));
    forall a: nat | a < l.size ensures s1[pos + a] == TermStrings(h, 0, l.strings)[a] {
      TermStringsAt(s, pos, l.strings, pos + a);
      TermStringsAt(h, 0, l.strings, a);
      if k :| 0 <= k < |l.strings| && pos + a == pos + l.strings[k] {
        assert a == 0 + l.strings[k];
      }
      if k :| 0 <= k < |l.strings| && a == 0 + l.strings[k] {
        assert pos + a == pos + l.strings[k];
      }
    }
  }

  /** Terminating in place and then reading is reading and then terminating. */
  lemma {:induction false} TermReads(s: seq<byte>, l: Layout, pos: nat)
    requires Fits(l) && Separate(l) && pos + l.size <= |s| && Next(s, pos, l) <= |s|
    ensures Next(Term(s, pos, l), pos, l) == Next(s, pos, l)
    ensures ReadElem(Term(s, pos, l), l, pos) == TermElem(l, ReadElem(s, l, pos))
  {
    var s1, lens := TermStrings(s, pos, l.strings), Lens(s, pos, l);
    TermFrame(s, pos, l);
    SameCountsSame(s, Term(s, pos, l), l, pos);
    HeadTerm(s, l, pos);
    CutTerm(s1, pos + l.size, lens);
    forall a: nat | pos + l.size <= a < |s| ensures s1[a] == s[a] {
      TermStringsAt(s, pos, l.strings, a);
    }
    CutAgree(s, s1, pos + l.size, lens);
  }

  /**
   * What a receiver reads after validation: the same elements in the same order, each with its strings
   * terminated and otherwise as sent, for any accepted message.
   */
  lemma {:induction false} ValidatedReads(s: seq<byte>, l: Layout, pos: nat, lim: nat, es: seq<Elem>)
    requires Fits(l) && Separate(l) && lim <= |s| && Walks(s, l, pos, lim, |es|) && Reads(s, l, pos, lim, es, false)
    ensures Reads(TermAll(s, l, pos, lim, |es|), l, pos, lim, es, true)
    decreases |es|
  {
    if es != [] {
      var s1, p1 := Term(s, pos, l), Next(s, pos, l);
      TermAllStep(s, l, pos, lim, |es|);
      TermFrame(s, pos, l);
      ReadsAgree(s, s1, l, p1, lim, es[1..], false);
      ValidatedReads(s1, l, p1, lim, es[1..]);
      HeadKept(s, s1, l, pos, p1, lim, es[0], |es| - 1);
      ReadsStep(TermAll(s, l, pos, lim, |es|), l, pos, p1, lim, es, true);
    }
  }

  lemma {:induction false} TermAllStep(s: seq<byte>, l: Layout, pos: nat, lim: nat, k: nat)
    requires Fits(l) && Separate(l) && lim <= |s| && Walks(s, l, pos, lim, k) && k > 0
    ensures Walks(Term(s, pos, l), l, Next(s, pos, l), lim, k - 1)
    ensures TermAll(s, l, pos, lim, k) == TermAll(Term(s, pos, l), l, Next(s, pos, l), lim, k - 1)
  {
    WalkedAfterTerm(s, l, pos, lim, k - 1);
  }

  /** The first element as it reads after all of them have been terminated. */
  lemma {:induction false} HeadKept(s: seq<byte>, s1: seq<byte>, l: Layout, pos: nat, p1: nat, lim: nat, e: Elem,
                                    k: nat)
    requires Fits(l) && Separate(l) && lim <= |s| && Walkable(s, l, pos, lim) && ReadElem(s, l, pos) == e
    requires s1 == Term(s, pos, l) && p1 == Next(s, pos, l) && Walks(s1, l, p1, lim, k)
    ensures var v := TermAll(s1, l, p1, lim, k);
            Walkable(v, l, pos, lim) && Next(v, pos, l) == p1 && ReadElem(v, l, pos) == Expected(l, e, true)
  {
    TermReads(s, l, pos);
    TermAllFrame(s1, l, p1, lim, k);
    WalkableAgreeUpTo(s1, TermAll(s1, l, p1, lim, k), l, pos, p1, lim);
  }

  lemma {:induction false} WalkableAgreeUpTo(s: seq<byte>, s': seq<byte>, l: Layout, pos: nat, next: nat, lim: nat)
    requires Fits(l) && lim <= |s| && pos + l.size <= |s| && Next(s, pos, l) == next <= lim && (next - pos) % 8 == 0
    requires Agree(s, s', 0, next)
    ensures Walkable(s', l, pos, lim) && Next(s', pos, l) == next && ReadElem(s', l, pos) == ReadElem(s, l, pos)
  {
    WalkableAgree(s, s', l, pos, next);
    ReadElemAgree(s, s', l, pos, next);
  }

  // ---- The round trip ----

  ghost predicate ElemsOk(l: Layout, es: seq<Elem>) {
    Fits(l) && forall i :: 0 <= i < |es| ==> ElemOk(l, es[i])
  }

  ghost predicate Sized(l: Layout, es: seq<Elem>) {
    Fits(l) && forall i :: 0 <= i < |es| ==> |es[i].head| == l.size
  }

  ghost function Payload(l: Layout, es: seq<Elem>): seq<byte>
    requires Sized(l, es)
  {
    if es == [] then [] else Encode(l, es[0]) + Payload(l, es[1..])
  }

  lemma {:induction false} PayloadSplit(l: Layout, es: seq<Elem>, s: seq<byte>, pos: nat)
    requires ElemsOk(l, es) && es != [] && StandsAt(s, pos, Payload(l, es))
    ensures StandsAt(s, pos, Encode(l, es[0])) && StandsAt(s, pos + |Encode(l, es[0])|, Payload(l, es[1..]))
    ensures |Payload(l, es)| == |Encode(l, es[0])| + |Payload(l, es[1..])|
  {
    PayloadStep(l, es);
    StandsParts(s, pos, Encode(l, es[0]), Payload(l, es[1..]));
  }

  lemma {:induction false} PayloadStep(l: Layout, es: seq<Elem>)
    requires ElemsOk(l, es) && es != []
    ensures ElemsOk(l, es[1..]) && Payload(l, es) == Encode(l, es[0]) + Payload(l, es[1..])
  {
  }

  lemma {:induction false} FirstReads(l: Layout, es: seq<Elem>, s: seq<byte>, pos: nat, lim: nat)
    requires ElemsOk(l, es) && es != [] && StandsAt(s, pos, Payload(l, es)) && pos + |Payload(l, es)| <= lim <= |s|
    ensures Walkable(s, l, pos, lim) && Next(s, pos, l) == pos + |Encode(l, es[0])|
    ensures ReadElem(s, l, pos) == es[0]
  {
    PayloadSplit(l, es, s, pos);
    ElemWalkable(l, es[0], s, pos, lim);
  }

  /** Elements laid out one after the other can be walked over and are read back as they were. */
  lemma {:induction false} ReadsBuilt(l: Layout, es: seq<Elem>, s: seq<byte>, pos: nat, lim: nat)
    requires ElemsOk(l, es) && StandsAt(s, pos, Payload(l, es)) && pos + |Payload(l, es)| <= lim <= |s|
    ensures Reads(s, l, pos, lim, es, false)
    decreases |es|
  {
    if es != [] {
      FirstReads(l, es, s, pos, lim);
      PayloadSplit(l, es, s, pos);
      ReadsBuilt(l, es[1..], s, Next(s, pos, l), lim);
      ReadsStep(s, l, pos, Next(s, pos, l), lim, es, false);
    }
  }

  /** All strings of the element end in a zero byte, as the protocol asks of senders. */
  ghost predicate Ended(l: Layout, e: Elem)
    requires Fits(l) && |e.head| == l.size
  {
    && (forall k :: 0 <= k < |l.strings| ==> e.head[l.strings[k]] == NUL)
    && (forall k :: 0 <= k < |e.parts| && e.parts[k] != [] ==> e.parts[k][|e.parts[k]| - 1] == NUL)
  }

  lemma {:induction false} ZeroLastsSame(parts: seq<seq<byte>>)
    requires forall k :: 0 <= k < |parts| && parts[k] != [] ==> parts[k][|parts[k]| - 1] == NUL
    ensures ZeroLasts(parts) == parts
    decreases |parts|
  {
    if parts != [] {
      assert ZeroLast(parts[0]) == parts[0];
      ZeroLastsSame(parts[1..]);
      assert parts == [parts[0]] + parts[1..];
    }
  }

  lemma {:induction false} EndedSame(l: Layout, e: Elem)
    requires Fits(l) && |e.head| == l.size && Ended(l, e)
    ensures Expected(l, e, true) == e
  {
    ZeroLastsSame(e.parts);
    forall a: nat | a < l.size ensures TermStrings(e.head, 0, l.strings)[a] == e.head[a] {
      TermStringsAt(e.head, 0, l.strings, a);
    }
  }

  lemma {:induction false} ReadsEnded(s: seq<byte>, l: Layout, pos: nat, lim: nat, es: seq<Elem>)
    requires Fits(l) && lim <= |s| && Reads(s, l, pos, lim, es, true)
    requires forall i :: 0 <= i < |es| ==> |es[i].head| == l.size && Ended(l, es[i])
    ensures Reads(s, l, pos, lim, es, false)
    decreases |es|
  {
    if es != [] {
      EndedSame(l, es[0]);
      ReadsEnded(s, l, Next(s, pos, l), lim, es[1..]);
    }
  }

  lemma {:induction false} BuiltReads(l: Layout, es: seq<Elem>, s: seq<byte>, pos: nat, lim: nat)
    requires ElemsOk(l, es) && Separate(l) && StandsAt(s, pos, Payload(l, es)) && pos + |Payload(l, es)| <= lim <= |s|
    requires forall i :: 0 <= i < |es| ==> |es[i].head| == l.size && Ended(l, es[i])
    ensures Walks(s, l, pos, lim, |es|) && Reads(Validated(s, l, pos, lim, |es|), l, pos, lim, es, false)
  {
    ReadsBuilt(l, es, s, pos, lim);
    ReadsWalks(s, l, pos, lim, es, false);
    WalkedSelf(s, l, pos, lim, |es|);
    ValidatedReads(s, l, pos, lim, es);
    ReadsEnded(Validated(s, l, pos, lim, |es|), l, pos, lim, es);
  }

  lemma {:induction false} EventHeaderBuilt(act: nat, magic: nat, bodySz: nat -> nat)
    requires act >= HEADER_SZ + NOTIFY_SZ && AlignUp8(act) < MAX_COMM_DATA_SZ
    requires PS_ADHOC_MAGIC <= magic <= NM_ADHOC_MAGIC && !IsHostNode(magic)
    requires bodySz(COMM_EVENT_NOTIFY) == NOTIFY_SZ
    ensures var (h, ok) := SetTypeLen(Header(0, 0, 0, 0), COMM_EVENT_NOTIFY, act, magic);
            && ok && ValidateHeader(h, 0, magic, bodySz) && EventHeader(h)
            && h.total == AlignUp8(act) && ActLen(h) == act && h.dtype == 14
  {
    HeaderAcceptedIff(Header(0, 0, 0, 0), COMM_EVENT_NOTIFY, act, magic, 0, bodySz);
  }

  /** The header the sender puts before `act` bytes of event message. */
  function EventHeaderFor(act: nat, magic: nat): Header
    requires act < U32
  {
    SetTypeLen(Header(0, 0, 0, 0), COMM_EVENT_NOTIFY, act, magic).0
  }

  /**
   * Build, validate, walk: elements behind a header for a peer that is not a node web server, less than
   * 16 MB in all, pass the header check and the element validator, and the receiver reads the same elements.
   */
  lemma {:induction false} RoundTrip(l: Layout, es: seq<Elem>, s: seq<byte>, act: nat, magic: nat, bodySz: nat -> nat,
                                     maxElems: nat)
    requires ElemsOk(l, es) && Separate(l) && |es| <= maxElems
    requires forall i :: 0 <= i < |es| ==> |es[i].head| == l.size && Ended(l, es[i])
    requires bodySz(COMM_EVENT_NOTIFY) == NOTIFY_SZ
    requires PS_ADHOC_MAGIC <= magic <= NM_ADHOC_MAGIC && !IsHostNode(magic)
    requires act == HEADER_SZ + NOTIFY_SZ + |Payload(l, es)| && StandsAt(s, HEADER_SZ + NOTIFY_SZ, Payload(l, es))
    requires |s| == AlignUp8(act) < MAX_COMM_DATA_SZ
    ensures ValidateHeader(EventHeaderFor(act, magic), 0, magic, bodySz) && EventHeader(EventHeaderFor(act, magic))
    ensures EventHeaderFor(act, magic).total == |s| && ActLen(EventHeaderFor(act, magic)) == act
    ensures Accepted(s, l, HEADER_SZ + NOTIFY_SZ, act, |es|, maxElems)
    ensures Reads(Validated(s, l, HEADER_SZ + NOTIFY_SZ, act, |es|), l, HEADER_SZ + NOTIFY_SZ, act, es, false)
  {
    EventHeaderBuilt(act, magic, bodySz);
    BuiltReads(l, es, s, HEADER_SZ + NOTIFY_SZ, act);
  }

  // ---- From the constructors on ----

  /**
   * What goes into an element: the other fields of its fixed part, and its variable parts, all ending in a zero byte.
   */
  ghost predicate Buildable(l: Layout, raw: seq<byte>, parts: seq<seq<byte>>) {
    && Fits(l) && |raw| == l.size && |parts| == |l.lens|
    && (forall k :: 0 <= k < |parts| ==> FitsField(l.lens[k], |parts[k]|))
    && Ended(l, Elem(raw, parts))
  }

  /** Filling in the counts does not touch the ends of the fixed strings. */
  lemma {:induction false} MakeEnded(l: Layout, raw: seq<byte>, parts: seq<seq<byte>>)
    requires Buildable(l, raw, parts) && Apart(l) && Separate(l)
    ensures Ended(l, Make(l, raw, parts))
  {
    SetLensRead(raw, l.lens, Sizes(parts));
    forall j | 0 <= j < |l.strings| ensures Make(l, raw, parts).head[l.strings[j]] == NUL {
      assert !Counts(l, l.strings[j]);
    }
  }

  /** The elements the constructors build from these fields and parts. */
  ghost predicate Built(l: Layout, raws: seq<seq<byte>>, parts: seq<seq<seq<byte>>>, es: seq<Elem>) {
    && |raws| == |parts| == |es|
    && forall i :: 0 <= i < |es| ==> Buildable(l, raws[i], parts[i]) && es[i] == Make(l, raws[i], parts[i])
  }

  lemma {:induction false} BuiltOk(l: Layout, raws: seq<seq<byte>>, parts: seq<seq<seq<byte>>>, es: seq<Elem>)
    requires Built(l, raws, parts, es) && Fits(l) && Apart(l) && Separate(l)
    ensures ElemsOk(l, es) && Sized(l, es) && forall i :: 0 <= i < |es| ==> |es[i].head| == l.size && Ended(l, es[i])
  {
    forall i | 0 <= i < |es| ensures ElemOk(l, es[i]) && |es[i].head| == l.size && Ended(l, es[i]) {
      MakeOk(l, raws[i], parts[i]);
      MakeEnded(l, raws[i], parts[i]);
    }
  }

  /** The round trip from the fields and parts given to the constructors to the elements the receiver reads. */
  lemma {:induction false} BuildRoundTrip(l: Layout, raws: seq<seq<byte>>, parts: seq<seq<seq<byte>>>, es: seq<Elem>,
                                          s: seq<byte>, act: nat, magic: nat, bodySz: nat -> nat, maxElems: nat)
    requires Built(l, raws, parts, es) && Sized(l, es) && Apart(l) && Separate(l) && |es| <= maxElems
    requires bodySz(COMM_EVENT_NOTIFY) == NOTIFY_SZ
    requires PS_ADHOC_MAGIC <= magic <= NM_ADHOC_MAGIC && !IsHostNode(magic)
    requires act == HEADER_SZ + NOTIFY_SZ + |Payload(l, es)| && StandsAt(s, HEADER_SZ + NOTIFY_SZ, Payload(l, es))
    requires |s| == AlignUp8(act) < MAX_COMM_DATA_SZ
    ensures ValidateHeader(EventHeaderFor(act, magic), 0, magic, bodySz) && ActLen(EventHeaderFor(act, magic)) == act
    ensures Accepted(s, l, HEADER_SZ + NOTIFY_SZ, act, |es|, maxElems)
    ensures Reads(Validated(s, l, HEADER_SZ + NOTIFY_SZ, act, |es|), l, HEADER_SZ + NOTIFY_SZ, act, es, false)
  {
    BuiltOk(l, raws, parts, es);
    RoundTrip(l, es, s, act, magic, bodySz, maxElems);
  }
}
