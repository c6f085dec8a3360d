/** Encoded single-question DNS responses, and what the parser makes of them. */
module DnsRoundTrip {

  import opened Bytes
  import opened DnsResponse
  import opened Options

  // ---- The message format ----

  /** A label has 1 to 63 bytes. */
  type Label = l: seq<byte> | 1 <= |l| <= 63 witness [DOT]

  const SHORT: Label := [DOT]

  /** A name on the wire: each label after its length, and a zero byte at the end. */
  function Wire(labels: seq<Label>): (r: seq<byte>)
    ensures |r| > 0
  {
    if labels == [] then [0] else [|labels[0]|] + labels[0] + Wire(labels[1..])
  }

  type WireName = labels: seq<Label> | labels != [] && |Wire(labels)| <= 255 witness [SHORT]

  function Dotted(labels: seq<Label>): Name
    requires labels != []
  {
    var n := |labels| - 1;
    if n == 0 then labels[0] else Dotted(labels[..n]) + [DOT] + labels[n]
  }

  function Encode16(n: nat): (r: seq<byte>)
    requires n < 65536
    ensures |r| == 2
  {
    [n / 256, n % 256]
  }

  /** The owner of an answer: a whole-name pointer, or plain labels. */
  datatype Owner = Pointer(hi: PointerByte, lo: byte) | Plain(labels: WireName)

  type PointerByte = b: byte | b >= 0xC0 witness 0xC0
  type Bytes2 = b: seq<byte> | |b| == 2 witness [0, 0]
  type Bytes4 = b: seq<byte> | |b| == 4 witness [0, 0, 0, 0]
  type Bytes6 = b: seq<byte> | |b| == 6 witness [0, 0, 0, 0, 0, 0]
  type Bytes16 = b: seq<byte> | |b| == 16 witness seq(16, _ => 0)
  type Rdata = b: seq<byte> | |b| < 65536

  datatype Data = A(ip4: Bytes4) | Aaaa(ip6: Bytes16) | Cname(rdata: Rdata)

  /** `mid` holds the class and the time to live. */
  datatype Answer = Answer(owner: Owner, mid: Bytes6, data: Data)

  /** `rest` is whatever follows the answers: the authority and additional sections. */
  datatype Message = Message(id: Bytes2, flags: Bytes2, counts: Bytes4, question: WireName, asked: Bytes4,
                             answers: seq<Answer>, rest: seq<byte>)

  /** A response without error, with at least one answer. */
  predicate WellFormed(x: Message) {
    x.flags[0] >= 0x80 && x.flags[1] % 16 == 0 && 0 < |x.answers| < 65536
  }

  function EncodeOwner(o: Owner): seq<byte> {
    match o
    case Pointer(hi, lo) => [hi, lo]
    case Plain(labels) => Wire(labels)
  }

  function Kind(d: Data): nat {
    match d
    case A(_) => TYPE_A
    case Aaaa(_) => TYPE_AAAA
    case Cname(_) => TYPE_CNAME
  }

  function RdataOf(d: Data): Rdata {
    match d
    case A(b) => b
    case Aaaa(b) => b
    case Cname(b) => b
  }

  function EncodeData(mid: Bytes6, d: Data): (r: seq<byte>)
    ensures |r| == 10 + |RdataOf(d)|
  {
    Encode16(Kind(d)) + mid + Encode16(|RdataOf(d)|) + RdataOf(d)
  }

  function EncodeAnswer(a: Answer): seq<byte> {
    EncodeOwner(a.owner) + EncodeData(a.mid, a.data)
  }

  /** The encoded answers, one by one. */
  function Encodings(xs: seq<Answer>): (ws: seq<seq<byte>>)
    ensures |ws| == |xs| && forall i :: 0 <= i < |xs| ==> ws[i] == EncodeAnswer(xs[i])
  {
    seq(|xs|, i requires 0 <= i < |xs| => EncodeAnswer(xs[i]))
  }

  /** The first `n` of these texts, one after the other. */
  function Concat(ws: seq<seq<byte>>, n: nat): seq<byte>
    requires n <= |ws|
  {
    if n == 0 then [] else Concat(ws, n - 1) + ws[n - 1]
  }

  function EncodeAnswers(xs: seq<Answer>): seq<byte> {
    Concat(Encodings(xs), |xs|)
  }

  function Header(x: Message): (r: seq<byte>)
    requires WellFormed(x)
    ensures |r| == 12
  {
    x.id + x.flags + [0, 1] + Encode16(|x.answers|) + x.counts
  }

  function Encode(x: Message): seq<byte>
    requires WellFormed(x)
  {
    Header(x) + (Wire(x.question) + (x.asked + (EncodeAnswers(x.answers) + x.rest)))
  }

  // ---- What should be recorded ----

  function OwnerName(o: Owner, question: Name): Name {
    match o
    case Pointer(_, _) => question
    case Plain(labels) => Dotted(labels)
  }

  /** The addresses of the first `n` answers in order, each under its owner's dotted name. */
  function Recorded(xs: seq<Answer>, n: nat, question: Name): seq<Entry>
    requires n <= |xs|
  {
    if n == 0 then []
    else
      var name := CString(OwnerName(xs[n - 1].owner, question));
      match xs[n - 1].data
      case A(b) => Recorded(xs, n - 1, question) + [Entry(V4(b), name)]
      case Aaaa(b) => Recorded(xs, n - 1, question) + [Entry(V6(b), name)]
      case Cname(_) => Recorded(xs, n - 1, question)
  }

  // ---- Reading back ----

  lemma {:induction false} ReadsEncode16(m: seq<byte>, p: nat, n: nat)
    requires n < 65536 && StandsAt(m, p, Encode16(n))
    ensures Be16(m, p) == n
  {
    assert Encode16(n)[0] == n / 256 && Encode16(n)[1] == n % 256;
    assert m[p + 0] == n / 256 && m[p + 1] == n % 256;
  }

  lemma {:induction false} ReadsLabels(m: seq<byte>, p: nat, labels: seq<Label>, acc: seq<seq<byte>>)
    requires StandsAt(m, p, Wire(labels)) && p + |Wire(labels)| + 4 <= |m|
    ensures GetLabels(m, p, acc) == Read(acc + labels, true, p + |Wire(labels)|)
    decreases |labels|
  {
    if labels == [] {
      assert Wire(labels)[0] == 0;
      assert m[p + 0] == 0;
      assert acc + labels == acc;
    } else {
      var l := labels[0];
      StandsParts(m, p, [|l|] + l, Wire(labels[1..]));
      StandsParts(m, p, [|l|], l);
      assert [|l|][0] == |l|;
      assert m[p + 0] == |l|;
      StandsSlice(m, p + 1, l);
      LabelStep(m, p, acc);
      ReadsLabels(m, p + 1 + |l|, labels[1..], acc + [l]);
      assert acc + [l] + labels[1..] == acc + labels;
    }
  }

  lemma {:induction false} WireMore(labels: seq<Label>, last: Label)
    ensures |Wire(labels + [last])| == |Wire(labels)| + 1 + |last|
  {
    if labels == [] {
      assert labels + [last] == [last];
      assert [last][1..] == [];
    } else {
      assert (labels + [last])[1..] == labels[1..] + [last];
      WireMore(labels[1..], last);
    }
  }

  lemma {:induction false} DottedLength(labels: seq<Label>)
    requires labels != []
    ensures |Wire(labels)| == |Dotted(labels)| + 2
  {
    var n := |labels| - 1;
    assert labels[..n] + [labels[n]] == labels;
    WireMore(labels[..n], labels[n]);
    if n > 0 {
      DottedLength(labels[..n]);
    }
  }

  /** The buffer holds the dotted name and one more dot when that fits. */
  lemma {:induction false} BufferDotted(labels: seq<Label>)
    requires labels != [] && |Dotted(labels)| < ROOM
    ensures Buffer(labels) == Dotted(labels) + [DOT]
  {
    var n := |labels| - 1;
    if n == 0 {
      assert labels[..n] == [];
    } else {
      BufferDotted(labels[..n]);
    }
    GrowFits(Buffer(labels[..n]), labels[n]);
  }

  lemma {:induction false} GrowFits(buf: Name, text: seq<byte>)
    requires |buf| + |text| < ROOM
    ensures Grow(buf, text) == buf + text + [DOT]
  {
  }

  lemma {:induction false} TextDotted(labels: WireName)
    ensures Text(labels, true) == Dotted(labels) && |Dotted(labels)| > 0
  {
    DottedLength(labels);
    BufferDotted(labels);
    WireLong(labels);
  }

  lemma {:induction false} ReadsName(m: seq<byte>, p: nat, labels: WireName)
    requires StandsAt(m, p, Wire(labels)) && p + |Wire(labels)| + 4 <= |m|
    ensures GetName(m, p) == Named(Dotted(labels), p + |Wire(labels)|)
  {
    ReadsLabels(m, p, labels, []);
    assert [] + labels == labels;
    TextDotted(labels);
  }

  lemma {:induction false} WireLong(labels: seq<Label>)
    requires labels != []
    ensures |Wire(labels)| >= 3 && 1 <= Wire(labels)[0] <= 63
  {
  }

  /** The shortest answer is a pointer and an empty alias; one with an address is longer. */
  lemma {:induction false} AnswerLength(a: Answer)
    ensures |EncodeAnswer(a)| >= 12 && (!a.data.Cname? ==> |EncodeAnswer(a)| >= 15)
  {
    if a.owner.Plain? {
      WireLong(a.owner.labels);
    }
  }

  lemma {:induction false} ReadsOwner(m: seq<byte>, p: nat, o: Owner, q: Question)
    requires StandsAt(m, p, EncodeOwner(o)) && p + 15 <= |m| && p + |EncodeOwner(o)| + 4 <= |m|
    ensures GetOwner(m, p, [q]) == Named(OwnerName(o, q.name), p + |EncodeOwner(o)|)
  {
    assert m[p + 0] == EncodeOwner(o)[0];
    if o.Plain? {
      WireLong(o.labels);
      ReadsName(m, p, o.labels);
    }
  }

  function StepFor(d: Data, name: Name, next: nat): Step {
    match d
    case A(b) => Add(Entry(V4(b), CString(name)), next)
    case Aaaa(b) => Add(Entry(V6(b), CString(name)), next)
    case Cname(_) => Skip(next)
  }

  lemma {:induction false} ReadsData(m: seq<byte>, p: nat, mid: Bytes6, d: Data, name: Name)
    requires StandsAt(m, p, EncodeData(mid, d))
    ensures GetData(m, p, name, true) == StepFor(d, name, p + |EncodeData(mid, d)|)
  {
    var k, n := Encode16(Kind(d)), Encode16(|RdataOf(d)|);
    StandsParts(m, p, k + mid + n, RdataOf(d));
    StandsParts(m, p, k + mid, n);
    StandsParts(m, p, k, mid);
    ReadsEncode16(m, p, Kind(d));
    ReadsEncode16(m, p + 8, |RdataOf(d)|);
    StandsSlice(m, p + 10, RdataOf(d));
  }

  lemma {:induction false} ReadsAnswer(m: seq<byte>, p: nat, a: Answer, q: Question)
    requires StandsAt(m, p, EncodeAnswer(a)) && p + 15 <= |m|
    ensures GetAnswer(m, p, [q]) == StepFor(a.data, OwnerName(a.owner, q.name), p + |EncodeAnswer(a)|)
  {
    var o := EncodeOwner(a.owner);
    StandsParts(m, p, o, EncodeData(a.mid, a.data));
    var name := OwnerName(a.owner, q.name);
    ReadsOwner(m, p, a.owner, q);
    AnswerIs(m, p, [q], name, p + |o|);
    ReadsData(m, p + |o|, a.mid, a.data, name);
  }

  /** Where text `i` stands among the texts. */
  function Place(ws: seq<seq<byte>>, i: nat): nat
    requires i <= |ws|
  {
    |Concat(ws, i)|
  }

  lemma {:induction false} PlaceNext(ws: seq<seq<byte>>, i: nat)
    requires i < |ws|
    ensures Place(ws, i + 1) == Place(ws, i) + |ws[i]|
  {
  }

  lemma {:induction false} PlaceBefore(ws: seq<seq<byte>>, i: nat, j: nat)
    requires i <= j <= |ws|
    ensures Place(ws, i) <= Place(ws, j)
    decreases j
  {
    if i < j {
      PlaceBefore(ws, i, j - 1);
      PlaceNext(ws, j - 1);
    }
  }

  lemma {:induction false} TextPlace(m: seq<byte>, p: nat, ws: seq<seq<byte>>, i: nat, n: nat)
    requires i < n <= |ws| && StandsAt(m, p, Concat(ws, n))
    ensures StandsAt(m, p + Place(ws, i), ws[i])
    decreases n
  {
    StandsParts(m, p, Concat(ws, n - 1), ws[n - 1]);
    if i < n - 1 {
      TextPlace(m, p, ws, i, n - 1);
    }
  }

  /** Every answer but the last is followed by enough bytes for the parser to look at it. */
  lemma {:induction false} RoomBefore(m: seq<byte>, p: nat, ws: seq<seq<byte>>, i: nat)
    requires i + 1 < |ws| && StandsAt(m, p, Concat(ws, |ws|)) && |ws[i]| >= 12 && |ws[i + 1]| >= 12
    ensures p + Place(ws, i) + 15 <= |m|
  {
    PlaceNext(ws, i);
    PlaceNext(ws, i + 1);
    PlaceBefore(ws, i + 2, |ws|);
  }

  /** The text `w` is long enough for an answer, and wherever it stands with 15 bytes left it reads back as `a`. */
  ghost predicate Parses(step: Stepper, m: seq<byte>, w: seq<byte>, a: Answer, question: Name) {
    && |w| >= 12
    && forall place: nat {:trigger StandsAt(m, place, w)} :: StandsAt(m, place, w) && place + 15 <= |m| ==>
         step(place) == StepFor(a.data, OwnerName(a.owner, question), place + |w|)
  }

  lemma {:induction false} ParserParses(m: seq<byte>, q: Question, a: Answer)
    ensures Parses(AnswerAt(m, [q]), m, EncodeAnswer(a), a, q.name)
  {
    var w := EncodeAnswer(a);
    AnswerLength(a);
    forall place: nat {:trigger StandsAt(m, place, w)} | StandsAt(m, place, w) && place + 15 <= |m|
      ensures AnswerAt(m, [q])(place) == StepFor(a.data, OwnerName(a.owner, q.name), place + |w|)
    {
      ReadsAnswer(m, place, a, q);
    }
  }

  /** The texts of the answers, each of which reads back. */
  ghost predicate AllParse(step: Stepper, m: seq<byte>, ws: seq<seq<byte>>, xs: seq<Answer>, question: Name) {
    |ws| == |xs| && forall i :: 0 <= i < |xs| ==> Parses(step, m, ws[i], xs[i], question)
  }

  lemma {:induction false} RecordedNext(xs: seq<Answer>, i: nat, question: Name, place: nat, next: nat)
    requires i < |xs|
    ensures Advance(Progress(true, place, Recorded(xs, i, question)),
                    StepFor(xs[i].data, OwnerName(xs[i].owner, question), next))
         == Progress(true, next, Recorded(xs, i + 1, question))
  {
  }

  /** The answer at its place reads back. */
  lemma {:induction false} ReadsAt(step: Stepper, m: seq<byte>, p: nat, ws: seq<seq<byte>>, xs: seq<Answer>,
                                   question: Name, i: nat)
    requires AllParse(step, m, ws, xs, question) && i < |xs| && StandsAt(m, p, Concat(ws, |ws|))
    requires i + 1 == |xs| ==> p + Place(ws, i) + 15 <= |m|
    ensures step(p + Place(ws, i)) == StepFor(xs[i].data, OwnerName(xs[i].owner, question), p + Place(ws, i + 1))
  {
    TextPlace(m, p, ws, i, |ws|);
    PlaceNext(ws, i);
    assert Parses(step, m, ws[i], xs[i], question);
    if i + 1 < |xs| {
      assert Parses(step, m, ws[i + 1], xs[i + 1], question);
      RoomBefore(m, p, ws, i);
    }
  }

  /** Answer `i` is read where it should start, and the next one should start where it ends. */
  ghost predicate StepsOn(step: Stepper, at: seq<nat>, xs: seq<Answer>, question: Name, i: nat) {
    && i < |xs| && |at| == |xs| + 1
    && step(at[i]) == StepFor(xs[i].data, OwnerName(xs[i].owner, question), at[i + 1])
  }

  lemma {:induction false} RunsOver(step: Stepper, at: seq<nat>, xs: seq<Answer>, question: Name, n: nat)
    requires |at| == |xs| + 1 && n <= |xs|
    requires forall i: nat {:trigger StepsOn(step, at, xs, question, i)} :: i < n ==> StepsOn(step, at, xs, question, i)
    ensures GetAnswers(step, at[0], n) == Progress(true, at[n], Recorded(xs, n, question))
    decreases n
  {
    if n > 0 {
      var i := n - 1;
      RunsOver(step, at, xs, question, i);
      assert StepsOn(step, at, xs, question, i);
      OneMore(step, at[0], i, at[i], Recorded(xs, i, question));
      RecordedNext(xs, i, question, at[i], at[n]);
    }
  }

  /** The first `n` answers are read and recorded when the last of them starts early enough in the message. */
  lemma {:induction false} ReadsAnswers(step: Stepper, m: seq<byte>, p: nat, ws: seq<seq<byte>>, xs: seq<Answer>,
                                        question: Name, n: nat)
    requires AllParse(step, m, ws, xs, question) && n <= |xs| && StandsAt(m, p, Concat(ws, |ws|))
    requires n == |xs| > 0 ==> p + Place(ws, n - 1) + 15 <= |m|
    ensures GetAnswers(step, p, n) == Progress(true, p + Place(ws, n), Recorded(xs, n, question))
  {
    var at: seq<nat> := seq(|xs| + 1, i requires 0 <= i <= |ws| => p + Place(ws, i));
    forall i: nat {:trigger StepsOn(step, at, xs, question, i)} | i < n ensures StepsOn(step, at, xs, question, i) {
      ReadsAt(step, m, p, ws, xs, question, i);
    }
    RunsOver(step, at, xs, question, n);
    assert at[0] == p;
  }

  // ---- The whole message ----

  /** The parser looks at an answer only with 15 bytes left, which the last answer may not have. */
  predicate EnoughLeft(xs: seq<Answer>, rest: nat)
    requires xs != []
  {
    |xs| > MAX_ANSWERS || |EncodeAnswer(xs[|xs| - 1])| + rest >= 15
  }

  lemma {:induction false} StandsWhole(m: seq<byte>)
    ensures StandsAt(m, 0, m)
  {
  }

  /** The parts of an encoded message, each at its place. */
  lemma {:induction false} Parts(x: Message)
    requires WellFormed(x)
    ensures var m := Encode(x);
            var q := 12 + |Wire(x.question)|;
            && StandsAt(m, 0, Header(x)) && StandsAt(m, 12, Wire(x.question))
            && StandsAt(m, q + 4, EncodeAnswers(x.answers))
            && |m| == q + 4 + |EncodeAnswers(x.answers)| + |x.rest|
  {
    var m := Encode(x);
    StandsWhole(m);
    FiveParts(m, Header(x), Wire(x.question), x.asked, EncodeAnswers(x.answers), x.rest);
  }

  lemma {:induction false} FiveParts(m: seq<byte>, a: seq<byte>, b: seq<byte>, c: seq<byte>, d: seq<byte>, e: seq<byte>)
    requires StandsAt(m, 0, a + (b + (c + (d + e))))
    ensures StandsAt(m, 0, a) && StandsAt(m, |a|, b) && StandsAt(m, |a| + |b| + |c|, d)
  {
    StandsParts(m, 0, a, b + (c + (d + e)));
    ThreeParts(m, |a|, b, c, d + e);
    StandsParts(m, |a| + |b| + |c|, d, e);
  }

  lemma {:induction false} ThreeParts(m: seq<byte>, p: nat, b: seq<byte>, c: seq<byte>, rest: seq<byte>)
    requires StandsAt(m, p, b + (c + rest))
    ensures StandsAt(m, p, b) && StandsAt(m, p + |b| + |c|, rest)
  {
    StandsParts(m, p, b, c + rest);
    StandsParts(m, p + |b|, c, rest);
  }

  lemma {:induction false} HeaderReads(m: seq<byte>, x: Message)
    requires WellFormed(x) && StandsAt(m, 0, Header(x))
    ensures m[2] >= 0x80 && m[3] % 16 == 0 && Be16(m, 4) == 1 && Be16(m, 6) == |x.answers|
  {
    var n := Encode16(|x.answers|);
    StandsParts(m, 0, x.id + x.flags + [0, 1] + n, x.counts);
    StandsParts(m, 0, x.id + x.flags + [0, 1], n);
    ReadsEncode16(m, 6, |x.answers|);
    StandsParts(m, 0, x.id + x.flags, [0, 1]);
    StandsParts(m, 0, x.id, x.flags);
    assert m[2 + 0] == x.flags[0] && m[2 + 1] == x.flags[1];
    assert m[4 + 0] == [0, 1][0] && m[4 + 1] == [0, 1][1];
  }

  /** The question of an encoded message. */
  lemma {:induction false} QuestionReads(m: seq<byte>, labels: WireName, p: nat)
    requires p == 12 + |Wire(labels)| + 4 && StandsAt(m, 12, Wire(labels)) && p + 1 <= |m|
    ensures GetQuestions(m, 1) == Asked([Question(Dotted(labels), 12)], p)
  {
    ReadsName(m, 12, labels);
    WireLong(labels);
    assert GetQuestions(m, 0) == Asked([], 12);
    assert GetQuestions(m, 1) == NextQuestion(m, Asked([], 12));
  }

  /** The answers of an encoded message: all addresses are recorded even when the last answer is refused. */
  lemma {:induction false} AnswersRead(m: seq<byte>, p: nat, xs: seq<Answer>, rest: nat, q: Question)
    requires 0 < |xs| && StandsAt(m, p, EncodeAnswers(xs)) && |m| == p + |EncodeAnswers(xs)| + rest
    ensures var n := AnswersTaken(|xs|);
            var st := GetAnswers(AnswerAt(m, [q]), p, n);
            st.entries == Recorded(xs, n, q.name) && st.ok == EnoughLeft(xs, rest)
  {
    var ws, step := Encodings(xs), AnswerAt(m, [q]);
    forall i | 0 <= i < |xs| ensures Parses(step, m, ws[i], xs[i], q.name) {
      ParserParses(m, q, xs[i]);
    }
    AnswerLength(xs[|xs| - 1]);
    LastAnswer(step, m, p, ws, xs, rest, q.name);
  }

  /** Only the last answer can start too late, and then it is an alias. */
  lemma {:induction false} LastAnswer(step: Stepper, m: seq<byte>, p: nat, ws: seq<seq<byte>>, xs: seq<Answer>,
                                      rest: nat, question: Name)
    requires 0 < |xs| && AllParse(step, m, ws, xs, question) && StandsAt(m, p, Concat(ws, |ws|))
    requires |m| == p + |Concat(ws, |ws|)| + rest
    requires forall place: nat :: place + 15 > |m| ==> step(place) == Stop
    requires |ws[|xs| - 1]| < 15 ==> xs[|xs| - 1].data.Cname?
    ensures var n := AnswersTaken(|xs|);
            var st := GetAnswers(step, p, n);
            && st.entries == Recorded(xs, n, question)
            && st.ok == (|xs| > MAX_ANSWERS || |ws[|xs| - 1]| + rest >= 15)
  {
    var n, last := AnswersTaken(|xs|), |xs| - 1;
    PlaceNext(ws, last);
    if n < |xs| || |ws[last]| + rest >= 15 {
      ReadsAnswers(step, m, p, ws, xs, question, n);
    } else {
      ReadsAnswers(step, m, p, ws, xs, question, last);
      OneMore(step, p, last, p + Place(ws, last), Recorded(xs, last, question));
    }
  }

  /** A message the parser finds too short holds one alias and no address. */
  lemma {:induction false} ShortRecords(x: Message)
    requires WellFormed(x) && |Encode(x)| < 32
    ensures !EnoughLeft(x.answers, |x.rest|) && Recorded(x.answers, AnswersTaken(|x.answers|), Dotted(x.question)) == []
  {
    var n, ws := |x.answers|, Encodings(x.answers);
    Parts(x);
    WireLong(x.question);
    PlaceNext(ws, n - 1);
    AnswerLength(x.answers[n - 1]);
    if n > 1 {
      OneAnswer(x.answers);
    }
  }

  lemma {:induction false} OneAnswer(xs: seq<Answer>)
    requires |xs| > 1
    ensures |EncodeAnswers(xs)| >= 24
  {
    var n, ws := |xs|, Encodings(xs);
    AnswerLength(xs[n - 1]);
    AnswerLength(xs[n - 2]);
    PlaceNext(ws, n - 1);
    PlaceNext(ws, n - 2);
  }

  /** The questions and answers of a message whose parts stand at their places. */
  lemma {:induction false} BodyReads(m: seq<byte>, labels: WireName, xs: seq<Answer>, rest: nat, p: nat)
    requires p == 12 + |Wire(labels)| + 4 && StandsAt(m, 12, Wire(labels))
    requires 0 < |xs| && StandsAt(m, p, EncodeAnswers(xs)) && |m| == p + |EncodeAnswers(xs)| + rest
    ensures Body(m, 1, AnswersTaken(|xs|)) ==
            Outcome(EnoughLeft(xs, rest), Recorded(xs, AnswersTaken(|xs|), Dotted(labels)))
  {
    PlaceNext(Encodings(xs), |xs| - 1);
    AnswerLength(xs[|xs| - 1]);
    QuestionReads(m, labels, p);
    var q := Question(Dotted(labels), 12);
    AnswersRead(m, p, xs, rest, q);
    BodyIs(m, 1, AnswersTaken(|xs|), [q], p);
  }

  /**
   * Parsing an encoded single-question response records exactly the A and AAAA addresses of its first 16 answers,
   * in order, pointer-named ones under the dotted question name and label-named ones under their own.
   * It returns success exactly when enough bytes follow the start of the last answer.
   */
  lemma {:induction false} RoundTrip(x: Message)
    requires WellFormed(x)
    ensures Response(Encode(x)) ==
            Outcome(EnoughLeft(x.answers, |x.rest|), Recorded(x.answers, AnswersTaken(|x.answers|), Dotted(x.question)))
  {
    var m := Encode(x);
    Parts(x);
    HeaderReads(m, x);
    if |m| < 32 {
      ShortRecords(x);
    } else {
      BodyReads(m, x.question, x.answers, |x.rest|, 12 + |Wire(x.question)| + 4);
    }
  }

  /** A well-formed response that is refused: one alias of two bytes, named by a pointer, with nothing after it. */
  lemma {:induction false} RefusedResponse() returns (x: Message)
    ensures WellFormed(x) && !Response(Encode(x)).ok
  {
    var zeros: Bytes4 := [0, 0, 0, 0];
    var flags: Bytes2 := [0x80, 0];
    var id: Bytes2 := [0, 0];
    var mid: Bytes6 := [0, 1, 0, 0, 0, 60];
    var labels: seq<Label> := [SHORT];
    assert labels[1..] == [] && |Wire(labels)| == 3;
    var question: WireName := labels;
    x := Message(id, flags, zeros, question, zeros, [Answer(Pointer(0xC0, 12), mid, Cname([0xC0, 12]))], []);
    RoundTrip(x);
  }

  // ---- Names without zero bytes, and the table ----

  /** No label has a zero byte. */
  predicate ZeroFree(labels: seq<Label>) {
    forall i :: 0 <= i < |labels| ==> 0 !in labels[i]
  }

  /** No name in the message has a zero byte. */
  predicate NamesZeroFree(x: Message) {
    ZeroFree(x.question) && forall i :: 0 <= i < |x.answers| && x.answers[i].owner.Plain? ==>
                                          ZeroFree(x.answers[i].owner.labels)
  }

  lemma {:induction false} DottedZeroFree(labels: seq<Label>)
    requires labels != [] && ZeroFree(labels)
    ensures 0 !in Dotted(labels)
    decreases |labels|
  {
    var n := |labels| - 1;
    assert 0 !in labels[n];
    if n > 0 {
      DottedZeroFree(labels[..n]);
    }
  }

  ghost predicate Whole(name: Name) {
    CString(name) == name
  }

  /** The owner's name is recorded whole. */
  lemma {:induction false} WholeName(o: Owner, question: WireName)
    requires ZeroFree(question) && (o.Plain? ==> ZeroFree(o.labels))
    ensures Whole(OwnerName(o, Dotted(question)))
  {
    if o.Plain? {
      DottedZeroFree(o.labels);
    } else {
      DottedZeroFree(question);
    }
    CStringIs(OwnerName(o, Dotted(question)));
  }

  function AddrOf(d: Data): Addr
    requires !d.Cname?
  {
    if d.A? then V4(d.ip4) else V6(d.ip6)
  }

  /** The addresses of the first `n` answers in order, each with the whole name of its owner. */
  function Addresses(xs: seq<Answer>, n: nat, question: Name): seq<Entry>
    requires n <= |xs|
  {
    if n == 0 then []
    else
      var before, a := Addresses(xs, n - 1, question), xs[n - 1];
      if a.data.Cname? then before else before + [Entry(AddrOf(a.data), OwnerName(a.owner, question))]
  }

  lemma {:induction false} RecordedWhole(xs: seq<Answer>, n: nat, question: Name)
    requires n <= |xs|
    requires forall i :: 0 <= i < n ==> Whole(OwnerName(xs[i].owner, question))
    ensures Recorded(xs, n, question) == Addresses(xs, n, question)
  {
    if n > 0 {
      RecordedWhole(xs, n - 1, question);
      assert Whole(OwnerName(xs[n - 1].owner, question));
    }
  }

  /** The round trip for names without zero bytes: each address is recorded under the whole dotted name. */
  lemma {:induction false} RoundTripNames(x: Message)
    requires WellFormed(x) && NamesZeroFree(x)
    ensures Response(Encode(x)) ==
            Outcome(EnoughLeft(x.answers, |x.rest|),
                    Addresses(x.answers, AnswersTaken(|x.answers|), Dotted(x.question)))
  {
    RoundTrip(x);
    var n, question := AnswersTaken(|x.answers|), Dotted(x.question);
    forall i | 0 <= i < n
      ensures Whole(OwnerName(x.answers[i].owner, question))
    {
      WholeName(x.answers[i].owner, x.question);
    }
    RecordedWhole(x.answers, n, question);
  }

  /**
   * What a response teaches: every address of its first 16 answers maps to the dotted name of its owner, the last one
   * if there are several for it, and all other addresses keep the names they had.
   */
  method Learn(dns: DnsMapping, x: Message) returns (r: int)
    requires WellFormed(x) && NamesZeroFree(x)
    modifies dns
    ensures r == if EnoughLeft(x.answers, |x.rest|) then 0 else 1
    ensures Learnt(old(dns.table), dns.table,
                   Addresses(x.answers, AnswersTaken(|x.answers|), Dotted(x.question)))
  {
    RoundTripNames(x);
    RecordLearns(dns.table, Addresses(x.answers, AnswersTaken(|x.answers|), Dotted(x.question)));
    r := dns.ParseDnsResponse(Encode(x));
  }

  /**
   * One response in full: the header of a message with one question and one answer, the name asked for with its type
   * and class, and an address, named by a pointer.  The address is recorded under the dotted name.
   */
  lemma {:induction false} OneAddress(question: WireName, asked: Bytes4, ip: Bytes4)
    requires ZeroFree(question)
    ensures Response([0x12, 0x34, 0x81, 0x80, 0, 1, 0, 1, 0, 0, 0, 0] + (Wire(question) + (asked +
                     ([0xC0, 12, 0, 1, 0, 1, 0, 0, 0, 60, 0, 4] + ip))))
         == Outcome(true, [Entry(V4(ip), Dotted(question))])
  {
    var id: Bytes2, flags: Bytes2, zeros: Bytes4 := [0x12, 0x34], [0x81, 0x80], [0, 0, 0, 0];
    var a := ExampleAnswer(ip);
    var x := Message(id, flags, zeros, question, asked, [a], []);
    OneAnswerIs(a, Dotted(question));
    HeaderIs(x);
    var es := EncodeAnswers([a]);
    assert es + [] == es;
    RoundTripNames(x);
  }

  lemma {:induction false} HeaderIs(x: Message)
    requires WellFormed(x) && |x.answers| == 1
    ensures Header(x) == [x.id[0], x.id[1], x.flags[0], x.flags[1], 0, 1, 0, 1,
                          x.counts[0], x.counts[1], x.counts[2], x.counts[3]]
  {
  }

  lemma {:induction false} ExampleAnswer(ip: Bytes4) returns (a: Answer)
    ensures a.owner == Pointer(0xC0, 12) && a.data == Data.A(ip)
    ensures EncodeAnswer(a) == [0xC0, 12, 0, 1, 0, 1, 0, 0, 0, 60, 0, 4] + ip
  {
    var mid: Bytes6 := [0, 1, 0, 0, 0, 60];
    a := Answer(Pointer(0xC0, 12), mid, Data.A(ip));
  }

  lemma {:induction false} OneAnswerIs(a: Answer, question: Name)
    ensures EncodeAnswers([a]) == EncodeAnswer(a)
    ensures a.data.A? && a.owner.Pointer? ==> Addresses([a], 1, question) == [Entry(V4(a.data.ip4), question)]
  {
    var ws := Encodings([a]);
    assert Concat(ws, 1) == Concat(ws, 0) + ws[0];
    assert Addresses([a], 0, question) == [];
  }

  /** The bytes of an answer after its owner: type 1 is an address, 28 a long one and 5 an alias. */
  lemma {:induction false} DataBytes(mid: Bytes6, d: Data)
    ensures EncodeData(mid, d) ==
            [0, if d.A? then 1 else if d.Aaaa? then 28 else 5] + mid
            + [|RdataOf(d)| / 256, |RdataOf(d)| % 256] + RdataOf(d)
  {
  }

  /** A name of three labels, on the wire and as it is recorded. */
  lemma {:induction false} ThreeLabels(a: Label, b: Label, c: Label)
    ensures var labels: seq<Label> := [a, b, c];
            && Wire(labels) == [|a|] + a + ([|b|] + b + ([|c|] + c + [0]))
            && Dotted(labels) == a + [46] + b + [46] + c
  {
    var three: seq<Label>, two: seq<Label>, one: seq<Label>, none: seq<Label> := [a, b, c], [b, c], [c], [];
    assert three[1..] == two && two[1..] == one && one[1..] == none;
    assert Wire(none) == [0] && Wire(one) == [|c|] + c + Wire(none) && Wire(two) == [|b|] + b + Wire(one);
    var ab: seq<Label>, justA: seq<Label> := [a, b], [a];
    assert three[..2] == ab && ab[..1] == justA;
    assert Dotted(justA) == a && Dotted(ab) == Dotted(justA) + [DOT] + b;
  }
}
