/**
 * The DNS response parser: one cursor moves over the message, the question names are kept, and every
 * A and AAAA answer is recorded in the address table.
 *
 * `Response` says what parsing does to any message at all; `RoundTrip` says what that is for an encoded
 * single-question response (sections 4.1.1 to 4.1.4 of RFC 1035, AAAA from section 2.2 of RFC 3596).
 */
module DnsResponse {

  import opened Bytes
  import opened Options

  type Name = seq<byte>

  const ROOM := 255         // MAX_DOMAINNAME_SIZE less its terminator
  const DOT: byte := 46
  const MAX_ANSWERS := 16
  const MAX_QUERIES := 8

  const TYPE_A := 1
  const TYPE_CNAME := 5
  const TYPE_AAAA := 28

  // ---- Addresses ----

  datatype Addr = V4(b4: seq<byte>) | V6(b6: seq<byte>)

  /** The IPv4 address an address carries: its own, or the one embedded in a 6to4, mapped or NAT64 address. */
  function Embedded(a: Addr): seq<byte> {
    match a
    case V4(b) => b
    case V6(b) =>
      if |b| != 16 then []
      else if b[0] / 16 == 2 then if b[0] == 0x20 && b[1] == 2 then b[2..6] else Zeros(4)
      else if b[..10] == Zeros(10) && b[10] == b[11] == 0xFF then b[12..]
      else if b[..4] == [0, 0x64, 0xFF, 0x9B] then b[12..]
      else Zeros(4)
  }

  /** Addresses are compared by the IPv4 address they carry when it is not zero, and by all their bytes otherwise. */
  function Key(a: Addr): seq<byte> {
    if Embedded(a) != Zeros(4) then Embedded(a)
    else match a
         case V4(_) => Zeros(16)
         case V6(b) => b
  }

  /** The sixteen bytes `b` carry the IPv4 address `v`, as a 6to4, a mapped or a NAT64 address. */
  predicate Carries(b: seq<byte>, v: seq<byte>) {
    && |b| == 16 && |v| == 4
    && (|| (b[0] == 0x20 && b[1] == 0x02 && b[2..6] == v)
        || (b[..10] == Zeros(10) && b[10] == 0xFF && b[11] == 0xFF && b[12..] == v)
        || (b[0] == 0 && b[1] == 0x64 && b[2] == 0xFF && b[3] == 0x9B && b[12..] == v))
  }

  lemma {:induction false} EmbeddedIs(b: seq<byte>, v: seq<byte>)
    requires |b| == 16 && |v| == 4 && v != Zeros(4)
    ensures Embedded(V6(b)) == v <==> Carries(b, v)
  {
    assert b[..10] == Zeros(10) ==> b[0] == b[..10][0] == 0 && b[1] == b[..10][1] == 0;
    assert b[..4] == [b[0], b[1], b[2], b[3]];
  }

  /** Two IPv4 addresses share an entry exactly when they are the same. */
  lemma {:induction false} SameEntryV4(a: seq<byte>, b: seq<byte>)
    requires |a| == |b| == 4
    ensures Key(V4(a)) == Key(V4(b)) <==> a == b
  {
    assert |Zeros(16)| == 16;
  }

  /** An IPv4 and an IPv6 address share one exactly when the second carries the first, or both are all zeros. */
  lemma {:induction false} SameEntryV4V6(a: seq<byte>, b: seq<byte>)
    requires |a| == 4 && |b| == 16
    ensures Key(V4(a)) == Key(V6(b)) <==> if a == Zeros(4) then b == Zeros(16) else Carries(b, a)
  {
    if a != Zeros(4) {
      EmbeddedIs(b, a);
    } else if b == Zeros(16) {
      assert b[0] == 0 && b[1] == 0 && b[10] == 0;
      assert b[..4][1] == 0;
    }
  }

  /** Two IPv6 addresses share one exactly when they are the same or carry the same IPv4 address that is not zero. */
  lemma {:induction false} SameEntryV6(a: seq<byte>, b: seq<byte>)
    requires |a| == |b| == 16
    ensures Key(V6(a)) == Key(V6(b)) <==>
            a == b || exists v :: v != Zeros(4) && Carries(a, v) && Carries(b, v)
  {
    var v := Embedded(V6(a));
    if Key(V6(a)) == Key(V6(b)) && a != b {
      EmbeddedIs(a, v);
      EmbeddedIs(b, v);
    }
    if v :| v != Zeros(4) && Carries(a, v) && Carries(b, v) {
      EmbeddedIs(a, v);
      EmbeddedIs(b, v);
    }
  }

  // ---- The table ----

  datatype Entry = Entry(addr: Addr, name: Name)

  type Table = map<seq<byte>, Name>

  /** Entries recorded one after the other: the last name given to an address stays. */
  function Record(t: Table, es: seq<Entry>): Table {
    if es == [] then t
    else
      var e := es[|es| - 1];
      Record(t, es[..|es| - 1])[Key(e.addr) := e.name]
  }

  lemma {:induction false} RecordMore(t: Table, es: seq<Entry>, e: Entry)
    ensures Record(t, es + [e]) == Record(t, es)[Key(e.addr) := e.name]
  {
    assert (es + [e])[..|es|] == es;
  }

  /** None of the entries from `i` on is for the address with this key. */
  ghost predicate NoneFrom(es: seq<Entry>, i: nat, k: seq<byte>) {
    forall j :: i <= j < |es| ==> Key(es[j].addr) != k
  }

  /**
   * The table after some entries: each address has the name of the last entry for it, and addresses without one have
   * the name they had, if any.
   */
  ghost predicate Learnt(before: Table, after: Table, es: seq<Entry>) {
    && (forall i :: 0 <= i < |es| && NoneFrom(es, i + 1, Key(es[i].addr)) ==>
          Key(es[i].addr) in after && after[Key(es[i].addr)] == es[i].name)
    && (forall k {:trigger NoneFrom(es, 0, k)} :: NoneFrom(es, 0, k) ==>
          (k in after <==> k in before) && (k in before ==> after[k] == before[k]))
  }

  lemma {:induction false} RecordLearns(t: Table, es: seq<Entry>)
    ensures Learnt(t, Record(t, es), es)
  {
    forall i | 0 <= i < |es| && NoneFrom(es, i + 1, Key(es[i].addr))
      ensures var r := Record(t, es); Key(es[i].addr) in r && r[Key(es[i].addr)] == es[i].name
    {
      LastNameStays(t, es, i, Key(es[i].addr));
    }
    forall k {:trigger NoneFrom(es, 0, k)} | NoneFrom(es, 0, k)
      ensures var r := Record(t, es); (k in r <==> k in t) && (k in t ==> r[k] == t[k])
    {
      OthersStay(t, es, k);
    }
  }

  lemma {:induction false} LastNameStays(t: Table, es: seq<Entry>, i: nat, k: seq<byte>)
    requires i < |es| && k == Key(es[i].addr) && NoneFrom(es, i + 1, k)
    ensures k in Record(t, es) && Record(t, es)[k] == es[i].name
    decreases |es|
  {
    var n := |es| - 1;
    if i < n {
      assert es[..n][i] == es[i];
      assert NoneFrom(es[..n], i + 1, k);
      LastNameStays(t, es[..n], i, k);
      assert Key(es[n].addr) != k;
    }
  }

  lemma {:induction false} OthersStay(t: Table, es: seq<Entry>, k: seq<byte>)
    requires NoneFrom(es, 0, k)
    ensures (k in Record(t, es) <==> k in t) && (k in t ==> Record(t, es)[k] == t[k])
    decreases |es|
  {
    if es != [] {
      var n := |es| - 1;
      assert NoneFrom(es[..n], 0, k);
      OthersStay(t, es[..n], k);
      assert Key(es[n].addr) != k;
    }
  }

  /** A stored name ends at its first zero byte. */
  function CString(s: Name): Name {
    if s == [] || s[0] == NUL then [] else [s[0]] + CString(s[1..])
  }

  /** It is what stands before the first zero byte, or all of it. */
  lemma {:induction false} CStringIs(s: Name)
    ensures CString(s) <= s && 0 !in CString(s)
    ensures |CString(s)| < |s| ==> s[|CString(s)|] == 0
    ensures 0 !in s ==> CString(s) == s
  {
    if s != [] && s[0] != 0 {
      CStringIs(s[1..]);
    }
  }

  // ---- Names ----

  /** A bounded buffer takes what fits. */
  function Append(buf: Name, s: seq<byte>): (r: Name)
    requires |buf| <= ROOM
    ensures |r| <= ROOM
  {
    if |buf| + |s| <= ROOM then buf + s else buf + s[..ROOM - |buf|]
  }

  function DropLast(buf: Name): Name {
    if buf == [] then [] else buf[..|buf| - 1]
  }

  /** The buffer after one more label and its dot. */
  function Grow(buf: Name, text: seq<byte>): (r: Name)
    requires |buf| <= ROOM
    ensures |r| <= ROOM
  {
    Append(Append(buf, text), [DOT])
  }

  /** The buffer after these labels. */
  function Buffer(labels: seq<seq<byte>>): (r: Name)
    ensures |r| <= ROOM
  {
    if labels == [] then [] else Grow(Buffer(labels[..|labels| - 1]), labels[|labels| - 1])
  }

  lemma {:induction false} BufferMore(labels: seq<seq<byte>>, text: seq<byte>)
    ensures Buffer(labels + [text]) == Grow(Buffer(labels), text)
  {
    assert (labels + [text])[..|labels|] == labels;
  }

  /** The labels with a dot after each. */
  function Joined(labels: seq<seq<byte>>): seq<byte> {
    if labels == [] then [] else Joined(labels[..|labels| - 1]) + labels[|labels| - 1] + [46]
  }

  /** The bounded buffer holds as much of that as 255 bytes can. */
  lemma {:induction false} BufferIs(labels: seq<seq<byte>>)
    ensures Buffer(labels) == First255(Joined(labels))
    decreases |labels|
  {
    if labels != [] {
      var rest, last := labels[..|labels| - 1], labels[|labels| - 1];
      BufferIs(rest);
      AppendIs(Joined(rest), last);
      AppendIs(Joined(rest) + last, [46]);
    }
  }

  function First255(s: seq<byte>): (r: seq<byte>)
    ensures |r| <= 255
  {
    s[..if |s| <= 255 then |s| else 255]
  }

  lemma {:induction false} AppendIs(buf: seq<byte>, s: seq<byte>)
    ensures Append(First255(buf), s) == First255(buf + s)
  {
  }

  /** The labels read, whether the zero byte that ends a name was seen, and where reading stopped. */
  datatype Labels = BadName | Read(labels: seq<seq<byte>>, ended: bool, next: nat)

  function GetLabels(m: seq<byte>, p: nat, acc: seq<seq<byte>>): (r: Labels)
    requires p < |m|
    ensures r.Read? ==> p < r.next < |m|
    decreases |m| - p
  {
    var n := m[p];
    var q := p + 1;
    if q + n >= |m| then BadName
    else if n == 0 then Read(acc, true, q)
    else if q + n + 4 < |m| then GetLabels(m, q + n, acc + [m[q..q + n]])
    else Read(acc + [m[q..q + n]], false, q + n)
  }

  /** The last label before the end of the message. */
  lemma {:induction false} LastLabel(m: seq<byte>, p: nat, acc: seq<seq<byte>>)
    requires p < |m| && 0 < m[p] && p + 1 + m[p] < |m| <= p + 1 + m[p] + 4
    ensures GetLabels(m, p, acc) == Read(acc + [m[p + 1..p + 1 + m[p]]], false, p + 1 + m[p])
  {
  }

  /** One label of a name. */
  lemma {:induction false} LabelStep(m: seq<byte>, p: nat, acc: seq<seq<byte>>)
    requires p < |m| && 0 < m[p] && p + 1 + m[p] + 4 < |m|
    ensures GetLabels(m, p, acc) == GetLabels(m, p + 1 + m[p], acc + [m[p + 1..p + 1 + m[p]]])
  {
  }

  /** The text of a name: the dot after the last label of a whole name is taken off. */
  function Text(labels: seq<seq<byte>>, ended: bool): Name {
    if ended then DropLast(Buffer(labels)) else Buffer(labels)
  }

  /** The name at position `p`, and the position after it. */
  datatype NameResult = NoName | Named(name: Name, next: nat)

  function GetName(m: seq<byte>, p: nat): NameResult
    requires p < |m|
  {
    var r := GetLabels(m, p, []);
    if r.BadName? || |Text(r.labels, r.ended)| == 0 then NoName else Named(Text(r.labels, r.ended), r.next)
  }

  // ---- Questions ----

  datatype Question = Question(name: Name, offset: nat)

  datatype Questions = BadQuestions | Asked(qs: seq<Question>, next: nat)

  /** One more question. */
  function NextQuestion(m: seq<byte>, st: Questions): Questions {
    match st
    case BadQuestions => BadQuestions
    case Asked(qs, p) =>
      if p + 5 >= |m| then BadQuestions
      else
        var r := GetName(m, p);
        if r.NoName? || r.next + 4 >= |m| then BadQuestions
        else Asked(qs + [Question(r.name, p % 65536)], r.next + 4)
  }

  /** After the first `n` questions. */
  function GetQuestions(m: seq<byte>, n: nat): (r: Questions)
    ensures r.Asked? ==> |r.qs| == n
  {
    if n == 0 then Asked([], 12) else NextQuestion(m, GetQuestions(m, n - 1))
  }

  lemma {:induction false} BadStays(m: seq<byte>, i: nat, n: nat)
    requires i <= n && GetQuestions(m, i).BadQuestions?
    ensures GetQuestions(m, n).BadQuestions?
    decreases n
  {
    if i < n {
      BadStays(m, i, n - 1);
    }
  }

  // ---- Answers ----

  function At(m: seq<byte>, i: nat): byte {
    if i < |m| then m[i] else 0
  }

  function Be16(m: seq<byte>, i: nat): (r: nat)
    ensures r < 65536
  {
    At(m, i) * 256 + At(m, i + 1)
  }

  /** The first question from `j` on that starts at this offset, or the number of questions. */
  function FindOffset(qs: seq<Question>, j: nat, offset: nat): (r: nat)
    requires j <= |qs|
    ensures r <= |qs| && (r < |qs| ==> qs[r].offset == offset)
    decreases |qs| - j
  {
    if j == |qs| || qs[j].offset == offset then j else FindOffset(qs, j + 1, offset)
  }

  function GetOwner(m: seq<byte>, p: nat, qs: seq<Question>): (r: NameResult)
    requires p + 15 <= |m| && qs != []
  {
    if m[p] >= 0xC0 then
      var j := if |qs| > 1 then FindOffset(qs, 0, Be16(m, p) % 0x1000) else 0;
      if j == |qs| then NoName else Named(qs[j].name, p + 2)
    else GetName(m, p)
  }

  datatype Step = Stop | Skip(next: nat) | Add(entry: Entry, next: nat)

  /** An answer after its owner name. */
  function GetData(m: seq<byte>, p: nat, name: Name, single: bool): Step {
    var kind := Be16(m, p);
    if kind == TYPE_A then
      if p + 14 > |m| || Be16(m, p + 8) != 4 then Stop
      else Add(Entry(V4(m[p + 10..p + 14]), CString(name)), p + 14)
    else if kind == TYPE_AAAA then
      if p + 26 > |m| || Be16(m, p + 8) != 16 then Stop
      else Add(Entry(V6(m[p + 10..p + 26]), CString(name)), p + 26)
    else if kind == TYPE_CNAME && single then
      if p + 10 > |m| then Stop else Skip(p + 10 + Be16(m, p + 8))
    else Stop
  }

  function GetAnswer(m: seq<byte>, p: nat, qs: seq<Question>): Step
    requires qs != []
  {
    if p + 15 > |m| then Stop
    else
      var r := GetOwner(m, p, qs);
      if r.NoName? then Stop else GetData(m, r.next, r.name, |qs| == 1)
  }

  lemma {:induction false} AnswerIs(m: seq<byte>, p: nat, qs: seq<Question>, name: Name, next: nat)
    requires qs != [] && p + 15 <= |m| && GetOwner(m, p, qs) == Named(name, next)
    ensures GetAnswer(m, p, qs) == GetData(m, next, name, |qs| == 1)
  {
  }

  /** How far the answers have been taken: whether none was refused, where the next one starts, what was recorded. */
  datatype Progress = Progress(ok: bool, next: nat, entries: seq<Entry>)

  /** What the answer at each position comes to. */
  type Stepper = nat -> Step

  function AnswerAt(m: seq<byte>, qs: seq<Question>): Stepper
    requires qs != []
  {
    (p: nat) => GetAnswer(m, p, qs)
  }

  function Advance(st: Progress, step: Step): Progress {
    match step
    case Stop => st.(ok := false)
    case Skip(next) => st.(next := next)
    case Add(e, next) => Progress(true, next, st.entries + [e])
  }

  /** After the first `n` answers, starting at position `start`. */
  function GetAnswers(step: Stepper, start: nat, n: nat): (r: Progress)
    ensures |r.entries| <= n
  {
    if n == 0 then Progress(true, start, [])
    else
      var st := GetAnswers(step, start, n - 1);
      if st.ok then Advance(st, step(st.next)) else st
  }

  lemma {:induction false} OneMore(step: Stepper, start: nat, n: nat, next: nat, entries: seq<Entry>)
    requires GetAnswers(step, start, n) == Progress(true, next, entries)
    ensures GetAnswers(step, start, n + 1) == Advance(Progress(true, next, entries), step(next))
  {
  }

  lemma {:induction false} StopStays(step: Stepper, start: nat, i: nat, n: nat)
    requires i <= n && !GetAnswers(step, start, i).ok
    ensures GetAnswers(step, start, n) == GetAnswers(step, start, i)
    decreases n
  {
    if i < n {
      StopStays(step, start, i, n - 1);
    }
  }

  datatype Outcome = Outcome(ok: bool, entries: seq<Entry>)

  /** A message the parser looks into: long enough, a response without error, with questions and answers. */
  predicate Accepts(m: seq<byte>) {
    |m| >= 32 && m[2] >= 0x80 && m[3] % 16 == 0 && 1 <= Be16(m, 4) <= MAX_QUERIES && Be16(m, 6) > 0
  }

  function AnswersTaken(n: nat): nat {
    if n > MAX_ANSWERS then MAX_ANSWERS else n
  }

  /** The questions and then the answers. */
  function Body(m: seq<byte>, nqueries: nat, nanswers: nat): Outcome
    requires nqueries > 0
  {
    match GetQuestions(m, nqueries)
    case BadQuestions => Outcome(false, [])
    case Asked(qs, p) =>
      var st := GetAnswers(AnswerAt(m, qs), p, nanswers);
      Outcome(st.ok, st.entries)
  }

  lemma {:induction false} BodyIs(m: seq<byte>, nqueries: nat, nanswers: nat, qs: seq<Question>, p: nat)
    requires nqueries > 0 && GetQuestions(m, nqueries) == Asked(qs, p)
    ensures var st := GetAnswers(AnswerAt(m, qs), p, nanswers);
            Body(m, nqueries, nanswers) == Outcome(st.ok, st.entries)
  {
  }

  /** What parsing a message returns and records. */
  function Response(m: seq<byte>): Outcome {
    if !Accepts(m) then Outcome(false, []) else Body(m, Be16(m, 4), AnswersTaken(Be16(m, 6)))
  }

  /** Messages that are refused unread: short ones, queries, errors, and those without questions or answers. */
  lemma {:induction false} RefusedUnread(m: seq<byte>)
    requires |m| < 32 || m[2] < 128 || m[3] % 16 != 0 || Be16(m, 4) == 0 || Be16(m, 4) > 8 || Be16(m, 6) == 0
    ensures Response(m) == Outcome(false, [])
  {
  }

  /** Of many answers only sixteen are read. */
  lemma {:induction false} SixteenAnswers(m: seq<byte>)
    requires |m| >= 32 && m[2] >= 128 && m[3] % 16 == 0 && 1 <= Be16(m, 4) <= 8 && Be16(m, 6) > 0
    ensures Response(m) == Body(m, Be16(m, 4), if Be16(m, 6) <= 16 then Be16(m, 6) else 16)
  {
  }

  class DnsMapping {
    var table: Table

    constructor ()
      ensures table == map[]
    {
      table := map[];
    }

    /** Looks the address up and replaces its name, or adds a new entry. */
    method AddDnsEntry(domain: Name, addr: Addr)
      modifies this
      ensures table == old(table)[Key(addr) := CString(domain)]
    {
      var name := CString(domain);
      if Key(addr) in table {
        if table[Key(addr)] != name {
          table := table[Key(addr) := name];
        }
      } else {
        table := table[Key(addr) := name];
      }
    }

    method ParseDnsResponse(m: seq<byte>) returns (r: int)
      modifies this
      ensures r == (if Response(m).ok then 0 else 1)
      ensures table == Record(old(table), Response(m).entries)
    {
      if |m| < 32 || m[2] < 0x80 || m[3] % 16 != 0 {
        return 1;
      }
      var nqueries, nanswers := Be16(m, 4), Be16(m, 6);
      if nqueries == 0 || nqueries > MAX_QUERIES || nanswers == 0 {
        return 1;
      }
      if nanswers > MAX_ANSWERS {
        nanswers := MAX_ANSWERS;
      }
      var ok := ParseBody(m, nqueries, nanswers);
      return if ok then 0 else 1;
    }

    method ParseBody(m: seq<byte>, nqueries: nat, nanswers: nat) returns (ok: bool)
      requires nqueries > 0
      modifies this
      ensures var o := Body(m, nqueries, nanswers);
              ok == o.ok && table == Record(old(table), o.entries)
    {
      var qs, p;
      ok, qs, p := ParseQuestions(m, nqueries);
      if ok {
        ok := ParseAnswers(m, p, qs, nanswers);
      }
    }

    /** The loop over the answers. */
    method ParseAnswers(m: seq<byte>, start: nat, qs: seq<Question>, nanswers: nat) returns (ok: bool)
      requires qs != []
      modifies this
      ensures var st := GetAnswers(AnswerAt(m, qs), start, nanswers);
              ok == st.ok && table == Record(old(table), st.entries)
    {
      var p := start;
      ghost var acc: seq<Entry> := [];
      ghost var step := AnswerAt(m, qs);
      for i := 0 to nanswers
        invariant GetAnswers(step, start, i) == Progress(true, p, acc)
        invariant table == Record(old(table), acc)
      {
        var good, next, entry := ParseAnswer(m, p, qs);
        OneMore(step, start, i, p, acc);
        if !good {
          StopStays(step, start, i + 1, nanswers);
          return false;
        }
        p := next;
        if entry.Some? {
          AddDnsEntry(entry.value.name, entry.value.addr);
          ghost var e := Entry(entry.value.addr, CString(entry.value.name));
          RecordMore(old(table), acc, e);
          acc := acc + [e];
        }
      }
      return true;
    }
  }

  /**
   * One round of the answer loop up to the recording: where the next answer starts, and what to record, if anything.
   */
  method ParseAnswer(m: seq<byte>, start: nat, qs: seq<Question>)
    returns (ok: bool, p: nat, entry: Option<Entry>)
    requires qs != []
    ensures match GetAnswer(m, start, qs)
            case Stop => !ok
            case Skip(next) => ok && p == next && entry == None
            case Add(e, next) =>
              && ok && p == next && entry.Some?
              && e == Entry(entry.value.addr, CString(entry.value.name))
  {
    p := start;
    if p + 15 > |m| {
      return false, p, None;
    }
    var good, name, next := ParseOwner(m, p, qs);
    if !good {
      return false, p, None;
    }
    p := next;
    var tdata := Be16(m, p);
    if tdata == TYPE_A {
      p := p + 8;
      if p + 2 + 4 > |m| {
        return false, p, None;
      }
      tdata := Be16(m, p);
      if tdata != 4 {
        return false, p, None;
      }
      p := p + 2;
      var addr := V4(m[p..p + 4]);
      p := p + 4;
      return true, p, Some(Entry(addr, name));
    } else if tdata == TYPE_AAAA {
      p := p + 8;
      if p + 2 + 16 > |m| {
        return false, p, None;
      }
      tdata := Be16(m, p);
      if tdata != 16 {
        return false, p, None;
      }
      p := p + 2;
      var addr := V6(m[p..p + 16]);
      p := p + 16;
      return true, p, Some(Entry(addr, name));
    } else if tdata == TYPE_CNAME && |qs| == 1 {
      p := p + 8;
      if p + 2 > |m| {
        return false, p, None;
      }
      tdata := Be16(m, p);
      p := p + 2 + tdata;
      return true, p, None;
    }
    return false, p, None;
  }

  /** The loop over the labels of a name, which fills the bounded buffer. */
  method ParseLabels(m: seq<byte>, start: nat) returns (ok: bool, name: Name, p: nat)
    requires start < |m|
    ensures LabelsRead(GetLabels(m, start, []), ok, name, p)
  {
    p, name, ok := start, [], false;
    ghost var labels: seq<seq<byte>> := [];
    var more := true;
    while more
      invariant more ==> p < |m| && name == Buffer(labels) && GetLabels(m, p, labels) == GetLabels(m, start, [])
      invariant !more ==> LabelsRead(GetLabels(m, start, []), ok, name, p)
      decreases more, |m| - p
    {
      more, ok, name, p, labels := ParseLabel(m, p, name, labels);
    }
  }

  /** A label and its dot go into the buffer, as far as they fit. */
  method AddLabel(name: Name, text: seq<byte>, ghost labels: seq<seq<byte>>) returns (name': Name)
    requires name == Buffer(labels)
    ensures name' == Buffer(labels + [text])
  {
    name' := Append(name, text);
    name' := Append(name', [DOT]);
    BufferMore(labels, text);
  }

  /** One round of the loop. */
  method ParseLabel(m: seq<byte>, p: nat, name: Name, ghost labels: seq<seq<byte>>)
    returns (more: bool, ok: bool, name': Name, p': nat, ghost labels': seq<seq<byte>>)
    requires p < |m| && name == Buffer(labels)
    ensures if more then
              p < p' < |m| && name' == Buffer(labels') && GetLabels(m, p', labels') == GetLabels(m, p, labels)
            else LabelsRead(GetLabels(m, p, labels), ok, name', p')
  {
    var n := m[p];
    labels' := labels;
    if p + 1 + n >= |m| {
      return false, false, name, p, labels;
    }
    if n == 0 {
      return false, true, DropLast(name), p + 1, labels;
    }
    ghost var text := m[p + 1..p + 1 + n];
    name' := AddLabel(name, m[p + 1..p + 1 + n], labels);
    if p + 1 + n + 4 >= |m| {
      LastLabel(m, p, labels);
      return false, true, name', p + 1 + n, labels;
    }
    LabelStep(m, p, labels);
    return true, true, name', p + 1 + n, labels + [text];
  }

  /** The name of the labels read, and where reading stopped. */
  ghost predicate LabelsRead(r: Labels, ok: bool, name: Name, p: nat) {
    ok == r.Read? && (ok ==> p == r.next && name == Text(r.labels, r.ended))
  }

  /** A name; an empty one is refused. */
  method ParseName(m: seq<byte>, start: nat) returns (ok: bool, name: Name, p: nat)
    requires start < |m|
    ensures GetName(m, start) == if ok then Named(name, p) else NoName
  {
    ok, name, p := ParseLabels(m, start);
    if ok && |name| == 0 {
      ok := false;
    }
  }

  /** One round of the question loop. */
  method ParseQuestion(m: seq<byte>, start: nat) returns (ok: bool, q: Question, p: nat)
    ensures forall qs :: NextQuestion(m, Asked(qs, start)) == if ok then Asked(qs + [q], p) else BadQuestions
  {
    q, p := Question([], 0), start;
    if p + 5 >= |m| {
      return false, q, p;
    }
    var good, name, next := ParseName(m, p);
    if !good || next + 4 >= |m| {
      return false, q, p;
    }
    return true, Question(name, p % 65536), next + 4;
  }

  /** The loop over the questions, keeping their names and where they start. */
  method ParseQuestions(m: seq<byte>, nqueries: nat) returns (ok: bool, qs: seq<Question>, p: nat)
    ensures GetQuestions(m, nqueries) == if ok then Asked(qs, p) else BadQuestions
  {
    qs, p := [], 12;
    for i := 0 to nqueries
      invariant GetQuestions(m, i) == Asked(qs, p)
    {
      var good, q, next := ParseQuestion(m, p);
      assert GetQuestions(m, i + 1) == NextQuestion(m, Asked(qs, p));
      if !good {
        BadStays(m, i + 1, nqueries);
        return false, [], 0;
      }
      qs, p := qs + [q], next;
    }
    return true, qs, p;
  }

  /** The owner name of an answer: a saved question name for a pointer, its own labels otherwise. */
  method ParseOwner(m: seq<byte>, start: nat, qs: seq<Question>) returns (ok: bool, name: Name, p: nat)
    requires start + 15 <= |m| && qs != []
    ensures GetOwner(m, start, qs) == if ok then Named(name, p) else NoName
  {
    if m[start] >= 0xC0 {
      var tdata := Be16(m, start) % 0x1000;
      var j: nat := 0;
      if |qs| > 1 {
        while j < |qs| && qs[j].offset != tdata
          invariant j <= |qs| && FindOffset(qs, 0, tdata) == FindOffset(qs, j, tdata)
        {
          j := j + 1;
        }
        if j == |qs| {
          return false, [], 0;
        }
      }
      return true, qs[j].name, start + 2;
    }
    ok, name, p := ParseName(m, start);
  }
}
