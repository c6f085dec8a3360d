/**
 * Filter normalisation: criteria are interned as numbers, the filter becomes an OR of AND groups of them,
 * and the groups are counted.
 *
 * The distribution of AND over OR is done in the source by a library; here it is the textbook
 * distribution (`Dnf`).  A filter is the tree that its text denotes.
 */
module FilterGroups {

  import opened Options

  datatype Filter = Crit(text: string) | And(l: Filter, r: Filter) | Or(l: Filter, r: Filter)

  /** The same filter over criterion numbers. */
  datatype Expr = Id(id: nat) | All(a: Expr, b: Expr) | Any(c: Expr, d: Expr)

  type Assignment = string -> bool
  type HashFn = string -> nat
  type Group = set<nat>

  const MAX_CRITERIA_GROUPS := 64
  const MAX_ONE_GROUP_CRITERIA := 64
  const MAX_QUERY_CRITERIA := 256
  const MIN_CRITERION := 5

  // ---- Meaning ----

  predicate Eval(f: Filter, v: Assignment) {
    match f
    case Crit(text) => v(text)
    case And(l, r) => Eval(l, v) && Eval(r, v)
    case Or(l, r) => Eval(l, v) || Eval(r, v)
  }

  predicate EvalExpr(e: Expr, v: nat -> bool) {
    match e
    case Id(id) => v(id)
    case All(a, b) => EvalExpr(a, v) && EvalExpr(b, v)
    case Any(c, d) => EvalExpr(c, v) || EvalExpr(d, v)
  }

  function Leaves(f: Filter): (r: seq<string>)
    ensures |r| > 0
  {
    match f
    case Crit(text) => [text]
    case And(l, r) => Leaves(l) + Leaves(r)
    case Or(l, r) => Leaves(l) + Leaves(r)
  }

  // ---- Interning ----

  /** The first of the texts with this hash; the one that gets the number. */
  function First(texts: seq<string>, hash: HashFn, h: nat): string {
    if texts == [] then ""
    else if hash(texts[0]) == h then texts[0]
    else First(texts[1..], hash, h)
  }

  lemma {:induction false} FirstFound(texts: seq<string>, hash: HashFn, text: string)
    requires text in texts
    ensures First(texts, hash, hash(text)) in texts && hash(First(texts, hash, hash(text))) == hash(text)
  {
    if hash(texts[0]) != hash(text) {
      FirstFound(texts[1..], hash, text);
    }
  }

  lemma {:induction false} FirstSnoc(texts: seq<string>, hash: HashFn, more: string, h: nat)
    ensures (exists s :: s in texts && hash(s) == h) ==> First(texts + [more], hash, h) == First(texts, hash, h)
    ensures (forall s :: s in texts ==> hash(s) != h) && hash(more) == h ==> First(texts + [more], hash, h) == more
  {
    if texts != [] {
      assert (texts + [more])[1..] == texts[1..] + [more];
      FirstSnoc(texts[1..], hash, more, h);
      if s :| s in texts && hash(s) == h {
        assert s == texts[0] || s in texts[1..];
      }
    }
  }

  /** No two different texts share a hash. */
  ghost predicate NoCollision(texts: seq<string>, hash: HashFn) {
    forall s, t :: s in texts && t in texts && hash(s) == hash(t) ==> s == t
  }

  /** The interning table: numbers and hashes correspond, and a number stands for the first text with its hash. */
  ghost predicate TableOk(texts: seq<string>, expmap: map<nat, nat>, mapvec: seq<string>, hash: HashFn) {
    && (forall t :: t in texts ==> hash(t) in expmap)
    && (forall h :: h in expmap ==> Entry(texts, expmap, mapvec, hash, h))
  }

  ghost predicate Entry(texts: seq<string>, expmap: map<nat, nat>, mapvec: seq<string>, hash: HashFn, h: nat)
    requires h in expmap
  {
    && expmap[h] < |mapvec| && mapvec[expmap[h]] == First(texts, hash, h)
    && mapvec[expmap[h]] in texts && hash(mapvec[expmap[h]]) == h
  }

  lemma {:induction false} TableStep(texts: seq<string>, expmap: map<nat, nat>, mapvec: seq<string>, hash: HashFn,
                                     text: string, expmap': map<nat, nat>, mapvec': seq<string>)
    requires TableOk(texts, expmap, mapvec, hash) && Extended(expmap, mapvec, hash, text, expmap', mapvec')
    ensures TableOk(texts + [text], expmap', mapvec', hash)
  {
    forall h | h in expmap' ensures Entry(texts + [text], expmap', mapvec', hash, h) {
      FirstSnoc(texts, hash, text, h);
      if h in expmap {
        assert Entry(texts, expmap, mapvec, hash, h);
      }
    }
  }

  /** The numbers given to the criteria, in the order they are read. */
  ghost predicate Interned(texts: seq<string>, ids: seq<nat>, mapvec: seq<string>, hash: HashFn) {
    |ids| == |texts|
    && forall k :: 0 <= k < |ids| ==> ids[k] < |mapvec| && mapvec[ids[k]] == First(texts, hash, hash(texts[k]))
  }

  /** The place of the first text with hash `h`, or the number of texts. */
  function NumberOf(texts: seq<string>, hash: HashFn, h: nat): (i: nat)
    ensures i <= |texts| && (i < |texts| ==> hash(texts[i]) == h) && forall j :: 0 <= j < i ==> hash(texts[j]) != h
  {
    if texts == [] || hash(texts[0]) == h then 0 else 1 + NumberOf(texts[1..], hash, h)
  }

  /** The texts that are the first with their hash, in reading order. */
  function Firsts(texts: seq<string>, hash: HashFn): seq<string> {
    if texts == [] then []
    else
      var r, last := Firsts(texts[..|texts| - 1], hash), texts[|texts| - 1];
      if NumberOf(r, hash, hash(last)) < |r| then r else r + [last]
  }

  /** The number of each text: its place among them. */
  function IdsOf(texts: seq<string>, hash: HashFn): (ids: seq<nat>)
    ensures |ids| == |texts|
  {
    seq(|texts|, k requires 0 <= k < |texts| => NumberOf(Firsts(texts, hash), hash, hash(texts[k])))
  }

  /** Two criteria share a number exactly when they share a hash. */
  ghost predicate Shares(texts: seq<string>, ids: seq<nat>, hash: HashFn) {
    && |ids| == |texts|
    && forall j, k :: 0 <= j < |texts| && 0 <= k < |texts| ==> (ids[j] == ids[k] <==> hash(texts[j]) == hash(texts[k]))
  }

  /** The table and the numbers are those of the first texts: hash by hash, and no hash twice. */
  ghost predicate Placed(texts: seq<string>, expmap: map<nat, nat>, mapvec: seq<string>, hash: HashFn) {
    && mapvec == Firsts(texts, hash)
    && (forall h :: h in expmap ==> expmap[h] == NumberOf(mapvec, hash, h) < |mapvec|)
    && (forall i :: 0 <= i < |mapvec| ==> hash(mapvec[i]) in expmap)
  }

  lemma {:induction false} NumberSnoc(texts: seq<string>, hash: HashFn, more: string, h: nat)
    ensures NumberOf(texts + [more], hash, h) ==
            if NumberOf(texts, hash, h) < |texts| || hash(more) == h then NumberOf(texts, hash, h) else |texts| + 1
  {
    if texts != [] {
      assert (texts + [more])[1..] == texts[1..] + [more];
      NumberSnoc(texts[1..], hash, more, h);
    } else {
      assert (texts + [more])[1..] == [];
    }
  }

  lemma {:induction false} PlacedStep(texts: seq<string>, expmap: map<nat, nat>, mapvec: seq<string>, hash: HashFn,
                                      text: string, expmap': map<nat, nat>, mapvec': seq<string>)
    requires Placed(texts, expmap, mapvec, hash) && Extended(expmap, mapvec, hash, text, expmap', mapvec')
    ensures Placed(texts + [text], expmap', mapvec', hash)
  {
    var h0 := hash(text);
    assert (texts + [text])[..|texts|] == texts;
    assert h0 in expmap <==> NumberOf(mapvec, hash, h0) < |mapvec|;
    if h0 !in expmap {
      forall h | h in expmap' ensures expmap'[h] == NumberOf(mapvec', hash, h) {
        NumberSnoc(mapvec, hash, text, h);
      }
    }
  }

  /** The numbers of the scanning loop are those of the first texts. */
  lemma {:induction false} NumbersAre(texts: seq<string>, ids: seq<nat>, expmap: map<nat, nat>, mapvec: seq<string>,
                                      hash: HashFn)
    requires Placed(texts, expmap, mapvec, hash) && Numbered(texts, ids, expmap, hash)
    ensures ids == IdsOf(texts, hash) && Shares(texts, ids, hash)
  {
    forall k | 0 <= k < |texts| ensures ids[k] == IdsOf(texts, hash)[k] && hash(mapvec[ids[k]]) == hash(texts[k]) {
    }
  }

  /** There is at most one number exactly when all hashes are the same. */
  lemma {:induction false} OneFirst(texts: seq<string>, hash: HashFn)
    ensures |Firsts(texts, hash)| <= 1 <==> forall k :: 0 <= k < |texts| ==> hash(texts[k]) == hash(texts[0])
    ensures texts != [] ==> Firsts(texts, hash) != [] && Firsts(texts, hash)[0] == texts[0]
    decreases |texts|
  {
    if texts != [] {
      var n := |texts| - 1;
      OneFirst(texts[..n], hash);
    }
  }

  /** No criterion is too short. */
  ghost predicate LongEnough(texts: seq<string>) {
    forall k :: 0 <= k < |texts| ==> |texts[k]| >= MIN_CRITERION
  }

  /** Numbers the criteria in the order they are read; a criterion that is too short is refused. */
  method Intern(texts: seq<string>, hash: HashFn) returns (ok: bool, ids: seq<nat>, mapvec: seq<string>)
    ensures ok <==> LongEnough(texts)
    ensures ok ==> Interned(texts, ids, mapvec, hash) && Shares(texts, ids, hash)
    ensures ok ==> mapvec == Firsts(texts, hash) && ids == IdsOf(texts, hash)
    ensures ok && texts != [] ==> mapvec != [] && forall i :: 0 <= i < |mapvec| ==> mapvec[i] in texts
  {
    var expmap: map<nat, nat> := map[];
    ids, mapvec := [], [];
    for k := 0 to |texts|
      invariant Scanned(texts[..k], ids, expmap, mapvec, hash)
    {
      if |texts[k]| < MIN_CRITERION {
        return false, [], [];
      }
      assert texts[..k + 1] == texts[..k] + [texts[k]];
      ids, expmap, mapvec := InternOne(texts[k], hash, ids, expmap, mapvec, texts[..k]);
    }
    assert texts[..|texts|] == texts;
    ScanDone(texts, ids, expmap, mapvec, hash);
    return true, ids, mapvec;
  }

  /** A criterion gets the number of its hash, or the next one. */
  method InternOne(text: string, hash: HashFn, ids: seq<nat>, expmap: map<nat, nat>, mapvec: seq<string>,
                   ghost done: seq<string>)
    returns (ids': seq<nat>, expmap': map<nat, nat>, mapvec': seq<string>)
    requires Scanned(done, ids, expmap, mapvec, hash) && |text| >= MIN_CRITERION
    ensures Scanned(done + [text], ids', expmap', mapvec', hash)
  {
    var h := hash(text);
    ids', expmap', mapvec' := ids, expmap, mapvec;
    if h !in expmap {
      expmap' := expmap[h := |mapvec|];
      mapvec' := mapvec + [text];
    }
    ids' := ids + [expmap'[h]];
    ScanStep(done, ids, expmap, mapvec, hash, text, ids', expmap', mapvec');
  }

  /** The texts in the table are texts that have been read, and those are long enough. */
  ghost predicate FromTexts(texts: seq<string>, mapvec: seq<string>) {
    && (texts != [] ==> mapvec != []) && LongEnough(texts)
    && forall i :: 0 <= i < |mapvec| ==> mapvec[i] in texts
  }

  /** What the scanning loop keeps. */
  ghost predicate Scanned(texts: seq<string>, ids: seq<nat>, expmap: map<nat, nat>, mapvec: seq<string>, hash: HashFn) {
    && TableOk(texts, expmap, mapvec, hash) && Numbered(texts, ids, expmap, hash) && Placed(texts, expmap, mapvec, hash)
    && FromTexts(texts, mapvec)
  }

  /** The table after another criterion. */
  ghost predicate Extended(expmap: map<nat, nat>, mapvec: seq<string>, hash: HashFn, text: string,
                           expmap': map<nat, nat>, mapvec': seq<string>)
  {
    if hash(text) in expmap then expmap' == expmap && mapvec' == mapvec
    else expmap' == expmap[hash(text) := |mapvec|] && mapvec' == mapvec + [text]
  }

  lemma {:induction false} ScanStep(texts: seq<string>, ids: seq<nat>, expmap: map<nat, nat>, mapvec: seq<string>,
                                    hash: HashFn, text: string, ids': seq<nat>, expmap': map<nat, nat>,
                                    mapvec': seq<string>)
    requires Scanned(texts, ids, expmap, mapvec, hash) && |text| >= MIN_CRITERION
    requires Extended(expmap, mapvec, hash, text, expmap', mapvec') && ids' == ids + [expmap'[hash(text)]]
    ensures Scanned(texts + [text], ids', expmap', mapvec', hash)
  {
    TableStep(texts, expmap, mapvec, hash, text, expmap', mapvec');
    NumberedStep(texts, ids, expmap, mapvec, hash, text, ids', expmap', mapvec');
    PlacedStep(texts, expmap, mapvec, hash, text, expmap', mapvec');
    FromStep(texts, expmap, mapvec, hash, text, expmap', mapvec');
  }

  lemma {:induction false} FromStep(texts: seq<string>, expmap: map<nat, nat>, mapvec: seq<string>, hash: HashFn,
                                    text: string, expmap': map<nat, nat>, mapvec': seq<string>)
    requires TableOk(texts, expmap, mapvec, hash) && FromTexts(texts, mapvec) && |text| >= MIN_CRITERION
    requires Extended(expmap, mapvec, hash, text, expmap', mapvec')
    ensures FromTexts(texts + [text], mapvec')
  {
    if hash(text) in expmap {
      assert Entry(texts, expmap, mapvec, hash, hash(text));
    }
  }

  lemma {:induction false} ScanDone(texts: seq<string>, ids: seq<nat>, expmap: map<nat, nat>, mapvec: seq<string>,
                                    hash: HashFn)
    requires Scanned(texts, ids, expmap, mapvec, hash)
    ensures Interned(texts, ids, mapvec, hash) && Shares(texts, ids, hash) && FromTexts(texts, mapvec)
    ensures mapvec == Firsts(texts, hash) && ids == IdsOf(texts, hash)
  {
    NumberedInterned(texts, ids, expmap, mapvec, hash);
    NumbersAre(texts, ids, expmap, mapvec, hash);
  }

  ghost predicate Numbered(texts: seq<string>, ids: seq<nat>, expmap: map<nat, nat>, hash: HashFn) {
    |ids| == |texts| && forall j :: 0 <= j < |ids| ==> hash(texts[j]) in expmap && ids[j] == expmap[hash(texts[j])]
  }

  lemma {:induction false} NumberedStep(texts: seq<string>, ids: seq<nat>, expmap: map<nat, nat>, mapvec: seq<string>,
                                        hash: HashFn, text: string, ids': seq<nat>, expmap': map<nat, nat>,
                                        mapvec': seq<string>)
    requires Numbered(texts, ids, expmap, hash) && Extended(expmap, mapvec, hash, text, expmap', mapvec')
    requires ids' == ids + [expmap'[hash(text)]]
    ensures Numbered(texts + [text], ids', expmap', hash)
  {
  }

  lemma {:induction false} NumberedInterned(texts: seq<string>, ids: seq<nat>, expmap: map<nat, nat>,
                                            mapvec: seq<string>, hash: HashFn)
    requires TableOk(texts, expmap, mapvec, hash) && Numbered(texts, ids, expmap, hash)
    ensures Interned(texts, ids, mapvec, hash)
  {
    forall k | 0 <= k < |ids| ensures ids[k] < |mapvec| && mapvec[ids[k]] == First(texts, hash, hash(texts[k])) {
      assert Entry(texts, expmap, mapvec, hash, hash(texts[k]));
    }
  }

  // ---- Numbering a filter ----

  /** The filter with its criteria replaced, in order, by these numbers. */
  function Number(f: Filter, ids: seq<nat>): Expr
    requires |ids| == |Leaves(f)|
  {
    match f
    case Crit(_) => Id(ids[0])
    case And(l, r) => All(Number(l, ids[..|Leaves(l)|]), Number(r, ids[|Leaves(l)|..]))
    case Or(l, r) => Any(Number(l, ids[..|Leaves(l)|]), Number(r, ids[|Leaves(l)|..]))
  }

  /** Evaluating by number or by text is the same when every number has the value of its text. */
  lemma {:induction false} NumberMeans(f: Filter, ids: seq<nat>, w: nat -> bool, v: Assignment)
    requires |ids| == |Leaves(f)| && forall k :: 0 <= k < |ids| ==> w(ids[k]) == v(Leaves(f)[k])
    ensures EvalExpr(Number(f, ids), w) == Eval(f, v)
  {
    match f {
      case Crit(_) =>
      case And(l, r) =>
        SplitLeaves(f, l, r, ids, w, v);
        NumberMeans(l, ids[..|Leaves(l)|], w, v);
        NumberMeans(r, ids[|Leaves(l)|..], w, v);
      case Or(l, r) =>
        SplitLeaves(f, l, r, ids, w, v);
        NumberMeans(l, ids[..|Leaves(l)|], w, v);
        NumberMeans(r, ids[|Leaves(l)|..], w, v);
    }
  }

  lemma {:induction false} SplitLeaves(f: Filter, l: Filter, r: Filter, ids: seq<nat>, w: nat -> bool, v: Assignment)
    requires Leaves(f) == Leaves(l) + Leaves(r)
    requires |ids| == |Leaves(f)| && forall k :: 0 <= k < |ids| ==> w(ids[k]) == v(Leaves(f)[k])
    ensures var n := |Leaves(l)|;
            && (forall k :: 0 <= k < n ==> w(ids[..n][k]) == v(Leaves(l)[k]))
            && (forall k :: 0 <= k < |Leaves(r)| ==> w(ids[n..][k]) == v(Leaves(r)[k]))
  {
    var n := |Leaves(l)|;
    forall k | 0 <= k < |Leaves(r)| ensures w(ids[n..][k]) == v(Leaves(r)[k]) {
      assert ids[n..][k] == ids[n + k] && Leaves(f)[n + k] == Leaves(r)[k];
    }
    forall k | 0 <= k < n ensures w(ids[..n][k]) == v(Leaves(l)[k]) {
      assert Leaves(f)[k] == Leaves(l)[k];
    }
  }

  // ---- Distribution ----

  /** One group joined to each of the others. */
  function Join(g: Group, hs: seq<Group>): (r: seq<Group>)
    ensures |r| == |hs|
  {
    if hs == [] then [] else [g + hs[0]] + Join(g, hs[1..])
  }

  function Cross(gs: seq<Group>, hs: seq<Group>): seq<Group> {
    if gs == [] then [] else Join(gs[0], hs) + Cross(gs[1..], hs)
  }

  function Dnf(e: Expr): seq<Group> {
    match e
    case Id(id) => [{id}]
    case All(a, b) => Cross(Dnf(a), Dnf(b))
    case Any(c, d) => Dnf(c) + Dnf(d)
  }

  ghost predicate Holds(g: Group, w: nat -> bool) {
    forall i :: i in g ==> w(i)
  }

  ghost predicate AnyHolds(gs: seq<Group>, w: nat -> bool) {
    exists k :: 0 <= k < |gs| && Holds(gs[k], w)
  }

  lemma {:induction false} AnyHoldsConcat(gs: seq<Group>, hs: seq<Group>, w: nat -> bool)
    ensures AnyHolds(gs + hs, w) <==> AnyHolds(gs, w) || AnyHolds(hs, w)
  {
    if k :| 0 <= k < |gs| && Holds(gs[k], w) {
      assert (gs + hs)[k] == gs[k];
    }
    if k :| 0 <= k < |hs| && Holds(hs[k], w) {
      assert (gs + hs)[|gs| + k] == hs[k];
    }
  }

  lemma {:induction false} AnyHoldsOne(g: Group, w: nat -> bool)
    ensures AnyHolds([g], w) <==> Holds(g, w)
  {
    assert [g][0] == g;
  }

  lemma {:induction false} JoinHolds(g: Group, hs: seq<Group>, w: nat -> bool)
    ensures AnyHolds(Join(g, hs), w) <==> Holds(g, w) && AnyHolds(hs, w)
  {
    if hs != [] {
      JoinHolds(g, hs[1..], w);
      AnyHoldsConcat([g + hs[0]], Join(g, hs[1..]), w);
      AnyHoldsOne(g + hs[0], w);
      AnyHoldsConcat([hs[0]], hs[1..], w);
      AnyHoldsOne(hs[0], w);
      assert hs == [hs[0]] + hs[1..];
    }
  }

  lemma {:induction false} CrossHolds(gs: seq<Group>, hs: seq<Group>, w: nat -> bool)
    ensures AnyHolds(Cross(gs, hs), w) <==> AnyHolds(gs, w) && AnyHolds(hs, w)
  {
    if gs != [] {
      CrossHolds(gs[1..], hs, w);
      JoinHolds(gs[0], hs, w);
      AnyHoldsConcat(Join(gs[0], hs), Cross(gs[1..], hs), w);
      AnyHoldsConcat([gs[0]], gs[1..], w);
      AnyHoldsOne(gs[0], w);
      assert gs == [gs[0]] + gs[1..];
    }
  }

  /** The groups mean what the expression means. */
  lemma {:induction false} DnfMeans(e: Expr, w: nat -> bool)
    ensures AnyHolds(Dnf(e), w) <==> EvalExpr(e, w)
  {
    match e {
      case Id(id) =>
        AnyHoldsOne({id}, w);
      case All(a, b) =>
        DnfMeans(a, w);
        DnfMeans(b, w);
        CrossHolds(Dnf(a), Dnf(b), w);
      case Any(c, d) =>
        DnfMeans(c, w);
        DnfMeans(d, w);
        AnyHoldsConcat(Dnf(c), Dnf(d), w);
    }
  }

  /** All numbers of an expression are below `n`. */
  predicate Below(e: Expr, n: nat) {
    match e
    case Id(id) => id < n
    case All(a, b) => Below(a, n) && Below(b, n)
    case Any(c, d) => Below(c, n) && Below(d, n)
  }

  ghost predicate GroupsOk(gs: seq<Group>, n: nat) {
    forall k :: 0 <= k < |gs| ==> gs[k] != {} && forall i :: i in gs[k] ==> i < n
  }

  lemma {:induction false} JoinOk(g: Group, hs: seq<Group>, n: nat)
    requires g != {} && (forall i :: i in g ==> i < n) && GroupsOk(hs, n)
    ensures GroupsOk(Join(g, hs), n)
  {
    if hs != [] {
      JoinOk(g, hs[1..], n);
      var r := Join(g, hs);
      forall k | 0 <= k < |r| ensures r[k] != {} && forall i :: i in r[k] ==> i < n {
        if k == 0 {
          assert g <= r[0];
        } else {
          assert r[k] == Join(g, hs[1..])[k - 1];
        }
      }
    }
  }

  lemma {:induction false} CrossOk(gs: seq<Group>, hs: seq<Group>, n: nat)
    requires GroupsOk(gs, n) && GroupsOk(hs, n)
    ensures GroupsOk(Cross(gs, hs), n)
    ensures gs != [] && hs != [] ==> Cross(gs, hs) != []
  {
    if gs != [] {
      CrossOk(gs[1..], hs, n);
      JoinOk(gs[0], hs, n);
    }
  }

  lemma {:induction false} DnfOk(e: Expr, n: nat)
    requires Below(e, n)
    ensures GroupsOk(Dnf(e), n) && Dnf(e) != []
  {
    match e {
      case Id(_) =>
      case All(a, b) =>
        DnfOk(a, n);
        DnfOk(b, n);
        CrossOk(Dnf(a), Dnf(b), n);
      case Any(c, d) =>
        DnfOk(c, n);
        DnfOk(d, n);
    }
  }

  lemma {:induction false} NumberBelow(f: Filter, ids: seq<nat>, n: nat)
    requires |ids| == |Leaves(f)| && forall k :: 0 <= k < |ids| ==> ids[k] < n
    ensures Below(Number(f, ids), n)
  {
    match f {
      case Crit(_) =>
      case And(l, r) =>
        NumberBelow(l, ids[..|Leaves(l)|], n);
        NumberBelow(r, ids[|Leaves(l)|..], n);
      case Or(l, r) =>
        NumberBelow(l, ids[..|Leaves(l)|], n);
        NumberBelow(r, ids[|Leaves(l)|..], n);
    }
  }

  // ---- What the groups mean ----

  /** The assignment seen through the interning: each criterion has the value of the first one with its hash. */
  function Seen(f: Filter, hash: HashFn, v: Assignment): Assignment {
    c => v(First(Leaves(f), hash, hash(c)))
  }

  /** Only the criteria that occur matter. */
  lemma {:induction false} EvalAgree(f: Filter, v: Assignment, w: Assignment)
    requires forall c :: c in Leaves(f) ==> v(c) == w(c)
    ensures Eval(f, v) == Eval(f, w)
  {
    match f {
      case Crit(_) =>
      case And(l, r) =>
        EvalAgree(l, v, w);
        EvalAgree(r, v, w);
      case Or(l, r) =>
        EvalAgree(l, v, w);
        EvalAgree(r, v, w);
    }
  }

  /** Without collisions the interning changes nothing. */
  lemma {:induction false} SeenSame(f: Filter, hash: HashFn, v: Assignment)
    requires NoCollision(Leaves(f), hash)
    ensures Eval(f, Seen(f, hash, v)) == Eval(f, v)
  {
    forall c | c in Leaves(f) ensures Seen(f, hash, v)(c) == v(c) {
      FirstFound(Leaves(f), hash, c);
    }
    EvalAgree(f, Seen(f, hash, v), v);
  }

  /** A filter over one repeated criterion has its value. */
  lemma {:induction false} EvalConst(f: Filter, v: Assignment, b: bool)
    requires forall c :: c in Leaves(f) ==> v(c) == b
    ensures Eval(f, v) == b
  {
    match f {
      case Crit(text) =>
        assert text in Leaves(f);
      case And(l, r) =>
        EvalConst(l, v, b);
        EvalConst(r, v, b);
      case Or(l, r) =>
        EvalConst(l, v, b);
        EvalConst(r, v, b);
    }
  }

  ghost predicate AllTrue(cs: seq<string>, v: Assignment) {
    forall c :: c in cs ==> v(c)
  }

  function Texts(ids: seq<nat>, mapvec: seq<string>): (r: seq<string>)
    requires forall k :: 0 <= k < |ids| ==> ids[k] < |mapvec|
    ensures |r| == |ids| && forall k :: 0 <= k < |ids| ==> r[k] == mapvec[ids[k]]
  {
    seq(|ids|, k requires 0 <= k < |ids| => mapvec[ids[k]])
  }

  /** A stored group is true exactly when all its numbers are. */
  lemma {:induction false} TextsTrue(ids: seq<nat>, g: Group, mapvec: seq<string>, v: Assignment, w: nat -> bool)
    requires Lists(ids, g) && forall i :: i in g ==> i < |mapvec| && w(i) == v(mapvec[i])
    ensures forall k :: 0 <= k < |ids| ==> ids[k] < |mapvec|
    ensures AllTrue(Texts(ids, mapvec), v) <==> Holds(g, w)
  {
    forall k | 0 <= k < |ids| ensures ids[k] in g {
      assert ids[k] in ids;
    }
    var ts := Texts(ids, mapvec);
    if Holds(g, w) {
      forall c | c in ts ensures v(c) {
        var k :| 0 <= k < |ts| && ts[k] == c;
        assert ids[k] in g;
      }
    }
    if AllTrue(ts, v) {
      forall i | i in g ensures w(i) {
        var k :| 0 <= k < |ids| && ids[k] == i;
        assert ts[k] in ts;
      }
    }
  }

  /** Some group has all its criteria true. */
  ghost predicate SomeGroupTrue(groups: seq<seq<string>>, v: Assignment) {
    exists g :: 0 <= g < |groups| && AllTrue(groups[g], v)
  }

  /** The groups have the value of the filter for every assignment, seen through the interning. */
  ghost predicate Means(groups: seq<seq<string>>, f: Filter, hash: HashFn) {
    forall v: Assignment :: SomeGroupTrue(groups, v) <==> Eval(f, Seen(f, hash, v))
  }

  /** Without collisions the groups have the value of the filter itself. */
  lemma {:induction false} MeansExactly(groups: seq<seq<string>>, f: Filter, hash: HashFn)
    requires Means(groups, f, hash) && NoCollision(Leaves(f), hash)
    ensures forall v: Assignment :: SomeGroupTrue(groups, v) <==> Eval(f, v)
  {
    forall v: Assignment ensures SomeGroupTrue(groups, v) <==> Eval(f, v) {
      SeenSame(f, hash, v);
    }
  }

  ghost predicate InTable(idvec: seq<seq<nat>>, n: nat) {
    forall g :: 0 <= g < |idvec| ==> forall k :: 0 <= k < |idvec[g]| ==> idvec[g][k] < n
  }

  function AllTexts(idvec: seq<seq<nat>>, mapvec: seq<string>): (r: seq<seq<string>>)
    requires InTable(idvec, |mapvec|)
    ensures |r| == |idvec| && forall g :: 0 <= g < |idvec| ==> r[g] == Texts(idvec[g], mapvec)
  {
    seq(|idvec|, g requires 0 <= g < |idvec| => Texts(idvec[g], mapvec))
  }

  ghost predicate ListAll(idvec: seq<seq<nat>>, gs: seq<Group>) {
    |idvec| == |gs| && forall k :: 0 <= k < |gs| ==> Lists(idvec[k], gs[k])
  }

  lemma {:induction false} ListedInTable(idvec: seq<seq<nat>>, gs: seq<Group>, n: nat)
    requires ListAll(idvec, gs) && GroupsOk(gs, n)
    ensures InTable(idvec, n)
  {
    forall g | 0 <= g < |idvec| ensures forall k :: 0 <= k < |idvec[g]| ==> idvec[g][k] < n {
      forall k | 0 <= k < |idvec[g]| ensures idvec[g][k] < n {
        assert Lists(idvec[g], gs[g]) && idvec[g][k] in idvec[g];
      }
    }
  }

  /** The stored groups together mean the filter, seen through the interning. */
  lemma {:induction false} GroupsMean(f: Filter, hash: HashFn, ids: seq<nat>, mapvec: seq<string>, idvec: seq<seq<nat>>)
    requires Interned(Leaves(f), ids, mapvec, hash) && ListAll(idvec, Dnf(Number(f, ids)))
    ensures InTable(idvec, |mapvec|) && Means(AllTexts(idvec, mapvec), f, hash)
  {
    NumberBelow(f, ids, |mapvec|);
    DnfOk(Number(f, ids), |mapvec|);
    ListedInTable(idvec, Dnf(Number(f, ids)), |mapvec|);
    forall v: Assignment ensures SomeGroupTrue(AllTexts(idvec, mapvec), v) <==> Eval(f, Seen(f, hash, v)) {
      GroupsMeanAt(f, hash, ids, mapvec, idvec, v);
    }
  }

  lemma {:induction false} GroupsMeanAt(f: Filter, hash: HashFn, ids: seq<nat>, mapvec: seq<string>,
                                        idvec: seq<seq<nat>>, v: Assignment)
    requires Interned(Leaves(f), ids, mapvec, hash) && ListAll(idvec, Dnf(Number(f, ids)))
    requires InTable(idvec, |mapvec|) && GroupsOk(Dnf(Number(f, ids)), |mapvec|)
    ensures SomeGroupTrue(AllTexts(idvec, mapvec), v) <==> Eval(f, Seen(f, hash, v))
  {
    var e := Number(f, ids);
    var w: nat -> bool := (i: nat) => i < |mapvec| && v(mapvec[i]);
    NumberMeans(f, ids, w, Seen(f, hash, v));
    DnfMeans(e, w);
    SomeTrueAny(idvec, Dnf(e), mapvec, v, w);
  }

  lemma {:induction false} SomeTrueAny(idvec: seq<seq<nat>>, gs: seq<Group>, mapvec: seq<string>, v: Assignment,
                                       w: nat -> bool)
    requires ListAll(idvec, gs) && InTable(idvec, |mapvec|) && GroupsOk(gs, |mapvec|)
    requires forall i: nat :: i < |mapvec| ==> w(i) == v(mapvec[i])
    ensures SomeGroupTrue(AllTexts(idvec, mapvec), v) <==> AnyHolds(gs, w)
  {
    var ts := AllTexts(idvec, mapvec);
    forall g | 0 <= g < |idvec| ensures AllTrue(ts[g], v) <==> Holds(gs[g], w) {
      TextsTrue(idvec[g], gs[g], mapvec, v, w);
    }
  }

  /** A filter with no two different criteria means the one it has. */
  lemma {:induction false} OneCriterion(f: Filter, hash: HashFn, ids: seq<nat>, mapvec: seq<string>)
    requires Interned(Leaves(f), ids, mapvec, hash) && |mapvec| == 1
    ensures Means([[mapvec[0]]], f, hash)
  {
    forall v: Assignment ensures SomeGroupTrue([[mapvec[0]]], v) <==> Eval(f, Seen(f, hash, v)) {
      forall c | c in Leaves(f) ensures Seen(f, hash, v)(c) == v(mapvec[0]) {
        var k :| 0 <= k < |Leaves(f)| && Leaves(f)[k] == c;
        assert mapvec[ids[k]] == First(Leaves(f), hash, hash(c));
      }
      EvalConst(f, Seen(f, hash, v), v(mapvec[0]));
      assert [[mapvec[0]]][0] == [mapvec[0]] && mapvec[0] in [mapvec[0]];
      assert AllTrue([mapvec[0]], v) <==> v(mapvec[0]);
    }
  }

  // ---- The parsed filter ----

  datatype Error = SmallCriterion | TooManyGroups | TooManyInGroup | TooManyCriteria | MissingBraces

  /** `v` lists the elements of `g`, each once. */
  ghost predicate Lists(v: seq<nat>, g: Group) {
    |v| == |g| && forall i :: i in v <==> i in g
  }

  /** Some order of the numbers of a group. */
  method Enumerate(g: Group) returns (v: seq<nat>)
    ensures Lists(v, g)
  {
    v := [];
    var rest := g;
    while rest != {}
      invariant |v| + |rest| == |g| && rest <= g
      invariant forall i :: i in g <==> i in v || i in rest
    {
      var i :| i in rest;
      v, rest := v + [i], rest - {i};
    }
  }

  function Sum(ns: seq<nat>): nat {
    if ns == [] then 0 else Sum(ns[..|ns| - 1]) + ns[|ns| - 1]
  }

  function Largest(ns: seq<nat>): nat {
    if ns == [] then 0
    else if Largest(ns[..|ns| - 1]) < ns[|ns| - 1] then ns[|ns| - 1]
    else Largest(ns[..|ns| - 1])
  }

  function GroupSizes(gs: seq<Group>): (r: seq<nat>)
    ensures |r| == |gs| && forall k :: 0 <= k < |gs| ==> r[k] == |gs[k]|
  {
    seq(|gs|, k requires 0 <= k < |gs| => |gs[k]|)
  }

  function TextSizes(groups: seq<seq<string>>): (r: seq<nat>)
    ensures |r| == |groups| && forall k :: 0 <= k < |groups| ==> r[k] == |groups[k]|
  {
    seq(|groups|, k requires 0 <= k < |groups| => |groups[k]|)
  }

  lemma {:induction false} SameSizes(idvec: seq<seq<nat>>, gs: seq<Group>, mapvec: seq<string>)
    requires ListAll(idvec, gs) && InTable(idvec, |mapvec|)
    ensures TextSizes(AllTexts(idvec, mapvec)) == GroupSizes(gs)
  {
    var groups := AllTexts(idvec, mapvec);
    forall k | 0 <= k < |gs| ensures TextSizes(groups)[k] == GroupSizes(gs)[k] {
      assert Lists(idvec[k], gs[k]);
    }
  }

  /** The limits on the groups: their sizes and the number of criteria in all. */
  predicate WithinLimits(ns: seq<nat>) {
    Sum(ns) <= MAX_QUERY_CRITERIA && Largest(ns) <= MAX_ONE_GROUP_CRITERIA
  }

  /** Groups that break a limit early break it in the end. */
  lemma {:induction false} PrefixLimits(ns: seq<nat>, k: nat)
    requires k <= |ns|
    ensures Sum(ns[..k]) <= Sum(ns) && Largest(ns[..k]) <= Largest(ns)
    decreases |ns|
  {
    if k == |ns| {
      assert ns[..k] == ns;
    } else {
      PrefixLimits(ns[..|ns| - 1], k);
      assert ns[..|ns| - 1][..k] == ns[..k];
    }
  }

  lemma {:induction false} EarlyBreak(done: seq<Group>, gs: seq<Group>)
    requires |done| <= |gs| && (forall k :: 0 <= k < |done| ==> done[k] == gs[k]) && !WithinLimits(GroupSizes(done))
    ensures !WithinLimits(GroupSizes(gs))
  {
    assert GroupSizes(done) == GroupSizes(gs)[..|done|];
    PrefixLimits(GroupSizes(gs), |done|);
  }

  /** The groups of several criteria, and those of a single one. */
  ghost function Several(ns: seq<nat>): set<int> {
    set k | 0 <= k < |ns| && ns[k] > 1
  }

  ghost function Single(ns: seq<nat>): set<int> {
    set k | 0 <= k < |ns| && ns[k] == 1
  }

  lemma {:induction false} SeveralMore(ns: seq<nat>, n: nat)
    ensures |Several(ns + [n])| == |Several(ns)| + if n > 1 then 1 else 0
  {
    var a, b := Several(ns), Several(ns + [n]);
    if n > 1 {
      assert b == a + {|ns|} && |ns| !in a;
    } else {
      assert b == a;
    }
  }

  lemma {:induction false} SingleMore(ns: seq<nat>, n: nat)
    ensures |Single(ns + [n])| == |Single(ns)| + if n == 1 then 1 else 0
  {
    var a, b := Single(ns), Single(ns + [n]);
    if n == 1 {
      assert b == a + {|ns|} && |ns| !in a;
    } else {
      assert b == a;
    }
  }

  lemma {:induction false} SnocCounts(done: seq<Group>, g: Group)
    ensures |Several(GroupSizes(done + [g]))| == |Several(GroupSizes(done))| + if |g| > 1 then 1 else 0
    ensures |Single(GroupSizes(done + [g]))| == |Single(GroupSizes(done))| + if |g| == 1 then 1 else 0
  {
    assert GroupSizes(done + [g]) == GroupSizes(done) + [|g|];
    SeveralMore(GroupSizes(done), |g|);
    SingleMore(GroupSizes(done), |g|);
  }

  /** Every group that is not empty is one or the other. */
  lemma {:induction false} CountsAddUp(ns: seq<nat>)
    requires forall k :: 0 <= k < |ns| ==> ns[k] > 0
    ensures |Several(ns)| + |Single(ns)| == |ns|
  {
    if ns != [] {
      var rest, n := ns[..|ns| - 1], ns[|ns| - 1];
      CountsAddUp(rest);
      SeveralMore(rest, n);
      SingleMore(rest, n);
      assert rest + [n] == ns;
    }
  }

  lemma {:induction false} SnocLimits(done: seq<Group>, g: Group)
    ensures Sum(GroupSizes(done + [g])) == Sum(GroupSizes(done)) + |g|
    ensures Largest(GroupSizes(done + [g])) ==
            if Largest(GroupSizes(done)) < |g| then |g| else Largest(GroupSizes(done))
  {
    assert GroupSizes(done + [g])[..|done|] == GroupSizes(done);
  }

  // ---- Texts without braces ----

  function Lower(c: char): char {
    if 'A' <= c <= 'Z' then (c as int + 32) as char else c
  }

  predicate IsBlank(c: char) {
    c == ' ' || c == '\t'
  }

  /** The word AND or OR, in any case and between blanks, stands at position `i`. */
  predicate JoinAt(s: string, i: nat)
    requires 0 < i && i + 4 < |s|
  {
    || (IsBlank(s[i - 1]) && Lower(s[i]) == 'a' && Lower(s[i + 1]) == 'n' && Lower(s[i + 2]) == 'd'
        && IsBlank(s[i + 3]))
    || (IsBlank(s[i - 1]) && Lower(s[i]) == 'o' && Lower(s[i + 1]) == 'r' && IsBlank(s[i + 2]))
  }

  /** The same, letter by letter. */
  lemma {:induction false} JoinAtIs(s: string, i: nat)
    requires 0 < i && i + 4 < |s|
    ensures JoinAt(s, i) <==>
            && (s[i - 1] == ' ' || s[i - 1] == '\t')
            && (|| ((s[i] == 'a' || s[i] == 'A') && (s[i + 1] == 'n' || s[i + 1] == 'N')
                    && (s[i + 2] == 'd' || s[i + 2] == 'D') && (s[i + 3] == ' ' || s[i + 3] == '\t'))
                || ((s[i] == 'o' || s[i] == 'O') && (s[i + 1] == 'r' || s[i + 1] == 'R')
                    && (s[i + 2] == ' ' || s[i + 2] == '\t')))
  {
    LowerIs(s[i]);
    LowerIs(s[i + 1]);
    LowerIs(s[i + 2]);
  }

  lemma {:induction false} LowerIs(c: char)
    ensures Lower(c) == 'a' <==> c == 'a' || c == 'A'
    ensures Lower(c) == 'n' <==> c == 'n' || c == 'N'
    ensures Lower(c) == 'd' <==> c == 'd' || c == 'D'
    ensures Lower(c) == 'o' <==> c == 'o' || c == 'O'
    ensures Lower(c) == 'r' <==> c == 'r' || c == 'R'
  {
  }

  /** The next quote at or after `i`, or the last position. */
  function QuoteEnd(s: string, i: nat): (j: nat)
    requires i < |s|
    ensures i <= j < |s| && (j + 1 < |s| ==> s[j] == '\'')
    decreases |s| - i
  {
    if i + 1 < |s| && s[i] != '\'' then QuoteEnd(s, i + 1) else i
  }

  /** Reading on from `i`, a joining word is met outside quotes, at least five characters before the end. */
  predicate JoinsBare(s: string, i: nat)
    requires i > 0
    decreases |s| - i
  {
    i + 4 < |s| &&
    (if s[i] == '\'' then JoinsBare(s, QuoteEnd(s, i + 1) + 1) else JoinAt(s, i) || JoinsBare(s, i + 1))
  }

  /** Without quotes, that is the case exactly when there is such a word. */
  lemma {:induction false} JoinsBareIff(s: string, i: nat)
    requires i > 0 && forall k :: 0 <= k < |s| ==> s[k] != '\''
    ensures JoinsBare(s, i) <==> exists k :: i <= k < |s| - 4 && JoinAt(s, k)
    decreases |s| - i
  {
    if i + 4 < |s| {
      JoinsBareIff(s, i + 1);
      if JoinAt(s, i) {
        assert i <= i < |s| - 4;
      }
    }
  }

  /** The loop that looks for a joining word in a text without braces. */
  method ScanBare(s: string) returns (bad: bool)
    ensures bad == JoinsBare(s, 1)
  {
    var i: nat := 1;
    while i + 4 < |s|
      invariant i > 0 && JoinsBare(s, 1) == JoinsBare(s, i)
      decreases |s| - i
    {
      var c := Lower(s[i]);
      if c == '\'' {
        ghost var q := i + 1;
        i := i + 1;
        while i + 1 < |s| && s[i] != '\''
          invariant q <= i < |s| && QuoteEnd(s, q) == QuoteEnd(s, i)
        {
          i := i + 1;
        }
      } else if c == 'a' {
        if IsBlank(s[i - 1]) && Lower(s[i + 1]) == 'n' && Lower(s[i + 2]) == 'd' && IsBlank(s[i + 3]) {
          return true;
        }
      } else if c == 'o' {
        if IsBlank(s[i - 1]) && Lower(s[i + 1]) == 'r' && IsBlank(s[i + 2]) {
          return true;
        }
      }
      i := i + 1;
    }
    return false;
  }

  lemma {:induction false} BareMeans(text: string, hash: HashFn)
    ensures Means([[text]], Crit(text), hash)
  {
    assert [text][0] == text;
    OneCriterion(Crit(text), hash, [0], [text]);
  }

  /** All criteria have the same hash. */
  ghost predicate OneHash(texts: seq<string>, hash: HashFn) {
    forall k :: 0 <= k < |texts| ==> hash(texts[k]) == hash(texts[0])
  }

  /** The groups of numbers a filter comes to. */
  function GroupsOf(f: Filter, hash: HashFn): seq<Group> {
    Dnf(Number(f, IdsOf(Leaves(f), hash)))
  }

  /** No criterion is too short, and there is only one number, or the groups are within the limits. */
  ghost predicate Accepted(f: Filter, hash: HashFn) {
    && LongEnough(Leaves(f))
    && (OneHash(Leaves(f), hash) ||
        (|GroupsOf(f, hash)| <= MAX_CRITERIA_GROUPS && WithinLimits(GroupSizes(GroupsOf(f, hash)))))
  }

  lemma {:induction false} LargestIs(ns: seq<nat>, n: nat)
    ensures Largest(ns) <= n <==> forall k :: 0 <= k < |ns| ==> ns[k] <= n
  {
    if ns != [] {
      LargestIs(ns[..|ns| - 1], n);
    }
  }

  /** The limits in numbers: five characters, 64 groups, 64 criteria in a group and 256 in all. */
  lemma {:induction false} AcceptedIs(f: Filter, hash: HashFn)
    ensures Accepted(f, hash) <==>
            && (forall k :: 0 <= k < |Leaves(f)| ==> |Leaves(f)[k]| >= 5)
            && (OneHash(Leaves(f), hash) ||
                (var gs := GroupsOf(f, hash);
                 |gs| <= 64 && Sum(GroupSizes(gs)) <= 256 && forall k :: 0 <= k < |gs| ==> |gs[k]| <= 64))
  {
    LargestIs(GroupSizes(GroupsOf(f, hash)), 64);
  }

  /** Not all criteria have one number, and there are too many groups of numbers. */
  ghost predicate TooMany(f: Filter, hash: HashFn) {
    LongEnough(Leaves(f)) && !OneHash(Leaves(f), hash) && |GroupsOf(f, hash)| > MAX_CRITERIA_GROUPS
  }

  /** The outcome for `n` different numbers in these groups. */
  ghost predicate Judged(n: nat, gs: seq<Group>, err: Option<Error>) {
    && (err == None <==> n <= 1 || (|gs| <= MAX_CRITERIA_GROUPS && WithinLimits(GroupSizes(gs))))
    && (err == Some(TooManyGroups) <==> n > 1 && |gs| > MAX_CRITERIA_GROUPS)
    && err != Some(SmallCriterion)
  }

  lemma {:induction false} JudgedIs(f: Filter, hash: HashFn, ids: seq<nat>, mapvec: seq<string>, err: Option<Error>)
    requires LongEnough(Leaves(f)) && IsNumbering(f, hash, ids, mapvec) && Judged(|mapvec|, Dnf(Number(f, ids)), err)
    ensures err == None <==> Accepted(f, hash)
    ensures err == Some(TooManyGroups) <==> TooMany(f, hash)
    ensures err != Some(SmallCriterion)
  {
    OneFirst(Leaves(f), hash);
  }

  ghost predicate IsNumbering(f: Filter, hash: HashFn, ids: seq<nat>, mapvec: seq<string>) {
    mapvec == Firsts(Leaves(f), hash) && ids == IdsOf(Leaves(f), hash)
  }

  /** The criteria of a filter, numbered. */
  method NumberLeaves(f: Filter, hash: HashFn) returns (ok: bool, ids: seq<nat>, mapvec: seq<string>)
    ensures ok <==> LongEnough(Leaves(f))
    ensures ok ==> Interned(Leaves(f), ids, mapvec, hash) && IsNumbering(f, hash, ids, mapvec)
    ensures ok ==> mapvec != [] && mapvec[0] != ""
  {
    ok, ids, mapvec := Intern(Leaves(f), hash);
    if ok {
      assert mapvec[0] in Leaves(f);
    }
  }

  class BoolParse {
    var mapvec: seq<string>
    var firstcrit: string
    var idvec: seq<seq<nat>>
    var ncritgroups: nat
    var nl2groups: nat
    var nl1crit: nat
    var max1crit: nat
    var totalcrit: nat
    var isL1And: bool

    constructor ()
      ensures Empty()
    {
      mapvec, firstcrit, idvec := [], "", [];
      ncritgroups, nl2groups, nl1crit, max1crit, totalcrit, isL1And := 0, 0, 0, 0, 0, false;
    }

    ghost predicate Empty()
      reads this
    {
      && mapvec == [] && firstcrit == "" && idvec == []
      && ncritgroups == nl2groups == nl1crit == max1crit == totalcrit == 0 && !isL1And
    }

    /** The groups are stored, and the counters are theirs. */
    ghost predicate Stored(gs: seq<Group>)
      reads this
    {
      && ListAll(idvec, gs)
      && totalcrit == Sum(GroupSizes(gs)) && max1crit == Largest(GroupSizes(gs)) && WithinLimits(GroupSizes(gs))
    }

    /** One round of the constructor's loop: count the group and store it. */
    method StoreGroup(g: Group, ghost done: seq<Group>) returns (err: Option<Error>)
      requires Stored(done) && g != {}
      modifies this`totalcrit, this`max1crit, this`nl2groups, this`nl1crit, this`idvec
      ensures err == None ==> Stored(done + [g])
      ensures err == None ==> nl2groups == old(nl2groups) + if ncritgroups > 1 && |g| > 1 then 1 else 0
      ensures err == None ==> nl1crit == old(nl1crit) + if ncritgroups > 1 && |g| == 1 then 1 else 0
      ensures err == None <==> WithinLimits(GroupSizes(done + [g]))
      ensures err != Some(SmallCriterion) && err != Some(TooManyGroups)
    {
      var ncrit := |g|;
      SnocLimits(done, g);
      if ncrit > MAX_ONE_GROUP_CRITERIA {
        return Some(TooManyInGroup);
      }
      totalcrit := totalcrit + ncrit;
      if totalcrit > MAX_QUERY_CRITERIA {
        return Some(TooManyCriteria);
      }
      if max1crit < ncrit {
        max1crit := ncrit;
      }
      if ncritgroups > 1 {
        if ncrit > 1 {
          nl2groups := nl2groups + 1;
        } else {
          nl1crit := nl1crit + ncrit;
        }
      }
      var vec := Enumerate(g);
      idvec := idvec + [vec];
      return None;
    }

    /** The constructor's loop over the groups. */
    method StoreGroups(gs: seq<Group>) returns (err: Option<Error>)
      requires idvec == [] && nl2groups == nl1crit == max1crit == totalcrit == 0 && !isL1And && |gs| > 0
      requires forall k :: 0 <= k < |gs| ==> gs[k] != {}
      modifies this`totalcrit, this`max1crit, this`nl2groups, this`nl1crit, this`idvec, this`ncritgroups, this`isL1And
      ensures err == None ==> Stored(gs) && ncritgroups == |gs| && isL1And == (|gs| == 1)
      ensures err == None && |gs| > 1 ==> nl2groups == |Several(GroupSizes(gs))| && nl1crit == |Single(GroupSizes(gs))|
      ensures err == None && |gs| == 1 ==> nl2groups == 0 && nl1crit == totalcrit
      ensures err == None <==> WithinLimits(GroupSizes(gs))
      ensures err != Some(SmallCriterion) && err != Some(TooManyGroups)
    {
      ncritgroups := |gs|;
      err := StoreAll(gs);
      if err == None && ncritgroups == 1 {
        nl1crit := totalcrit;
        isL1And := true;
      }
    }

    method StoreAll(gs: seq<Group>) returns (err: Option<Error>)
      requires Stored([]) && nl2groups == nl1crit == 0
      requires forall k :: 0 <= k < |gs| ==> gs[k] != {}
      modifies this`totalcrit, this`max1crit, this`nl2groups, this`nl1crit, this`idvec
      ensures err == None <==> WithinLimits(GroupSizes(gs))
      ensures err != Some(SmallCriterion) && err != Some(TooManyGroups)
      ensures err == None ==> Stored(gs)
      ensures err == None ==>
        if ncritgroups > 1 then nl2groups == |Several(GroupSizes(gs))| && nl1crit == |Single(GroupSizes(gs))|
        else nl2groups == nl1crit == 0
    {
      ghost var done: seq<Group> := [];
      for k := 0 to |gs|
        invariant |done| == k && (forall i :: 0 <= i < k ==> done[i] == gs[i]) && Stored(done)
        invariant if ncritgroups > 1 then
                    nl2groups == |Several(GroupSizes(done))| && nl1crit == |Single(GroupSizes(done))|
                  else nl2groups == nl1crit == 0
      {
        SnocCounts(done, gs[k]);
        err := StoreGroup(gs[k], done);
        done := done + [gs[k]];
        if err != None {
          EarlyBreak(done, gs);
          return;
        }
      }
      assert done == gs;
      return None;
    }

    /** The groups as texts: the stored ones, or the one criterion of a filter without two different ones. */
    function Groups(): seq<seq<string>>
      requires InTable(idvec, |mapvec|)
      reads this
    {
      if idvec == [] && firstcrit != "" then [[firstcrit]] else AllTexts(idvec, mapvec)
    }

    /** Reading a group back; nothing is returned for a group that does not exist or does not fit. */
    method GetGroupCriteria(grpnum: nat, maxelem: nat) returns (r: Option<seq<string>>)
      requires InTable(idvec, |mapvec|)
      ensures maxelem == 0 ==> r == Some([])
      ensures maxelem > 0 ==>
        r == if grpnum < |Groups()| && |Groups()[grpnum]| <= maxelem then Some(Groups()[grpnum]) else None
    {
      if maxelem == 0 {
        return Some([]);
      }
      if grpnum >= |idvec| {
        if grpnum == 0 && firstcrit != "" {
          return Some([firstcrit]);
        }
        return None;
      }
      var vec := idvec[grpnum];
      if |vec| > maxelem {
        return None;
      }
      var critarr: seq<string> := [];
      for nupd := 0 to |vec|
        invariant |critarr| == nupd && forall k :: 0 <= k < nupd ==> critarr[k] == mapvec[vec[k]]
      {
        critarr := critarr + [mapvec[vec[nupd]]];
      }
      assert critarr == Texts(vec, mapvec);
      return Some(critarr);
    }

    /** What a successful parse leaves behind: the meaning, and the counters of the groups. */
    ghost predicate Parsed(f: Filter, hash: HashFn)
      reads this
    {
      && InTable(idvec, |mapvec|) && Means(Groups(), f, hash) && ncritgroups == |Groups()| > 0
      && (if ncritgroups > 1 then
            && nl2groups == |Several(TextSizes(Groups()))| && nl1crit == |Single(TextSizes(Groups()))|
            && nl2groups + nl1crit == ncritgroups && !isL1And
          else isL1And && nl2groups == 0 && nl1crit == totalcrit)
      && totalcrit == Sum(TextSizes(Groups())) <= MAX_QUERY_CRITERIA
      && max1crit == Largest(TextSizes(Groups())) <= MAX_ONE_GROUP_CRITERIA && ncritgroups <= MAX_CRITERIA_GROUPS
    }

    /**
     * A text without braces, trimmed and not empty, is one criterion, of any length, unless it joins several by AND or
     * OR.
     */
    method ParseBare(text: string, ghost hash: HashFn) returns (err: Option<Error>)
      requires Empty() && text != ""
      modifies this
      ensures err == if JoinsBare(text, 1) then Some(MissingBraces) else None
      ensures err == None ==> Parsed(Crit(text), hash) && Groups() == [[text]]
    {
      var bad := ScanBare(text);
      if bad {
        return Some(MissingBraces);
      }
      firstcrit := text;
      ncritgroups, isL1And, nl1crit, max1crit, totalcrit := 1, true, 1, 1, 1;
      BareMeans(text, hash);
      return None;
    }

    /**
     * The constructor for criteria in braces: on success the groups mean the filter for every assignment; otherwise
     * a limit is broken.
     */
    method Parse(f: Filter, hash: HashFn) returns (err: Option<Error>)
      requires Empty()
      modifies this
      ensures err == None ==> Parsed(f, hash)
      ensures err == None <==> Accepted(f, hash)
      ensures err == Some(SmallCriterion) <==> !LongEnough(Leaves(f))
      ensures err == Some(TooManyGroups) <==> TooMany(f, hash)
    {
      var ok, ids, mv := NumberLeaves(f, hash);
      if !ok {
        return Some(SmallCriterion);
      }
      err := ParseNumbered(f, hash, ids, mv);
      JudgedIs(f, hash, ids, mv, err);
    }

    /** The constructor from where the criteria are numbered. */
    method ParseNumbered(f: Filter, hash: HashFn, ids: seq<nat>, mv: seq<string>) returns (err: Option<Error>)
      requires Empty() && Interned(Leaves(f), ids, mv, hash) && mv != [] && mv[0] != ""
      modifies this
      ensures err == None ==> Parsed(f, hash)
      ensures Judged(|mv|, Dnf(Number(f, ids)), err)
    {
      if |mv| <= 1 {
        ParseOne(f, hash, ids, mv);
        return None;
      }
      err := ParseGroups(f, hash, ids, mv);
    }

    /** A filter without two different criteria is not normalised. */
    method ParseOne(f: Filter, hash: HashFn, ids: seq<nat>, mv: seq<string>)
      requires Empty() && Interned(Leaves(f), ids, mv, hash) && |mv| == 1 && mv[0] != ""
      modifies this
      ensures Parsed(f, hash)
      ensures firstcrit == mv[0] && idvec == []
    {
      firstcrit := mv[0];
      ncritgroups, isL1And, nl1crit, max1crit, totalcrit := 1, true, 1, 1, 1;
      OneCriterion(f, hash, ids, mv);
    }

    /** The part of the constructor after the criteria are numbered, for at least two different ones. */
    method ParseGroups(f: Filter, hash: HashFn, ids: seq<nat>, mv: seq<string>) returns (err: Option<Error>)
      requires Empty() && Interned(Leaves(f), ids, mv, hash)
      modifies this
      ensures err == None ==> Parsed(f, hash)
      ensures Judged(2, Dnf(Number(f, ids)), err)
    {
      mapvec := mv;
      var gs := Dnf(Number(f, ids));
      NumberBelow(f, ids, |mv|);
      DnfOk(Number(f, ids), |mv|);
      if |gs| > MAX_CRITERIA_GROUPS {
        return Some(TooManyGroups);
      }
      err := StoreGroups(gs);
      if err == None {
        GroupsParsed(f, hash, ids, gs);
      }
    }

    /** Groups stored and counted are a parsed filter. */
    lemma {:induction false} GroupsParsed(f: Filter, hash: HashFn, ids: seq<nat>, gs: seq<Group>)
      requires Interned(Leaves(f), ids, mapvec, hash) && gs == Dnf(Number(f, ids)) && 0 < |gs| <= MAX_CRITERIA_GROUPS
      requires (forall k :: 0 <= k < |gs| ==> gs[k] != {}) && Stored(gs)
      requires ncritgroups == |gs| && isL1And == (|gs| == 1)
      requires |gs| > 1 ==> nl2groups == |Several(GroupSizes(gs))| && nl1crit == |Single(GroupSizes(gs))|
      requires |gs| == 1 ==> nl2groups == 0 && nl1crit == totalcrit
      ensures Parsed(f, hash)
    {
      GroupsMean(f, hash, ids, mapvec, idvec);
      SameSizes(idvec, gs, mapvec);
      CountsAddUp(GroupSizes(gs));
    }
  }
}
