/**
 * The chained hash table whose bucket heads live inside the table array.
 *
 * The first half gives the meaning: a table is a list of buckets, each the list of its bindings in
 * chain order, and what the operations do to it is related to a multiset and to a map.  The second
 * half is the linked structure itself, proved against those bucket lists.
 */
module HashTable {
  import opened Bytes

  type Key = seq<byte>
  datatype Binding = Binding(key: Key, val: int)
  type Bucket = seq<Binding>
  type Table = seq<Bucket>
  type HashFn = Key -> nat

  // ---- Buckets ----

  /** A new binding goes behind the head, which stays where it is. */
  function AddTo(b: Bucket, e: Binding): Bucket {
    if b == [] then [e] else [b[0], e] + b[1..]
  }

  /** The position of the first binding of `key`, or the length of the bucket. */
  function Find(b: Bucket, key: Key): (i: nat)
    ensures i <= |b|
    ensures i < |b| ==> b[i].key == key
    ensures forall j :: 0 <= j < i ==> b[j].key != key
  {
    if b == [] || b[0].key == key then 0 else 1 + Find(b[1..], key)
  }

  function Without(b: Bucket, i: nat): Bucket
    requires i < |b|
  {
    b[..i] + b[i + 1..]
  }

  // ---- Tables ----

  function Slot(t: Table, hash: HashFn, key: Key): (k: nat)
    requires |t| > 0
    ensures k < |t|
  {
    hash(key) % |t|
  }

  ghost predicate WellHashed(t: Table, hash: HashFn) {
    && |t| > 0
    && forall k, i :: 0 <= k < |t| && 0 <= i < |t[k]| ==> Slot(t, hash, t[k][i].key) == k
  }

  function Contents(t: Table): multiset<Binding> {
    if t == [] then multiset{} else multiset(t[0]) + Contents(t[1..])
  }

  function Flat(t: Table): seq<Binding> {
    if t == [] then [] else t[0] + Flat(t[1..])
  }

  lemma {:induction false} FlatContents(t: Table)
    ensures multiset(Flat(t)) == Contents(t)
  {
    if t != [] {
      FlatContents(t[1..]);
    }
  }

  lemma {:induction false} CountUpdate(t: Table, k: nat, b: Bucket, e: Binding)
    requires k < |t|
    ensures Contents(t[k := b])[e] + multiset(t[k])[e] == Contents(t)[e] + multiset(b)[e]
  {
    if k == 0 {
      assert t[k := b][1..] == t[1..];
    } else {
      assert t[k := b][1..] == t[1..][k - 1 := b];
      CountUpdate(t[1..], k - 1, b, e);
    }
  }

  /** Replacing one bucket by another that differs by `out` and `in_` changes the table by the same. */
  lemma {:induction false} ContentsReplace(t: Table, k: nat, b: Bucket, out: multiset<Binding>, in_: multiset<Binding>)
    requires k < |t| && out <= multiset(t[k])
    requires multiset(b) == multiset(t[k]) - out + in_
    ensures Contents(t[k := b]) == Contents(t) - out + in_
  {
    forall e ensures Contents(t[k := b])[e] == (Contents(t) - out + in_)[e] {
      CountUpdate(t, k, b, e);
      CountUpdate(t, k, t[k], e);
      CountSplit(t, k, e);
    }
  }

  lemma {:induction false} CountSplit(t: Table, k: nat, e: Binding)
    requires k < |t|
    ensures multiset(t[k])[e] <= Contents(t)[e]
  {
    if k > 0 {
      CountSplit(t[1..], k - 1, e);
    }
  }

  lemma {:induction false} StaysWellHashed(t: Table, hash: HashFn, k: nat, b: Bucket)
    requires WellHashed(t, hash) && k < |t|
    requires forall i :: 0 <= i < |b| ==> Slot(t, hash, b[i].key) == k
    ensures WellHashed(t[k := b], hash)
  {
    var t': Table := t[k := b];
    forall j, i | 0 <= j < |t'| && 0 <= i < |t'[j]| ensures Slot(t', hash, t'[j][i].key) == j {
      assert Slot(t', hash, t'[j][i].key) == Slot(t, hash, t'[j][i].key);
    }
  }

  lemma {:induction false} ContentsMember(t: Table, e: Binding)
    ensures e in Contents(t) <==> exists k :: 0 <= k < |t| && e in t[k]
  {
    if t != [] {
      ContentsMember(t[1..], e);
      if e in Contents(t) {
        if e in t[0] {
        } else {
          var k :| 0 <= k < |t[1..]| && e in t[1..][k];
          assert e in t[k + 1];
        }
      }
      if k :| 0 <= k < |t| && e in t[k] {
        assert k > 0 ==> e in t[1..][k - 1];
      }
    }
  }

  /** `key` is bound in the table. */
  ghost predicate Bound(t: Table, key: Key) {
    exists v :: Binding(key, v) in Contents(t)
  }

  /** The key's own bucket has a binding of it. */
  predicate Holds(t: Table, hash: HashFn, key: Key) {
    |t| > 0 && Find(t[Slot(t, hash, key)], key) < |t[Slot(t, hash, key)]|
  }

  /** The binding a search finds: the first one of the key in its bucket. */
  function Lookup(t: Table, hash: HashFn, key: Key): Binding
    requires Holds(t, hash, key)
  {
    t[Slot(t, hash, key)][Find(t[Slot(t, hash, key)], key)]
  }

  /** Looking only at the key's own bucket finds a binding exactly when there is one anywhere. */
  lemma {:induction false} FindIffBound(t: Table, hash: HashFn, key: Key)
    requires WellHashed(t, hash)
    ensures Holds(t, hash, key) <==> Bound(t, key)
    ensures Holds(t, hash, key) ==> Lookup(t, hash, key) in Contents(t) && Lookup(t, hash, key).key == key
  {
    var k := Slot(t, hash, key);
    var b := t[k];
    if Find(b, key) < |b| {
      var e := b[Find(b, key)];
      assert e in t[k];
      ContentsMember(t, e);
      assert e == Binding(key, e.val);
    }
    if Bound(t, key) {
      var v :| Binding(key, v) in Contents(t);
      ContentsMember(t, Binding(key, v));
      var k' :| 0 <= k' < |t| && Binding(key, v) in t[k'];
      var i :| 0 <= i < |t[k']| && t[k'][i] == Binding(key, v);
      assert k' == k;
    }
  }

  // ---- The operations ----

  function Added(t: Table, hash: HashFn, e: Binding): Table
    requires |t| > 0
  {
    var k := Slot(t, hash, e.key);
    t[k := AddTo(t[k], e)]
  }

  function Updated(t: Table, hash: HashFn, key: Key, val: int): Table
    requires |t| > 0
  {
    var k := Slot(t, hash, key);
    var i := Find(t[k], key);
    if i < |t[k]| then t[k := t[k][i := Binding(key, val)]] else t
  }

  function Removed(t: Table, hash: HashFn, key: Key): Table
    requires |t| > 0
  {
    var k := Slot(t, hash, key);
    var i := Find(t[k], key);
    if i < |t[k]| then t[k := Without(t[k], i)] else t
  }

  lemma {:induction false} AddToBag(b: Bucket, e: Binding)
    ensures multiset(AddTo(b, e)) == multiset(b) + multiset{e}
  {
    assert b != [] ==> b == [b[0]] + b[1..];
  }

  lemma {:induction false} WithoutBag(b: Bucket, i: nat)
    requires i < |b|
    ensures multiset(Without(b, i)) == multiset(b) - multiset{b[i]}
  {
    assert b == b[..i] + [b[i]] + b[i + 1..];
  }

  lemma {:induction false} AssignBag(b: Bucket, i: nat, e: Binding)
    requires i < |b|
    ensures multiset(b[i := e]) == multiset(b) - multiset{b[i]} + multiset{e}
  {
    WithoutBag(b, i);
    assert b[i := e] == b[..i] + [e] + b[i + 1..];
  }

  lemma {:induction false} AddedWellHashed(t: Table, hash: HashFn, e: Binding)
    requires WellHashed(t, hash)
    ensures WellHashed(Added(t, hash, e), hash)
  {
    var k := Slot(t, hash, e.key);
    var b := AddTo(t[k], e);
    forall i | 0 <= i < |b| ensures Slot(t, hash, b[i].key) == k {
      if t[k] != [] && i != 1 {
        assert b[i] == t[k][if i == 0 then 0 else i - 1];
      }
    }
    StaysWellHashed(t, hash, k, b);
  }

  lemma {:induction false} AddedContents(t: Table, hash: HashFn, e: Binding)
    requires WellHashed(t, hash)
    ensures WellHashed(Added(t, hash, e), hash)
    ensures Contents(Added(t, hash, e)) == Contents(t) + multiset{e}
  {
    AddedWellHashed(t, hash, e);
    var k := Slot(t, hash, e.key);
    AddToBag(t[k], e);
    ContentsReplace(t, k, AddTo(t[k], e), multiset{}, multiset{e});
  }

  lemma {:induction false} RemovedWellHashed(t: Table, hash: HashFn, key: Key)
    requires WellHashed(t, hash)
    ensures WellHashed(Removed(t, hash, key), hash)
  {
    var k := Slot(t, hash, key);
    var i := Find(t[k], key);
    if i < |t[k]| {
      var b := Without(t[k], i);
      forall j | 0 <= j < |b| ensures Slot(t, hash, b[j].key) == k {
        assert b[j] == t[k][if j < i then j else j + 1];
      }
      StaysWellHashed(t, hash, k, b);
    }
  }

  /** Removing deletes exactly the one binding a lookup would have found, or nothing. */
  lemma {:induction false} RemovedContents(t: Table, hash: HashFn, key: Key)
    requires WellHashed(t, hash)
    ensures if Bound(t, key) then
              && Holds(t, hash, key)
              && Contents(Removed(t, hash, key)) == Contents(t) - multiset{Lookup(t, hash, key)}
            else Removed(t, hash, key) == t
  {
    FindIffBound(t, hash, key);
    var k := Slot(t, hash, key);
    var i := Find(t[k], key);
    if i < |t[k]| {
      WithoutBag(t[k], i);
      ContentsReplace(t, k, Without(t[k], i), multiset{t[k][i]}, multiset{});
    }
  }

  /** Updating replaces exactly the one binding a lookup would have found, or nothing. */
  lemma {:induction false} UpdatedContents(t: Table, hash: HashFn, key: Key, val: int)
    requires WellHashed(t, hash)
    ensures WellHashed(Updated(t, hash, key, val), hash)
    ensures if Bound(t, key) then
              && Holds(t, hash, key)
              && Contents(Updated(t, hash, key, val)) ==
                 Contents(t) - multiset{Lookup(t, hash, key)} + multiset{Binding(key, val)}
            else Updated(t, hash, key, val) == t
  {
    FindIffBound(t, hash, key);
    var k := Slot(t, hash, key);
    var i := Find(t[k], key);
    if i < |t[k]| {
      var b := t[k][i := Binding(key, val)];
      AssignBag(t[k], i, Binding(key, val));
      ContentsReplace(t, k, b, multiset{t[k][i]}, multiset{Binding(key, val)});
      StaysWellHashed(t, hash, k, b);
    }
  }

  lemma {:induction false} UpdatedFacts(t: Table, hash: HashFn, key: Key, val: int)
    requires WellHashed(t, hash)
    ensures WellHashed(Updated(t, hash, key, val), hash)
    ensures Find(t[Slot(t, hash, key)], key) < |t[Slot(t, hash, key)]| <==> Bound(t, key)
  {
    UpdatedContents(t, hash, key, val);
    FindIffBound(t, hash, key);
  }

  lemma {:induction false} RemovedFacts(t: Table, hash: HashFn, key: Key)
    requires WellHashed(t, hash)
    ensures WellHashed(Removed(t, hash, key), hash)
    ensures Find(t[Slot(t, hash, key)], key) < |t[Slot(t, hash, key)]| <==> Bound(t, key)
  {
    RemovedWellHashed(t, hash, key);
    FindIffBound(t, hash, key);
  }

  // ---- Several bindings of one key ----

  /** The bindings of one key added one after the other. */
  function AddedAll(t: Table, hash: HashFn, key: Key, vals: seq<int>): Table
    requires |t| > 0
    decreases |vals|
  {
    if vals == [] then t else Added(AddedAll(t, hash, key, vals[..|vals| - 1]), hash, Binding(key, vals[|vals| - 1]))
  }

  /**
   * Which of several bindings of a key a search finds: a head with that key stays the one found; in a bucket headed by
   * another key it is the one added last, and in a bucket that was empty the one added first.
   */
  lemma {:induction false} AddedAllFinds(t: Table, hash: HashFn, key: Key, vals: seq<int>)
    requires |t| > 0 && vals != []
    ensures var r, b := AddedAll(t, hash, key, vals), t[Slot(t, hash, key)];
            && |r| == |t| && Holds(r, hash, key) && r[Slot(t, hash, key)] != []
            && r[Slot(t, hash, key)][0] == (if b == [] then Binding(key, vals[0]) else b[0])
            && Lookup(r, hash, key).val ==
               (if b == [] then vals[0] else if b[0].key == key then b[0].val else vals[|vals| - 1])
    decreases |vals|
  {
    var n, k := |vals| - 1, Slot(t, hash, key);
    var before: Table := AddedAll(t, hash, key, vals[..n]);
    if n > 0 {
      AddedAllFinds(t, hash, key, vals[..n]);
    } else {
      assert vals[..n] == [];
    }
    FindAdded(before[k], Binding(key, vals[n]));
  }

  lemma {:induction false} FindAdded(b: Bucket, e: Binding)
    ensures var i := Find(AddTo(b, e), e.key);
            && i < |AddTo(b, e)|
            && AddTo(b, e)[i] == (if b != [] && b[0].key == e.key then b[0] else e)
  {
    if b != [] {
      assert AddTo(b, e)[1..][0] == e;
    }
  }

  // ---- The value that marks an empty bucket ----

  /** An in-array head with value -1 is taken to be unassigned, with whatever hangs behind it. */
  function Shown(b: Bucket): Bucket {
    if b != [] && b[0].val == -1 then [] else b
  }

  /** The table after bucket `k` has been changed, as the array shows it. */
  function Settled(t: Table, k: nat): Table
    requires k < |t|
  {
    t[k := Shown(t[k])]
  }

  /** No binding has a negative value. */
  ghost predicate NonNeg(t: Table) {
    forall e :: e in Contents(t) ==> e.val >= 0
  }

  lemma {:induction false} NonNegBucket(t: Table, k: nat, i: nat)
    requires NonNeg(t) && k < |t| && i < |t[k]|
    ensures t[k][i].val >= 0
  {
    ContentsMember(t, t[k][i]);
  }

  /** Values that are not negative always show. */
  lemma {:induction false} SettledSame(t: Table, k: nat)
    requires NonNeg(t) && k < |t|
    ensures Settled(t, k) == t
  {
    if t[k] != [] {
      NonNegBucket(t, k, 0);
    }
  }

  /** The bindings survive a change of bucket `k` exactly when it does not leave the value -1 at the head. */
  lemma {:induction false} SettledKeepsIff(t: Table, k: nat)
    requires k < |t|
    ensures Contents(Settled(t, k)) == Contents(t) <==> !(t[k] != [] && t[k][0].val == -1)
  {
    if t[k] != [] && t[k][0].val == -1 {
      var e := t[k][0];
      CountUpdate(t, k, [], e);
      assert multiset(t[k])[e] > 0;
    } else {
      assert t[k := t[k]] == t;
    }
  }

  lemma {:induction false} SettledWellHashed(t: Table, hash: HashFn, k: nat)
    requires WellHashed(t, hash) && k < |t|
    ensures WellHashed(Settled(t, k), hash)
  {
    StaysWellHashed(t, hash, k, Shown(t[k]));
  }

  /** The value -1 added to an empty bucket leaves no trace. */
  lemma {:induction false} MinusOneLost(t: Table, hash: HashFn, key: Key)
    requires |t| > 0 && t[Slot(t, hash, key)] == []
    ensures Settled(Added(t, hash, Binding(key, -1)), Slot(t, hash, key)) == t
  {
  }

  /** A bucket that clear and iterate look at: its head has a value that is not negative. */
  predicate Looked(b: Bucket) {
    b != [] && b[0].val >= 0
  }

  /** What clear leaves behind, and what iterate visits. */
  function Skipped(t: Table): (r: Table)
    ensures |r| == |t| && forall k :: 0 <= k < |t| ==> r[k] == if Looked(t[k]) then [] else t[k]
  {
    seq(|t|, k requires 0 <= k < |t| => if Looked(t[k]) then [] else t[k])
  }

  function Visited(t: Table): (r: Table)
    ensures |r| == |t| && forall k :: 0 <= k < |t| ==> r[k] == if Looked(t[k]) then t[k] else []
  {
    seq(|t|, k requires 0 <= k < |t| => if Looked(t[k]) then t[k] else [])
  }

  lemma {:induction false} SkippedWellHashed(t: Table, hash: HashFn)
    requires WellHashed(t, hash)
    ensures WellHashed(Skipped(t), hash)
  {
    var r: Table := Skipped(t);
    forall k, i | 0 <= k < |r| && 0 <= i < |r[k]| ensures Slot(r, hash, r[k][i].key) == k {
      assert r[k] == t[k] && Slot(t, hash, t[k][i].key) == k;
    }
  }

  lemma {:induction false} NonNegLooked(t: Table)
    requires NonNeg(t)
    ensures Skipped(t) == Empty(|t|) && Visited(t) == t
  {
    forall k | 0 <= k < |t| ensures t[k] == [] || Looked(t[k]) {
      if t[k] != [] {
        NonNegBucket(t, k, 0);
      }
    }
  }

  // ---- With distinct keys the table is a map ----

  /** A bag of bindings is exactly the graph of the map `f`. */
  ghost predicate IsGraph(m: multiset<Binding>, f: map<Key, int>) {
    && (forall e :: e in m ==> e.key in f && f[e.key] == e.val && m[e] == 1)
    && (forall key :: key in f ==> Binding(key, f[key]) in m)
  }

  /** `f` is the map the table stands for: it has exactly the table's bindings. */
  ghost predicate IsMap(t: Table, f: map<Key, int>) {
    IsGraph(Contents(t), f)
  }

  lemma {:induction false} GraphAdd(m: multiset<Binding>, f: map<Key, int>, key: Key, val: int)
    requires IsGraph(m, f) && key !in f
    ensures IsGraph(m + multiset{Binding(key, val)}, f[key := val])
  {
  }

  lemma {:induction false} GraphRemove(m: multiset<Binding>, f: map<Key, int>, key: Key)
    requires IsGraph(m, f) && key in f
    ensures IsGraph(m - multiset{Binding(key, f[key])}, f - {key})
  {
    var m', f' := m - multiset{Binding(key, f[key])}, f - {key};
    forall e | e in m' ensures e.key in f' && f'[e.key] == e.val && m'[e] == 1 {
      assert e in m;
    }
  }

  lemma {:induction false} GraphReplace(m: multiset<Binding>, f: map<Key, int>, key: Key, val: int)
    requires IsGraph(m, f) && key in f
    ensures IsGraph(m - multiset{Binding(key, f[key])} + multiset{Binding(key, val)}, f[key := val])
  {
    GraphRemove(m, f, key);
    GraphAdd(m - multiset{Binding(key, f[key])}, f - {key}, key, val);
    assert (f - {key})[key := val] == f[key := val];
  }

  lemma {:induction false} MapLookup(t: Table, hash: HashFn, f: map<Key, int>, key: Key)
    requires WellHashed(t, hash) && IsMap(t, f)
    ensures Bound(t, key) <==> key in f
    ensures Holds(t, hash, key) <==> key in f
    ensures key in f ==> Lookup(t, hash, key) == Binding(key, f[key])
  {
    FindIffBound(t, hash, key);
  }

  datatype Op = Add(key: Key, val: int) | Update(key: Key, val: int) | Remove(key: Key) | Clear

  function Empty(n: nat): (t: Table)
    ensures |t| == n && forall k :: 0 <= k < n ==> t[k] == []
  {
    seq(n, i => [])
  }

  lemma {:induction false} EmptyContents(n: nat)
    ensures Contents(Empty(n)) == multiset{}
  {
    if n > 0 {
      assert Empty(n)[1..] == Empty(n - 1);
      EmptyContents(n - 1);
    }
  }

  function Apply(t: Table, hash: HashFn, op: Op): Table
    requires |t| > 0
  {
    match op
    case Add(key, val) => Added(t, hash, Binding(key, val))
    case Update(key, val) => Updated(t, hash, key, val)
    case Remove(key) => Removed(t, hash, key)
    case Clear => Empty(|t|)
  }

  function ApplyMap(f: map<Key, int>, op: Op): map<Key, int> {
    match op
    case Add(key, val) => f[key := val]
    case Update(key, val) => if key in f then f[key := val] else f
    case Remove(key) => f - {key}
    case Clear => map[]
  }

  /** No operation stores a negative value. */
  predicate NonNegOp(op: Op) {
    match op
    case Add(_, val) => val >= 0
    case Update(_, val) => val >= 0
    case Remove(_) => true
    case Clear => true
  }

  /** What an operation does to the array: the bucket it changes is settled, and clear skips negative heads. */
  function Performed(t: Table, hash: HashFn, op: Op): Table
    requires |t| > 0
  {
    match op
    case Add(key, val) => Settled(Added(t, hash, Binding(key, val)), Slot(t, hash, key))
    case Update(key, val) => Settled(Updated(t, hash, key, val), Slot(t, hash, key))
    case Remove(key) => Settled(Removed(t, hash, key), Slot(t, hash, key))
    case Clear => Skipped(t)
  }

  lemma {:induction false} PerformedAdd(t: Table, hash: HashFn, key: Key, val: int)
    requires WellHashed(t, hash)
    ensures var k := Slot(t, hash, key);
            && Performed(t, hash, Add(key, val)) == t[k := Shown(AddTo(t[k], Binding(key, val)))]
            && WellHashed(t[k := Shown(AddTo(t[k], Binding(key, val)))], hash)
  {
    AddedWellHashed(t, hash, Binding(key, val));
    SettledWellHashed(Added(t, hash, Binding(key, val)), hash, Slot(t, hash, key));
  }

  lemma {:induction false} PerformedUpdate(t: Table, hash: HashFn, key: Key, val: int)
    requires WellHashed(t, hash) && Shown(t[Slot(t, hash, key)]) == t[Slot(t, hash, key)]
    ensures var k := Slot(t, hash, key);
            var i := Find(t[k], key);
            && (Bound(t, key) <==> i < |t[k]|)
            && (i < |t[k]| ==> Performed(t, hash, Update(key, val)) == t[k := Shown(t[k][i := Binding(key, val)])]
                               && WellHashed(t[k := Shown(t[k][i := Binding(key, val)])], hash))
            && (i >= |t[k]| ==> Performed(t, hash, Update(key, val)) == t)
  {
    UpdatedFacts(t, hash, key, val);
    SettledWellHashed(Updated(t, hash, key, val), hash, Slot(t, hash, key));
  }

  lemma {:induction false} PerformedRemove(t: Table, hash: HashFn, key: Key)
    requires WellHashed(t, hash) && Shown(t[Slot(t, hash, key)]) == t[Slot(t, hash, key)]
    ensures var k := Slot(t, hash, key);
            var i := Find(t[k], key);
            && (Bound(t, key) <==> i < |t[k]|)
            && (i < |t[k]| ==> Performed(t, hash, Remove(key)) == t[k := Shown(Without(t[k], i))]
                               && WellHashed(t[k := Shown(Without(t[k], i))], hash))
            && (i >= |t[k]| ==> Performed(t, hash, Remove(key)) == t)
  {
    RemovedFacts(t, hash, key);
    SettledWellHashed(Removed(t, hash, key), hash, Slot(t, hash, key));
  }

  lemma {:induction false} NonNegAdded(t: Table, hash: HashFn, e: Binding)
    requires WellHashed(t, hash) && NonNeg(t) && e.val >= 0
    ensures NonNeg(Added(t, hash, e))
  {
    AddedContents(t, hash, e);
  }

  lemma {:induction false} NonNegUpdated(t: Table, hash: HashFn, key: Key, val: int)
    requires WellHashed(t, hash) && NonNeg(t) && val >= 0
    ensures NonNeg(Updated(t, hash, key, val))
  {
    UpdatedContents(t, hash, key, val);
  }

  lemma {:induction false} NonNegRemoved(t: Table, hash: HashFn, key: Key)
    requires WellHashed(t, hash) && NonNeg(t)
    ensures NonNeg(Removed(t, hash, key))
  {
    RemovedContents(t, hash, key);
  }

  /** Without negative values the array does what the operation is meant to do. */
  lemma {:induction false} PerformedIsApply(t: Table, hash: HashFn, op: Op)
    requires WellHashed(t, hash) && NonNeg(t) && NonNegOp(op)
    ensures Performed(t, hash, op) == Apply(t, hash, op) && NonNeg(Apply(t, hash, op))
  {
    match op {
      case Add(key, val) =>
        NonNegAdded(t, hash, Binding(key, val));
        SettledSame(Added(t, hash, Binding(key, val)), Slot(t, hash, key));
      case Update(key, val) =>
        NonNegUpdated(t, hash, key, val);
        SettledSame(Updated(t, hash, key, val), Slot(t, hash, key));
      case Remove(key) =>
        NonNegRemoved(t, hash, key);
        SettledSame(Removed(t, hash, key), Slot(t, hash, key));
      case Clear =>
        NonNegLooked(t);
        EmptyContents(|t|);
    }
  }

  /** Every head has a value that shows, as it always does in the array. */
  ghost predicate AllShown(t: Table) {
    forall k :: 0 <= k < |t| ==> Shown(t[k]) == t[k]
  }

  /**
   * The calls on which the array does not do what it is meant to, told from the table before the call: -1 would become
   * the value of a head, or clear meets a head with a negative value.
   */
  predicate Loses(t: Table, hash: HashFn, op: Op)
    requires |t| > 0
  {
    match op
    case Add(key, val) => val == -1 && t[Slot(t, hash, key)] == []
    case Update(key, val) =>
      var b := t[Slot(t, hash, key)];
      val == -1 && b != [] && b[0].key == key
    case Remove(key) =>
      var b := t[Slot(t, hash, key)];
      |b| > 1 && b[0].key == key && b[1].val == -1
    case Clear => exists k :: 0 <= k < |t| && t[k] != [] && t[k][0].val < 0
  }

  lemma {:induction false} ClearLosesIff(t: Table, hash: HashFn)
    requires |t| > 0
    ensures Contents(Skipped(t)) == Contents(Empty(|t|)) <==> !Loses(t, hash, Clear)
    ensures !Loses(t, hash, Clear) ==> Skipped(t) == Empty(|t|)
  {
    EmptyContents(|t|);
    var r: Table := Skipped(t);
    if k :| 0 <= k < |t| && t[k] != [] && t[k][0].val < 0 {
      assert r[k] == t[k] && t[k][0] in r[k];
      ContentsMember(r, t[k][0]);
    } else {
      forall k | 0 <= k < |t| ensures r[k] == [] {
        assert t[k] == [] || Looked(t[k]);
      }
      assert r == Empty(|t|);
    }
  }

  /** The bucket an operation changes would get -1 at its head exactly on those calls. */
  lemma {:induction false} HeadLost(t: Table, hash: HashFn, op: Op)
    requires |t| > 0 && AllShown(t) && op != Clear
    ensures Shown(Apply(t, hash, op)[Slot(t, hash, op.key)]) == Apply(t, hash, op)[Slot(t, hash, op.key)] <==>
            !Loses(t, hash, op)
  {
    var b := t[Slot(t, hash, op.key)];
    assert Shown(b) == b;
  }

  /** An operation but clear changes the bucket of its key only. */
  lemma {:induction false} OneBucket(t: Table, hash: HashFn, op: Op, k: nat, b: Bucket)
    requires |t| > 0 && op != Clear && k == Slot(t, hash, op.key) && b == Apply(t, hash, op)[k]
    ensures Apply(t, hash, op) == t[k := b] && Performed(t, hash, op) == t[k := Shown(b)]
  {
  }

  lemma {:induction false} ShownKept(t: Table, k: nat, b: Bucket)
    requires k < |t| && AllShown(t)
    ensures AllShown(t[k := Shown(b)])
    ensures Contents(t[k := Shown(b)]) == Contents(t[k := b]) <==> Shown(b) == b
    ensures t[k := Shown(b)] == t[k := b] <==> Shown(b) == b
  {
    var r: Table := t[k := b];
    SettledKeepsIff(r, k);
    assert r[k := Shown(b)] == t[k := Shown(b)];
    assert t[k := Shown(b)][k] == Shown(b);
    StaysShown(t, k, Shown(b));
  }

  lemma {:induction false} StaysShown(t: Table, k: nat, b: Bucket)
    requires k < |t| && AllShown(t) && Shown(b) == b
    ensures AllShown(t[k := b])
  {
    var r: Table := t[k := b];
    forall j | 0 <= j < |r| ensures Shown(r[j]) == r[j] {
      assert r[j] == if j == k then b else t[j];
    }
  }

  /** An operation does to the array what it is meant to do, and keeps all bindings it should, except on those calls. */
  lemma {:induction false} LosesIff(t: Table, hash: HashFn, op: Op)
    requires |t| > 0 && AllShown(t)
    ensures Contents(Performed(t, hash, op)) == Contents(Apply(t, hash, op)) <==> !Loses(t, hash, op)
    ensures Performed(t, hash, op) == Apply(t, hash, op) <==> !Loses(t, hash, op)
    ensures AllShown(Performed(t, hash, op))
  {
    if op == Clear {
      ClearLosesIff(t, hash);
    } else {
      var k := Slot(t, hash, op.key);
      var b := Apply(t, hash, op)[k];
      HeadLost(t, hash, op);
      OneBucket(t, hash, op, k, b);
      ShownKept(t, k, b);
    }
  }

  /** No operation is one of those calls when it is made. */
  predicate NeverLoses(t: Table, hash: HashFn, ops: seq<Op>)
    requires |t| > 0
    decreases |ops|
  {
    ops == [] || (!Loses(t, hash, ops[0]) && NeverLoses(Apply(t, hash, ops[0]), hash, ops[1..]))
  }

  /** Then the whole run is what it is meant to be, whatever the values. */
  lemma {:induction false} RunWithoutLoss(t: Table, hash: HashFn, ops: seq<Op>)
    requires WellHashed(t, hash) && AllShown(t) && NeverLoses(t, hash, ops)
    ensures PerformAll(t, hash, ops) == Run(t, hash, ops) && AllShown(Run(t, hash, ops))
    decreases |ops|
  {
    if ops != [] {
      LosesIff(t, hash, ops[0]);
      ApplyIsBagStep(t, hash, ops[0]);
      RunWithoutLoss(Apply(t, hash, ops[0]), hash, ops[1..]);
    }
  }

  function PerformAll(t: Table, hash: HashFn, ops: seq<Op>): Table
    requires |t| > 0
    decreases |ops|
  {
    if ops == [] then t else PerformAll(Performed(t, hash, ops[0]), hash, ops[1..])
  }

  /** So it does over any number of operations. */
  lemma {:induction false} PerformAllIsRun(t: Table, hash: HashFn, ops: seq<Op>)
    requires WellHashed(t, hash) && NonNeg(t) && forall i :: 0 <= i < |ops| ==> NonNegOp(ops[i])
    ensures PerformAll(t, hash, ops) == Run(t, hash, ops) && NonNeg(Run(t, hash, ops))
    decreases |ops|
  {
    if ops != [] {
      PerformedIsApply(t, hash, ops[0]);
      ApplyIsBagStep(t, hash, ops[0]);
      PerformAllIsRun(Apply(t, hash, ops[0]), hash, ops[1..]);
    }
  }

  /** Every key is added only while it is unbound. */
  predicate AddsFresh(f: map<Key, int>, ops: seq<Op>)
    decreases |ops|
  {
    ops == [] || ((ops[0].Add? ==> ops[0].key !in f) && AddsFresh(ApplyMap(f, ops[0]), ops[1..]))
  }

  function Run(t: Table, hash: HashFn, ops: seq<Op>): Table
    requires |t| > 0
    decreases |ops|
  {
    if ops == [] then t else Run(Apply(t, hash, ops[0]), hash, ops[1..])
  }

  function RunMap(f: map<Key, int>, ops: seq<Op>): map<Key, int>
    decreases |ops|
  {
    if ops == [] then f else RunMap(ApplyMap(f, ops[0]), ops[1..])
  }

  // ---- Without it, a multiset ----

  /** What one operation may do to the bag of bindings: it touches at most one binding of its key. */
  ghost predicate BagStep(m: multiset<Binding>, op: Op, m': multiset<Binding>) {
    match op
    case Add(key, val) => m' == m + multiset{Binding(key, val)}
    case Update(key, val) =>
      if forall e :: e in m ==> e.key != key then m' == m
      else exists e :: e in m && e.key == key && m' == m - multiset{e} + multiset{Binding(key, val)}
    case Remove(key) =>
      if forall e :: e in m ==> e.key != key then m' == m
      else exists e :: e in m && e.key == key && m' == m - multiset{e}
    case Clear => m' == multiset{}
  }

  lemma {:induction false} UnboundMeans(t: Table, key: Key)
    ensures Bound(t, key) <==> !forall e :: e in Contents(t) ==> e.key != key
  {
    if e :| e in Contents(t) && e.key == key {
      assert e == Binding(key, e.val);
    }
  }

  lemma {:induction false} ApplyIsBagStep(t: Table, hash: HashFn, op: Op)
    requires WellHashed(t, hash)
    ensures WellHashed(Apply(t, hash, op), hash)
    ensures BagStep(Contents(t), op, Contents(Apply(t, hash, op)))
  {
    match op {
      case Add(key, val) =>
        AddedContents(t, hash, Binding(key, val));
      case Update(key, val) =>
        UpdatedContents(t, hash, key, val);
        FindIffBound(t, hash, key);
        UnboundMeans(t, key);
      case Remove(key) =>
        RemovedWellHashed(t, hash, key);
        RemovedContents(t, hash, key);
        FindIffBound(t, hash, key);
        UnboundMeans(t, key);
      case Clear =>
        EmptyContents(|t|);
    }
  }

  /** `bags` is a history of the multiset machine for these operations, starting from `m`. */
  ghost predicate BagRun(m: multiset<Binding>, ops: seq<Op>, bags: seq<multiset<Binding>>) {
    && |bags| == |ops| + 1 && bags[0] == m
    && forall i :: 0 <= i < |ops| ==> BagStep(bags[i], ops[i], bags[i + 1])
  }

  /** The bags a run goes through. */
  function Bags(t: Table, hash: HashFn, ops: seq<Op>): (r: seq<multiset<Binding>>)
    requires |t| > 0
    ensures |r| == |ops| + 1 && r[0] == Contents(t)
    decreases |ops|
  {
    if ops == [] then [Contents(t)] else [Contents(t)] + Bags(Apply(t, hash, ops[0]), hash, ops[1..])
  }

  /** Every run of the table is a run of the multiset machine, and search stays exact throughout. */
  lemma {:induction false} RunRefinesBag(t: Table, hash: HashFn, ops: seq<Op>, key: Key)
    requires WellHashed(t, hash)
    ensures BagRun(Contents(t), ops, Bags(t, hash, ops))
    ensures Bags(t, hash, ops)[|ops|] == Contents(Run(t, hash, ops))
    ensures Holds(Run(t, hash, ops), hash, key) <==> Bound(Run(t, hash, ops), key)
    decreases |ops|
  {
    if ops == [] {
      FindIffBound(t, hash, key);
    } else {
      ApplyIsBagStep(t, hash, ops[0]);
      RunRefinesBag(Apply(t, hash, ops[0]), hash, ops[1..], key);
      BagRunCons(Contents(t), ops, Bags(Apply(t, hash, ops[0]), hash, ops[1..]));
    }
  }

  lemma {:induction false} BagRunCons(m: multiset<Binding>, ops: seq<Op>, rest: seq<multiset<Binding>>)
    requires ops != [] && rest != [] && BagRun(rest[0], ops[1..], rest) && BagStep(m, ops[0], rest[0])
    ensures BagRun(m, ops, [m] + rest)
  {
    var bags := [m] + rest;
    forall i | 0 <= i < |ops| ensures BagStep(bags[i], ops[i], bags[i + 1]) {
      if i > 0 {
        assert bags[i] == rest[i - 1] && bags[i + 1] == rest[i] && ops[i] == ops[1..][i - 1];
      }
    }
  }

  // ---- Runs as maps ----

  lemma {:induction false} ApplyIsMap(t: Table, hash: HashFn, f: map<Key, int>, op: Op)
    requires WellHashed(t, hash) && IsMap(t, f) && (op.Add? ==> op.key !in f)
    ensures WellHashed(Apply(t, hash, op), hash) && IsMap(Apply(t, hash, op), ApplyMap(f, op))
  {
    match op {
      case Add(key, val) =>
        AddedContents(t, hash, Binding(key, val));
        GraphAdd(Contents(t), f, key, val);
      case Update(key, val) =>
        UpdatedContents(t, hash, key, val);
        MapLookup(t, hash, f, key);
        if key in f {
          GraphReplace(Contents(t), f, key, val);
        }
      case Remove(key) =>
        RemovedWellHashed(t, hash, key);
        RemovedContents(t, hash, key);
        MapLookup(t, hash, f, key);
        if key in f {
          GraphRemove(Contents(t), f, key);
        } else {
          assert f - {key} == f;
        }
      case Clear =>
        EmptyContents(|t|);
    }
  }

  /** Over any run that adds only unbound keys, the table is the map the same run builds. */
  lemma {:induction false} RunIsMap(t: Table, hash: HashFn, f: map<Key, int>, ops: seq<Op>)
    requires WellHashed(t, hash) && IsMap(t, f) && AddsFresh(f, ops)
    ensures WellHashed(Run(t, hash, ops), hash) && IsMap(Run(t, hash, ops), RunMap(f, ops))
    decreases |ops|
  {
    if ops != [] {
      ApplyIsMap(t, hash, f, ops[0]);
      RunIsMap(Apply(t, hash, ops[0]), hash, ApplyMap(f, ops[0]), ops[1..]);
    }
  }

  // ---- The linked structure ----

  /** One link of a chain; `home` is the bucket it was made for. */
  class Node {
    var id: Key
    var val: int
    var next: Node?
    ghost const home: nat

    constructor (ghost home: nat, id: Key, val: int, next: Node?)
      ensures this.home == home && this.id == id && this.val == val && this.next == next
    {
      this.home := home;
      this.id, this.val, this.next := id, val, next;
    }
  }

  /** `chain` is the list of nodes reached from `head`, and `b` the bindings they carry. */
  ghost predicate Linked(head: Node, chain: seq<Node>, b: Bucket, home: nat)
    reads head, chain
  {
    && head.home == home
    && |chain| == |b|
    && (chain == [] <==> head.val == -1)
    && (chain != [] ==> chain[0] == head)
    && (forall i :: 0 <= i < |chain| ==> NodeIs(chain[i], b[i], Succ(chain, i), home))
    && Distinct(chain)
  }

  ghost predicate Distinct(chain: seq<Node>) {
    forall i, j :: 0 <= i < j < |chain| ==> chain[i] != chain[j]
  }

  lemma {:induction false} DistinctCut(chain: seq<Node>, i: nat)
    requires Distinct(chain) && i < |chain|
    ensures Distinct(chain[..i] + chain[i + 1..])
  {
  }

  ghost predicate NodeIs(n: Node, e: Binding, succ: Node?, home: nat)
    reads n
  {
    n.home == home && e == Binding(n.id, n.val) && n.next == succ
  }

  ghost function Succ(chain: seq<Node>, i: nat): Node? {
    if i + 1 < |chain| then chain[i + 1] else null
  }

  /** The loop shared by search, update and remove: walk the chain up to the first node with this key. */
  method FindNode(head: Node, key: Key, ghost chain: seq<Node>, ghost b: Bucket, ghost home: nat)
    returns (prev: Node?, h: Node?, ghost i: nat)
    requires Linked(head, chain, b, home) && chain != []
    ensures i == Find(b, key)
    ensures if i < |chain| then h == chain[i] else h == null
    ensures if i == 0 then prev == null else prev == chain[i - 1]
    ensures (h != null ==> h.home == home) && (prev != null ==> prev.home == home)
  {
    prev, h, i := null, head, 0;
    while h != null
      invariant i <= |chain| && (if i < |chain| then h == chain[i] else h == null)
      invariant if i == 0 then prev == null else prev == chain[i - 1] && prev.home == home
      invariant forall j :: 0 <= j < i ==> b[j].key != key
      decreases |chain| - i
    {
      assert NodeIs(chain[i], b[i], Succ(chain, i), home);
      if h.id == key {
        return;
      }
      prev, h, i := h, h.next, i + 1;
    }
  }

  method ChainAdd(head: Node, key: Key, val: int, ghost chain: seq<Node>, ghost b: Bucket, ghost home: nat)
    returns (ghost chain': seq<Node>)
    requires Linked(head, chain, b, home)
    modifies head
    ensures Linked(head, chain', Shown(AddTo(b, Binding(key, val))), home)
    ensures forall n :: n in chain' ==> n in chain || n == head || fresh(n)
  {
    if head.val == -1 {
      head.next := null;
      head.id := key;
      head.val := val;
      chain' := if val == -1 then [] else [head];
    } else {
      chain' := ChainAddBehind(head, key, val, chain, b, home);
    }
  }

  method ChainAddBehind(head: Node, key: Key, val: int, ghost chain: seq<Node>, ghost b: Bucket, ghost home: nat)
    returns (ghost chain': seq<Node>)
    requires Linked(head, chain, b, home) && chain != []
    modifies head
    ensures Linked(head, chain', AddTo(b, Binding(key, val)), home) && b[0].val != -1
    ensures forall n :: n in chain' ==> n in chain || fresh(n)
  {
    assert NodeIs(chain[0], b[0], Succ(chain, 0), home);
    var newh := new Node(home, key, val, head.next);
    head.next := newh;
    chain' := [head, newh] + chain[1..];
    ghost var b' := AddTo(b, Binding(key, val));
    assert chain'[1] == newh && Succ(chain', 1) == Succ(chain, 0);
    forall i | 2 <= i < |chain'| ensures NodeIs(chain'[i], b'[i], Succ(chain', i), home) {
      assert chain'[i] == chain[i - 1] && b'[i] == b[i - 1] && Succ(chain', i) == Succ(chain, i - 1);
      assert old(NodeIs(chain[i - 1], b[i - 1], Succ(chain, i - 1), home));
    }
    DistinctAdd(chain, newh);
  }

  lemma {:induction false} DistinctAdd(chain: seq<Node>, n: Node)
    requires Distinct(chain) && chain != [] && n !in chain
    ensures Distinct([chain[0], n] + chain[1..])
  {
    var r := [chain[0], n] + chain[1..];
    forall i, j | 0 <= i < j < |r| ensures r[i] != r[j] {
      assert i > 1 ==> r[i] == chain[i - 1];
      assert j > 1 ==> r[j] == chain[j - 1];
    }
  }

  /** The node found gets another value. */
  method ChainAssign(head: Node, h: Node, val: int, ghost i: nat, ghost chain: seq<Node>, ghost b: Bucket,
                     ghost home: nat)
    returns (ghost chain': seq<Node>)
    requires Linked(head, chain, b, home) && i < |chain| && h == chain[i]
    modifies h
    ensures Linked(head, chain', Shown(b[i := Binding(b[i].key, val)]), home)
    ensures forall n :: n in chain' ==> n in chain
  {
    assert NodeIs(chain[0], b[0], Succ(chain, 0), home);
    ghost var b' := b[i := Binding(b[i].key, val)];
    h.val := val;
    chain' := if i == 0 && val == -1 then [] else chain;
    forall j | 0 <= j < |chain| ensures NodeIs(chain[j], b'[j], Succ(chain, j), home) {
      assert old(NodeIs(chain[j], b[j], Succ(chain, j), home));
      assert j != i ==> chain[j] != chain[i];
    }
  }

  /** The first node is part of the array, so instead of being unlinked it takes over its successor's contents. */
  method ChainRemoveHead(head: Node, ghost chain: seq<Node>, ghost b: Bucket, ghost home: nat)
    returns (ghost chain': seq<Node>)
    requires Linked(head, chain, b, home) && chain != []
    modifies head
    ensures Linked(head, chain', Shown(b[1..]), home)
    ensures forall n :: n in chain' ==> n in chain
  {
    var h1 := head.next;
    assert NodeIs(chain[0], b[0], Succ(chain, 0), home);
    if h1 == null {
      head.val := -1;
      chain' := [];
    } else {
      assert NodeIs(chain[1], b[1], Succ(chain, 1), home);
      head.val := h1.val;
      head.next := h1.next;
      head.id := h1.id;
      if head.val == -1 {
        chain' := [];
        return;
      }
      chain' := [head] + chain[2..];
      assert Succ(chain', 0) == Succ(chain, 1);
      forall i | 1 <= i < |chain'| ensures NodeIs(chain'[i], b[1..][i], Succ(chain', i), home) {
        assert chain'[i] == chain[i + 1] && Succ(chain', i) == Succ(chain, i + 1);
        assert old(NodeIs(chain[i + 1], b[i + 1], Succ(chain, i + 1), home));
      }
    }
  }

  method ChainUnlink(head: Node, prev: Node, h: Node, ghost i: nat, ghost chain: seq<Node>, ghost b: Bucket,
                     ghost home: nat)
    returns (ghost chain': seq<Node>)
    requires Linked(head, chain, b, home) && 0 < i < |chain| && h == chain[i] && prev == chain[i - 1]
    modifies prev
    ensures Linked(head, chain', Without(b, i), home) && Without(b, i)[0] == b[0] && b[0].val != -1
    ensures forall n :: n in chain' ==> n in chain
  {
    assert NodeIs(chain[i], b[i], Succ(chain, i), home) && NodeIs(chain[0], b[0], Succ(chain, 0), home);
    prev.next := h.next;
    chain' := chain[..i] + chain[i + 1..];
    DistinctCut(chain, i);
    ghost var b' := Without(b, i);
    forall j | 0 <= j < |chain'| ensures NodeIs(chain'[j], b'[j], Succ(chain', j), home) {
      SuccCut(chain, i, j);
      ghost var o := CutIndex(i, j);
      assert old(NodeIs(chain[o], b[o], Succ(chain, o), home)) && b'[j] == b[o];
      assert o != i - 1 ==> chain[o] != prev;
    }
  }

  /** Where element `j` was before element `i` was taken out. */
  ghost function CutIndex(i: nat, j: nat): nat {
    if j < i then j else j + 1
  }

  lemma {:induction false} SuccCut(chain: seq<Node>, i: nat, j: nat)
    requires 0 < i < |chain| && j < |chain| - 1
    ensures var chain' := chain[..i] + chain[i + 1..];
            && chain'[j] == chain[CutIndex(i, j)]
            && Succ(chain', j) == if j == i - 1 then Succ(chain, i) else Succ(chain, CutIndex(i, j))
  {
  }

  /** The node found is taken out, as the head or from behind it. */
  method ChainRemove(head: Node, prev: Node?, h: Node, ghost i: nat, ghost chain: seq<Node>, ghost b: Bucket,
                     ghost home: nat)
    returns (ghost chain': seq<Node>)
    requires Linked(head, chain, b, home) && i < |chain| && h == chain[i]
    requires if i == 0 then prev == null else prev == chain[i - 1]
    modifies head, if prev == null then {} else {prev}
    ensures Linked(head, chain', Shown(Without(b, i)), home)
    ensures forall n :: n in chain' ==> n in chain
  {
    if h == head {
      chain' := ChainRemoveHead(head, chain, b, home);
      assert Without(b, 0) == b[1..];
    } else {
      chain' := ChainUnlink(head, prev, h, i, chain, b, home);
    }
  }

  /** A bucket whose head and chain are among the nodes of the table. */
  ghost predicate InPlace(head: Node, chain: seq<Node>, b: Bucket, home: nat, nodes: set<Node>)
    reads nodes
  {
    head in nodes && (forall n :: n in chain ==> n in nodes) && Linked(head, chain, b, home)
  }

  /** The chains clear leaves alone. */
  ghost function LeftChains(t: Table, chains: seq<seq<Node>>): (r: seq<seq<Node>>)
    requires |t| == |chains|
    ensures |r| == |t| && forall k :: 0 <= k < |t| ==> r[k] == if Looked(t[k]) then [] else chains[k]
  {
    seq(|t|, k requires 0 <= k < |t| => if Looked(t[k]) then [] else chains[k])
  }

  class Hashtbl {
    const capacity: nat
    const fn: HashFn
    const start: array<Node>
    ghost var chains: seq<seq<Node>>
    ghost var nodes: set<Node>
    ghost var table: Table

    ghost predicate Valid()
      reads this, start, nodes
    {
      && start.Length == |chains| == |table| == capacity > 0
      && (forall k :: 0 <= k < capacity ==> InPlace(start[k], chains[k], table[k], k, nodes))
      && WellHashed(table, fn)
    }

    /** Valid but for the links of bucket `k`. */
    ghost predicate ValidExcept(k: nat)
      reads this, start, nodes
    {
      && start.Length == |chains| == |table| == capacity > 0 && k < capacity
      && (forall j :: 0 <= j < capacity && j != k ==> InPlace(start[j], chains[j], table[j], j, nodes))
    }

    /** Changing nodes of bucket `k` leaves the other buckets alone. */
    twostate lemma OthersKept(k: nat)
      requires old(Valid()) && k < capacity && unchanged(this) && unchanged(start)
      requires forall n :: n in old(nodes) && n.home != k ==> unchanged(n)
      ensures ValidExcept(k)
    {
      forall j | 0 <= j < capacity && j != k ensures InPlace(start[j], chains[j], table[j], j, nodes) {
        assert old(InPlace(start[j], chains[j], table[j], j, nodes));
        forall i | 0 <= i < |chains[j]| ensures NodeIs(chains[j][i], table[j][i], Succ(chains[j], i), j) {
          assert old(NodeIs(chains[j][i], table[j][i], Succ(chains[j], i), j));
        }
      }
    }

    /** After bucket `k` has been changed in place, the bookkeeping for it makes the table valid again. */
    ghost method Record(k: nat, chain: seq<Node>, b: Bucket)
      requires ValidExcept(k) && start[k] in nodes
      requires Linked(start[k], chain, b, k)
      requires WellHashed(table[k := b], fn)
      modifies this
      ensures Valid() && table == old(table)[k := b]
      ensures nodes == old(nodes) + set n | n in chain
    {
      ghost var before := nodes;
      nodes := nodes + set n | n in chain;
      chains := chains[k := chain];
      table := table[k := b];
      forall j | 0 <= j < capacity ensures InPlace(start[j], chains[j], table[j], j, nodes) {
        assert j != k ==> InPlace(start[j], chains[j], table[j], j, before);
      }
    }

    constructor (capacity: nat, fn: HashFn)
      requires capacity > 0
      ensures Valid() && table == Empty(capacity) && this.fn == fn && this.capacity == capacity
      ensures fresh(start) && fresh(nodes)
    {
      this.capacity, this.fn := capacity, fn;
      var first := new Node(0, [], -1, null);
      var s := new Node[capacity](_ => first);
      ghost var ns: set<Node> := {};
      for k := 0 to capacity
        invariant fresh(s) && fresh(ns)
        invariant forall j :: 0 <= j < k ==> s[j] in ns && s[j].home == j && s[j].val == -1
      {
        s[k] := new Node(k, [], -1, null);
        ns := ns + {s[k]};
      }
      start := s;
      chains := seq(capacity, _ => []);
      nodes := ns;
      table := Empty(capacity);
    }

    method Search(key: Key) returns (found: bool, val: int)
      requires Valid()
      ensures found <==> Bound(table, key)
      ensures found ==> Holds(table, fn, key) && val == Lookup(table, fn, key).val
    {
      FindIffBound(table, fn, key);
      var k := fn(key) % capacity;
      if start[k].val == -1 {
        return false, 0;
      }
      var prev, h, i := FindNode(start[k], key, chains[k], table[k], k);
      if h == null {
        return false, 0;
      }
      assert NodeIs(chains[k][i], table[k][i], Succ(chains[k], i), k);
      return true, h.val;
    }

    method Add(key: Key, val: int)
      requires Valid()
      modifies this, nodes
      ensures Valid() && fresh(nodes - old(nodes))
      ensures table == Performed(old(table), fn, Op.Add(key, val))
    {
      var k := fn(key) % capacity;
      PerformedAdd(table, fn, key, val);
      HeadShown(k);
      ghost var chain := ChainAdd(start[k], key, val, chains[k], table[k], k);
      OthersKept(k);
      Record(k, chain, Shown(AddTo(table[k], Binding(key, val))));
    }

    method Update(key: Key, val: int) returns (found: bool)
      requires Valid()
      modifies this, nodes
      ensures Valid() && nodes == old(nodes)
      ensures found <==> Bound(old(table), key)
      ensures table == Performed(old(table), fn, Op.Update(key, val))
    {
      var k := fn(key) % capacity;
      HeadShown(k);
      PerformedUpdate(table, fn, key, val);
      if start[k].val == -1 {
        return false;
      }
      var prev, h, i := FindNode(start[k], key, chains[k], table[k], k);
      if h == null {
        return false;
      }
      AssignIn(k, h, key, val, i);
      return true;
    }

    /** Gives node `h` of bucket `k` another value. */
    method AssignIn(k: nat, h: Node, ghost key: Key, val: int, ghost i: nat)
      requires Valid() && k < capacity && i < |chains[k]| == |table[k]| && h == chains[k][i] && table[k][i].key == key
      requires h.home == k
      requires WellHashed(table[k := Shown(table[k][i := Binding(key, val)])], fn)
      modifies this, nodes
      ensures Valid() && nodes == old(nodes) && table == old(table)[k := Shown(old(table)[k][i := Binding(key, val)])]
    {
      assert InPlace(start[k], chains[k], table[k], k, nodes);
      ghost var chain := ChainAssign(start[k], h, val, i, chains[k], table[k], k);
      OthersKept(k);
      Record(k, chain, Shown(table[k][i := Binding(key, val)]));
    }

    method Remove(key: Key) returns (found: bool)
      requires Valid()
      modifies this, nodes
      ensures Valid() && nodes == old(nodes)
      ensures found <==> Bound(old(table), key)
      ensures table == Performed(old(table), fn, Op.Remove(key))
    {
      var k := fn(key) % capacity;
      HeadShown(k);
      PerformedRemove(table, fn, key);
      if start[k].val == -1 {
        return false;
      }
      var prev, h, i := FindNode(start[k], key, chains[k], table[k], k);
      if h == null {
        return false;
      }
      RemoveFrom(k, prev, h, i);
      return true;
    }

    /** The links of bucket `k` without node `h`; the other buckets stay. */
    method UnlinkFrom(k: nat, prev: Node?, h: Node, ghost i: nat) returns (ghost chain: seq<Node>)
      requires Valid() && k < capacity && i < |chains[k]| && h == chains[k][i]
      requires if i == 0 then prev == null else prev == chains[k][i - 1] && prev.home == k
      requires |chains[k]| == |table[k]| && start[k] in nodes && start[k].home == k
      modifies nodes
      ensures ValidExcept(k) && Linked(start[k], chain, Shown(Without(table[k], i)), k)
      ensures forall n :: n in chain ==> n in nodes
    {
      assert InPlace(start[k], chains[k], table[k], k, nodes);
      chain := ChainRemove(start[k], prev, h, i, chains[k], table[k], k);
      OthersKept(k);
    }

    /** Takes node `h` out of bucket `k`. */
    method RemoveFrom(k: nat, prev: Node?, h: Node, ghost i: nat)
      requires Valid() && k < capacity && i < |chains[k]| && h == chains[k][i]
      requires if i == 0 then prev == null else prev == chains[k][i - 1] && prev.home == k
      requires |chains[k]| == |table[k]| && start[k] in nodes && start[k].home == k
      requires WellHashed(table[k := Shown(Without(table[k], i))], fn)
      modifies this, nodes
      ensures Valid() && nodes == old(nodes) && table == old(table)[k := Shown(Without(old(table)[k], i))]
    {
      ghost var chain := UnlinkFrom(k, prev, h, i);
      Record(k, chain, Shown(Without(table[k], i)));
    }

    /** The table the array stands for meets what `LosesIff` asks for. */
    lemma {:induction false} TableShown()
      requires Valid()
      ensures WellHashed(table, fn) && AllShown(table)
    {
      forall k | 0 <= k < |table| ensures Shown(table[k]) == table[k] {
        HeadShown(k);
      }
    }

    /** The head of a bucket that is not empty has a value that shows. */
    lemma {:induction false} HeadShown(k: nat)
      requires Valid() && k < capacity
      ensures Shown(table[k]) == table[k] && start[k].home == k && start[k] in nodes
      ensures InPlace(start[k], chains[k], table[k], k, nodes)
      ensures table[k] == [] <==> start[k].val == -1
      ensures table[k] != [] ==> table[k][0].val == start[k].val
    {
      assert InPlace(start[k], chains[k], table[k], k, nodes);
      assert chains[k] != [] ==> NodeIs(chains[k][0], table[k][0], Succ(chains[k], 0), k);
    }

    /** The loop of clear: every head that is not negative becomes unassigned (the chains behind it are given back). */
    method ClearHeads()
      requires start.Length == capacity
      requires forall j :: 0 <= j < capacity ==> start[j] in nodes && start[j].home == j
      modifies nodes
      ensures forall n :: n in nodes ==> n.id == old(n.id) && n.next == old(n.next)
      ensures forall n :: n in nodes ==>
        n.val == if n.home < capacity && start[n.home] == n && old(n.val) >= 0 then -1 else old(n.val)
    {
      for k := 0 to capacity
        invariant forall n :: n in nodes ==> n.id == old(n.id) && n.next == old(n.next)
        invariant forall n :: n in nodes ==>
          n.val == if n.home < k && start[n.home] == n && old(n.val) >= 0 then -1 else old(n.val)
      {
        if start[k].val >= 0 {
          start[k].val := -1;
        }
      }
    }

    method Clear()
      requires Valid()
      modifies this, nodes
      ensures Valid() && nodes == old(nodes)
      ensures table == Performed(old(table), fn, Op.Clear)
    {
      forall j | 0 <= j < capacity ensures start[j].home == j {
        HeadShown(j);
      }
      SkippedWellHashed(table, fn);
      ClearHeads();
      forall k | 0 <= k < capacity
        ensures InPlace(start[k], LeftChains(table, chains)[k], Skipped(table)[k], k, nodes)
      {
        HeadCleared(k);
      }
      chains, table := LeftChains(table, chains), Skipped(table);
    }

    /** A bucket after its head has been cleared, or left alone because it is negative. */
    twostate lemma HeadCleared(k: nat)
      requires old(Valid()) && k < capacity && unchanged(this) && unchanged(start)
      requires forall n :: n in nodes ==> n.id == old(n.id) && n.next == old(n.next)
      requires forall n :: n in nodes ==>
        n.val == if n.home < capacity && start[n.home] == n && old(n.val) >= 0 then -1 else old(n.val)
      ensures InPlace(start[k], LeftChains(table, chains)[k], Skipped(table)[k], k, nodes)
    {
      assert old(InPlace(start[k], chains[k], table[k], k, nodes));
      assert chains[k] != [] ==> old(NodeIs(chains[k][0], table[k][0], Succ(chains[k], 0), k));
      if !Looked(table[k]) {
        forall i | 0 <= i < |chains[k]| ensures NodeIs(chains[k][i], table[k][i], Succ(chains[k], i), k) {
          assert old(NodeIs(chains[k][i], table[k][i], Succ(chains[k], i), k));
          assert chains[k][i] in nodes && (i > 0 ==> chains[k][i] != chains[k][0]);
        }
      }
    }

    /**
     * Visits the bindings of every bucket whose head is not negative, in table order, until the callback asks to
     * stop.  The callback's verdict may depend on everything it has been shown so far.
     */
    method Iterate(cb: seq<Binding> -> bool) returns (ret: int, visited: seq<Binding>)
      requires Valid()
      ensures ret == 0 || ret == -1
      ensures ret == 0 ==> visited == Flat(Visited(table)) && Quiet(cb, visited)
      ensures ret == -1 ==> visited <= Flat(Visited(table)) && Stopped(cb, visited)
    {
      visited := [];
      ghost var seen := Visited(table);
      FlatCut(seen, 0);
      for k := 0 to capacity
        invariant visited == Flat(seen[..k]) && visited <= Flat(seen) && Quiet(cb, visited)
      {
        FlatCut(seen, k);
        HeadShown(k);
        if start[k].val >= 0 {
          var stopped;
          stopped, visited := VisitChain(start[k], cb, visited, chains[k], table[k], k);
          if stopped {
            return -1, visited;
          }
        }
      }
      assert seen[..capacity] == seen;
      return 0, visited;
    }
  }

  /** The callback has let every step of this visit go on. */
  ghost predicate Quiet(cb: seq<Binding> -> bool, visited: seq<Binding>) {
    forall n :: 0 < n <= |visited| ==> !cb(visited[..n])
  }

  /** The callback has stopped the visit at its last step and not before. */
  ghost predicate Stopped(cb: seq<Binding> -> bool, visited: seq<Binding>) {
    visited != [] && cb(visited) && Quiet(cb, visited[..|visited| - 1])
  }

  lemma {:induction false} QuietStep(cb: seq<Binding> -> bool, visited: seq<Binding>, e: Binding)
    requires Quiet(cb, visited)
    ensures if cb(visited + [e]) then Stopped(cb, visited + [e]) else Quiet(cb, visited + [e])
  {
    var v := visited + [e];
    assert v[..|v| - 1] == visited && v[..|v|] == v;
    forall n | 0 < n < |v| ensures !cb(v[..n]) {
      assert v[..n] == visited[..n];
    }
  }

  /** Reading the buckets up to and including number `k` reads a prefix of the table. */
  lemma {:induction false} FlatCut(t: Table, k: nat)
    requires k < |t|
    ensures Flat(t[..k + 1]) == Flat(t[..k]) + t[k] <= Flat(t)
    ensures Flat(t[..k]) <= Flat(t)
  {
    if k == 0 {
      assert t[..1][1..] == [];
    } else {
      FlatCut(t[1..], k - 1);
      assert t[..k + 1][1..] == t[1..][..k] && t[..k][1..] == t[1..][..k - 1];
    }
  }

  /** The inner part of iterate: the head and then the nodes behind it. */
  method VisitChain(head: Node, cb: seq<Binding> -> bool, seen: seq<Binding>, ghost chain: seq<Node>, ghost b: Bucket,
                    ghost home: nat)
    returns (stopped: bool, visited: seq<Binding>)
    requires Linked(head, chain, b, home) && chain != []
    requires Quiet(cb, seen)
    ensures !stopped ==> visited == seen + b && Quiet(cb, visited)
    ensures stopped ==> visited <= seen + b && Stopped(cb, visited)
  {
    visited := seen;
    var h: Node? := head;
    ghost var i := 0;
    while h != null
      invariant 0 <= i <= |chain| && (if i < |chain| then h == chain[i] else h == null)
      invariant visited == seen + b[..i] && Quiet(cb, visited)
      decreases |chain| - i
    {
      assert NodeIs(chain[i], b[i], Succ(chain, i), home);
      QuietStep(cb, visited, b[i]);
      visited := visited + [Binding(h.id, h.val)];
      assert visited == seen + b[..i + 1];
      if cb(visited) {
        return true, visited;
      }
      h, i := h.next, i + 1;
    }
    return false, visited;
  }
}
