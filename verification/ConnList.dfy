/**
 * The list of a host's connections, newest first, with the last connection of each client type cached.
 *
 * The list holds weak pointers: a connection may expire at any moment, also in the middle of an
 * operation.  `World.Advance` is that environment step, and it runs before every test for expiry.
 */
module ConnList {

  import opened Options

  /** The client types are numbered 0 up to this. */
  const CLI_TYPE_MAX := 4

  /** Seconds between two periodic checks for closed connections. */
  const CHECK_INTERVAL := 300

  /** Which connections have ended; it only grows. */
  class World {
    var expired: set<nat>

    constructor ()
      ensures expired == {}
    {
      expired := {};
    }

    method Advance()
      modifies this
      ensures old(expired) <= expired
    {
      var more: set<nat> := *;
      expired := expired + more;
    }
  }

  /** One listed connection: the weakly held connection, the raw pointer (0 is null), and the client type. */
  class Node {
    const conn: nat
    const pconn: nat
    const cliType: nat

    constructor (conn: nat, pconn: nat, cliType: nat)
      ensures this.conn == conn && this.pconn == pconn && this.cliType == cliType % CLI_TYPE_MAX
    {
      this.conn, this.pconn, this.cliType := conn, pconn, cliType % CLI_TYPE_MAX;
    }

    /** The clean-up drops this node. */
    predicate Closed(expired: set<nat>) {
      pconn == 0 || conn in expired
    }
  }

  predicate Distinct(list: seq<Node>) {
    forall i, j :: 0 <= i < j < |list| ==> list[i] != list[j]
  }

  function Cut(list: seq<Node>, i: nat): seq<Node>
    requires i < |list|
  {
    list[..i] + list[i + 1..]
  }

  lemma {:induction false} CutFacts(list: seq<Node>, i: nat)
    requires Distinct(list) && i < |list|
    ensures Distinct(Cut(list, i)) && list[i] !in Cut(list, i)
    ensures forall n :: n in list && n != list[i] ==> n in Cut(list, i)
    ensures forall n :: n in Cut(list, i) ==> n in list
  {
    forall n | n in list && n != list[i] ensures n in Cut(list, i) {
      var j :| 0 <= j < |list| && list[j] == n;
      assert Cut(list, i)[if j < i then j else j - 1] == n;
    }
  }

  /** The most recently added node of a type. */
  function Newest(list: seq<Node>, t: nat): (r: Node?)
    ensures r == null <==> forall n :: n in list ==> n.cliType != t
    ensures r != null ==> r in list && r.cliType == t
  {
    if list == [] then null else if list[0].cliType == t then list[0] else Newest(list[1..], t)
  }

  /** A cache of one node per type is in order: each entry is empty or a listed node of its type. */
  ghost predicate CacheOk(list: seq<Node>, cache: seq<Node?>) {
    |cache| == CLI_TYPE_MAX
    && forall t :: 0 <= t < CLI_TYPE_MAX ==> cache[t] == null || (cache[t] in list && cache[t].cliType == t)
  }

  /** The first listed node of a type that is not closed. */
  ghost predicate FirstOpen(list: seq<Node>, n: Node?, t: nat, expired: set<nat>) {
    exists i :: 0 <= i < |list| && list[i] == n && list[i].cliType == t && !list[i].Closed(expired)
                && forall j :: 0 <= j < i && list[j].cliType == t ==> list[j].Closed(expired)
  }

  class HostConnFlist {
    const maxConnPerHost: nat
    const world: World
    const plast: array<Node?>
    var listconn: seq<Node>
    var nconns: int
    var lastCheck: int

    ghost predicate Valid()
      reads this, plast
    {
      && nconns == |listconn| <= maxConnPerHost + 1
      && Distinct(listconn)
      && (forall n :: n in listconn ==> n.cliType < CLI_TYPE_MAX)
      && plast.Length == CLI_TYPE_MAX && CacheOk(listconn, plast[..])
    }

    constructor (maxConnPerHost: nat, world: World)
      ensures Valid() && fresh(plast) && listconn == [] && this.world == world && this.maxConnPerHost == maxConnPerHost
      ensures plast[..] == [null, null, null, null] && lastCheck == 0
    {
      this.maxConnPerHost, this.world := maxConnPerHost, world;
      plast := new Node?[CLI_TYPE_MAX](_ => null);
      listconn, nconns, lastCheck := [], 0, 0;
    }

    /** Takes node number `i` out of the list and, if it is cached, out of the cache. */
    method Unlink(i: nat) returns (wasCached: bool)
      requires Valid() && i < |listconn|
      modifies this`listconn, this`nconns, plast
      ensures Valid() && listconn == Cut(old(listconn), i)
      ensures wasCached <==> old(plast[listconn[i].cliType]) == old(listconn[i])
      ensures Uncached(old(listconn[i]), old(plast[..]), plast[..])
    {
      var lref := listconn[i];
      CutFacts(listconn, i);
      nconns := nconns - 1;
      wasCached := plast[lref.cliType] == lref;
      if wasCached {
        plast[lref.cliType] := null;
      }
      listconn := Cut(listconn, i);
      assert forall n :: n in old(listconn) && n != lref ==> n in listconn;
    }

    /** Removes the first connection with this pointer; only its own cache entry changes, and it is not refilled. */
    method DelConn(pconn: nat) returns (remaining: int)
      requires Valid()
      modifies this`listconn, this`nconns, plast
      ensures Valid() && remaining == nconns
      ensures (forall n :: n in old(listconn) ==> n.pconn != pconn) ==>
        listconn == old(listconn) && plast[..] == old(plast[..])
      ensures (exists n :: n in old(listconn) && n.pconn == pconn) ==>
        exists i ::
          && 0 <= i < |old(listconn)| && old(listconn)[i].pconn == pconn
          && (forall j :: 0 <= j < i ==> old(listconn)[j].pconn != pconn)
          && listconn == Cut(old(listconn), i) && Uncached(old(listconn)[i], old(plast[..]), plast[..])
    {
      var i := 0;
      while i < |listconn|
        invariant 0 <= i <= |listconn|
        invariant forall j :: 0 <= j < i ==> listconn[j].pconn != pconn
      {
        if listconn[i].pconn == pconn {
          var cached := Unlink(i);
          assert old(listconn)[i].pconn == pconn && listconn == Cut(old(listconn), i);
          assert Uncached(old(listconn)[i], old(plast[..]), plast[..]);
          return nconns;
        }
        i := i + 1;
      }
      return nconns;
    }

    /** The second loop of the clean-up: empty cache entries get the newest listed node of their type. */
    method Refill()
      requires Valid()
      modifies plast
      ensures Valid()
      ensures forall t :: 0 <= t < CLI_TYPE_MAX ==>
        plast[t] == if old(plast[t]) == null then Newest(listconn, t) else old(plast[t])
    {
      for k := 0 to |listconn|
        invariant CacheOk(listconn, plast[..])
        invariant forall t :: 0 <= t < CLI_TYPE_MAX ==>
          (if old(plast[t]) != null then plast[t] == old(plast[t])
           else if plast[t] != null then plast[t] == Newest(listconn, t)
           else Newest(listconn, t) == Newest(listconn[k..], t))
      {
        var lref := listconn[k];
        assert listconn[k..][0] == lref && listconn[k..][1..] == listconn[k + 1..];
        if plast[lref.cliType] == null {
          plast[lref.cliType] := lref;
        }
      }
      assert listconn[|listconn|..] == [];
    }

    /**
     * Drops the first closed connection it meets, at most one a call.  If it was cached, its type is
     * pointed at the newest connection of that type that is left.
     */
    method ClearClosed(tcurr: int) returns (nrem: nat)
      requires Valid()
      modifies this`listconn, this`nconns, this`lastCheck, plast, world
      ensures Valid() && old(world.expired) <= world.expired && lastCheck == tcurr
      ensures nrem == 0 ==>
        && listconn == old(listconn) && plast[..] == old(plast[..])
        && forall n :: n in listconn ==> !n.Closed(old(world.expired))
      ensures nrem > 0 ==>
        nrem == 1 && exists i ::
          && 0 <= i < |old(listconn)| && old(listconn)[i].Closed(world.expired)
          && (forall j :: 0 <= j < i ==> !old(listconn)[j].Closed(old(world.expired)))
          && Dropped(old(listconn), old(plast[..]), listconn, plast[..], i)
    {
      nrem := 0;
      lastCheck := tcurr;
      var i := 0;
      while i < |listconn|
        invariant 0 <= i <= |listconn| && old(world.expired) <= world.expired
        invariant Valid() && listconn == old(listconn) && plast[..] == old(plast[..]) && lastCheck == tcurr
        invariant forall j :: 0 <= j < i ==> !listconn[j].Closed(old(world.expired))
      {
        world.Advance();
        if listconn[i].Closed(world.expired) {
          var lref := listconn[i];
          var cached := Unlink(i);
          assert cached <==> lref in old(plast[..]);
          if cached {
            Refill();
          }
          assert Dropped(old(listconn), old(plast[..]), listconn, plast[..], i);
          return 1;
        }
        i := i + 1;
      }
    }

    /** Whether some connection of this type is available, trying the cached one first. */
    method IsCliTypeAvail(ctype: nat) returns (avail: bool)
      requires Valid() && ctype < CLI_TYPE_MAX
      modifies plast, world
      ensures Valid() && old(world.expired) <= world.expired
      ensures avail ==> exists n :: n in listconn && n.cliType == ctype && n.conn !in world.expired
      ensures !avail ==> forall n :: n in listconn && n.cliType == ctype ==> n.Closed(world.expired)
      ensures (forall n :: n in listconn ==> n.pconn != 0) ==>
        (avail <==> exists n :: n in listconn && n.cliType == ctype && n.conn !in world.expired)
      ensures forall t :: 0 <= t < CLI_TYPE_MAX && t != ctype ==> plast[t] == old(plast[t])
      ensures avail ==> plast[ctype] != null && plast[ctype].conn !in world.expired
      ensures !avail ==> plast[ctype] == old(plast[ctype])
      ensures var n := old(plast[ctype]); n != null && n.conn !in world.expired ==> avail && plast[ctype] == n
      ensures avail && plast[ctype] != old(plast[ctype]) ==> FirstOpen(listconn, plast[ctype], ctype, world.expired)
    {
      var plastNode := plast[ctype];
      world.Advance();
      if plastNode != null && plastNode.conn !in world.expired {
        return true;
      }
      for i := 0 to |listconn|
        invariant old(world.expired) <= world.expired && CacheOk(listconn, plast[..])
        invariant plast[..] == old(plast[..]) && (plastNode == null || plastNode.conn in world.expired)
        invariant forall j :: 0 <= j < i && listconn[j].cliType == ctype ==> listconn[j].Closed(world.expired)
      {
        var lref := listconn[i];
        world.Advance();
        if lref.cliType == ctype && !lref.Closed(world.expired) {
          plast[lref.cliType] := lref;
          return true;
        }
      }
      return false;
    }

    /**
     * A client that asks for the last connection of a type only when there is one.  Unless a check is due or the
     * connection found ends in between, it gets just the connection that was found.
     */
    method LastIfAvail(ctype: nat, tcurr: int) returns (avail: bool, r: Option<nat>, ghost found: Node?)
      requires Valid() && ctype < CLI_TYPE_MAX
      modifies this`listconn, this`nconns, this`lastCheck, plast, world
      ensures Valid() && (avail <==> found != null)
      ensures avail ==> found in old(listconn) && found.cliType == ctype
      ensures avail && tcurr - old(lastCheck) <= 300 && found.conn !in world.expired ==>
        r == Some(found.conn) && listconn == old(listconn) && plast[ctype] == found
      ensures !avail ==> r == None && listconn == old(listconn) && plast[..] == old(plast[..])
    {
      found, r := null, None;
      avail := IsCliTypeAvail(ctype);
      if avail {
        found := plast[ctype];
        r := GetLastConn(ctype, tcurr);
      }
    }

    /**
     * The connection the cache entry of a type leads to, if it is live.  At most one closed connection is dropped
     * on the way: none when the entry is live and no periodic check is due.
     */
    method GetLastConn(ctype: nat, tcurr: int) returns (r: Option<nat>)
      requires Valid() && ctype < CLI_TYPE_MAX
      modifies this`listconn, this`nconns, this`lastCheck, plast, world
      ensures Valid() && old(world.expired) <= world.expired
      ensures r == if plast[ctype] != null && plast[ctype].conn !in world.expired then Some(plast[ctype].conn) else None
      ensures r.Some? ==>
        r.value !in world.expired && exists n :: n in listconn && n.cliType == ctype && n.conn == r.value
      ensures var n := old(plast[ctype]); n != null && !n.Closed(world.expired) ==> r == Some(n.conn)
      ensures CleanedUp(old(listconn), old(plast[..]), listconn, plast[..], world.expired)
      ensures var n := old(plast[ctype]);
              tcurr - old(lastCheck) <= 300 && (n == null || n.conn !in world.expired) ==>
                listconn == old(listconn) && plast[..] == old(plast[..]) && lastCheck == old(lastCheck)
      ensures tcurr - old(lastCheck) > 300 ==> lastCheck == tcurr
      ensures var n := old(plast[ctype]);
              n != null && n.conn in old(world.expired) ==> lastCheck == tcurr && nconns == old(nconns) - 1
    {
      var closeChked := false;
      if tcurr - lastCheck > CHECK_INTERVAL {
        closeChked := true;
        var nrem := Clean(tcurr);
      }
      var plastNode := plast[ctype];
      if plastNode != null {
        if !closeChked {
          world.Advance();
          if plastNode.conn !in world.expired {
            return Some(plastNode.conn);
          }
          var nrem := Clean(tcurr);
          plastNode := plast[ctype];
        }
        if plastNode != null {
          world.Advance();
          if plastNode.conn !in world.expired {
            return Some(plastNode.conn);
          }
        }
      }
      return None;
    }

    /** The clean-up, and what it may have changed. */
    method Clean(tcurr: int) returns (nrem: nat)
      requires Valid()
      modifies this`listconn, this`nconns, this`lastCheck, plast, world
      ensures Valid() && old(world.expired) <= world.expired && lastCheck == tcurr
      ensures CleanedUp(old(listconn), old(plast[..]), listconn, plast[..], world.expired)
      ensures nrem == 0 <==> listconn == old(listconn)
      ensures nrem == 0 ==> plast[..] == old(plast[..]) && forall n :: n in listconn ==> !n.Closed(old(world.expired))
      ensures nrem > 0 ==> nconns == old(nconns) - 1
      ensures forall t :: 0 <= t < CLI_TYPE_MAX && old(plast[t]) != null && !old(plast[t]).Closed(world.expired) ==>
        plast[t] == old(plast[t])
    {
      nrem := ClearClosed(tcurr);
    }

    /**
     * Adds a connection at the front and caches it for its type; the other cache entries stay.  A full list must
     * first lose a closed connection, and then they are as the clean-up leaves them.
     */
    method AddConn(conn: nat, pconn: nat, cliType: nat, tcurr: int) returns (r: Option<int>)
      requires Valid()
      modifies this`listconn, this`nconns, this`lastCheck, plast, world
      ensures Valid() && old(world.expired) <= world.expired
      ensures r == None ==>
        && listconn == old(listconn) && plast[..] == old(plast[..])
        && nconns == maxConnPerHost + 1 && forall n :: n in listconn ==> !n.Closed(old(world.expired))
      ensures r.Some? ==>
        && r.value == nconns && listconn != []
        && listconn[0].conn == conn && listconn[0].pconn == pconn && listconn[0].cliType == cliType % CLI_TYPE_MAX
        && listconn[0] !in old(listconn)
        && AddedTo(old(listconn), old(plast[..]), listconn, plast[..], world.expired, old(nconns) > maxConnPerHost)
    {
      ghost var cache := plast[..];
      if nconns > maxConnPerHost {
        var nfree := Clean(tcurr);
        if nfree == 0 {
          return None;
        }
        cache := plast[..];
      }
      ghost var before := listconn;
      var lref := new Node(conn, pconn, cliType);
      listconn := [lref] + listconn;
      nconns := nconns + 1;
      plast[lref.cliType] := lref;
      assert plast[..] == cache[lref.cliType := lref];
      AddedIs(old(listconn), old(plast[..]), before, cache, lref, world.expired, old(nconns) > maxConnPerHost);
      return Some(nconns);
    }

    /** Visits the connections in order; the callback says which to drop and when to stop. */
    method WalkConnList(verdict: nat -> Verdict) returns (nwalk: nat)
      requires Valid()
      modifies this`listconn, this`nconns, plast
      ensures Valid()
      ensures listconn == Kept(old(listconn), verdict, 0) && nwalk == Visits(old(listconn), verdict, 0)
      ensures CacheKept(listconn, old(plast[..]), plast[..])
    {
      nwalk := 0;
      var it := 0;
      ghost var list0, cache0 := listconn, plast[..];
      while it < |listconn|
        invariant Valid() && Walking(list0, listconn, it, verdict, nwalk)
        invariant CacheKept(listconn, cache0, plast[..])
        decreases |listconn| - it
      {
        var cbret := verdict(nwalk);
        ghost var list, cache := listconn, plast[..];
        if cbret == Break {
          WalkStop(list0, listconn, it, verdict, nwalk);
          nwalk := nwalk + 1;
          return;
        } else if cbret == Delete || cbret == DeleteBreak {
          WalkDrop(list0, listconn, it, verdict, nwalk);
          nwalk := nwalk + 1;
          CutFacts(listconn, it);
          var cached := Unlink(it);
          CacheCut(list, it, cache0, cache, plast[..]);
          if cbret == Break {
            return;
          }
        } else {
          WalkGo(list0, listconn, it, verdict, nwalk);
          it, nwalk := it + 1, nwalk + 1;
        }
      }
      WalkEnd(list0, listconn, it, verdict, nwalk);
    }
  }

  // ---- Cache changes ----

  /** The cache after `gone` has left the list without a refill. */
  ghost predicate Uncached(gone: Node, before: seq<Node?>, after: seq<Node?>) {
    && |before| == |after| == CLI_TYPE_MAX
    && forall t :: 0 <= t < CLI_TYPE_MAX ==> after[t] == if before[t] == gone then null else before[t]
  }

  /**
   * An entry after `gone` has left the list: untouched, unless `gone` was cached, and then empty entries are refilled.
   */
  function Repoint(list: seq<Node>, gone: Node, before: seq<Node?>, t: nat): Node?
    requires t < |before|
  {
    if before[t] == gone || (before[t] == null && gone in before) then Newest(list, t) else before[t]
  }

  ghost predicate Repointed(list: seq<Node>, gone: Node, before: seq<Node?>, after: seq<Node?>) {
    && |before| == |after| == CLI_TYPE_MAX
    && forall t :: 0 <= t < CLI_TYPE_MAX ==> after[t] == Repoint(list, gone, before, t)
  }

  /** Node `i` has been dropped by the clean-up. */
  ghost predicate Dropped(list: seq<Node>, cache: seq<Node?>, list': seq<Node>, cache': seq<Node?>, i: nat)
    requires i < |list|
  {
    list' == Cut(list, i) && Repointed(list', list[i], cache, cache')
  }

  /** Nothing has changed, or one closed node has been dropped. */
  ghost predicate CleanedUp(list: seq<Node>, cache: seq<Node?>, list': seq<Node>, cache': seq<Node?>, expired: set<nat>)
  {
    || (list' == list && cache' == cache)
    || exists i: nat :: i < |list| && list[i].Closed(expired) && Dropped(list, cache, list', cache', i)
  }

  /** The first node of the list is new and cached; the rest is as it was, or as the clean-up left it. */
  ghost predicate AddedTo(list: seq<Node>, cache: seq<Node?>, list': seq<Node>, cache': seq<Node?>, expired: set<nat>,
                          full: bool)
  {
    && list' != [] && |cache| == |cache'| == CLI_TYPE_MAX
    && list'[0].cliType < CLI_TYPE_MAX && cache'[list'[0].cliType] == list'[0]
    && if full then exists i: nat :: i < |list| && list[i].Closed(expired) && AddedAfter(list, cache, list', cache', i)
       else list'[1..] == list && forall t :: 0 <= t < CLI_TYPE_MAX && t != list'[0].cliType ==> cache'[t] == cache[t]
  }

  ghost predicate AddedAfter(list: seq<Node>, cache: seq<Node?>, list': seq<Node>, cache': seq<Node?>, i: nat)
    requires i < |list| && list' != [] && |cache| == |cache'| == CLI_TYPE_MAX
  {
    && list'[1..] == Cut(list, i)
    && forall t :: 0 <= t < CLI_TYPE_MAX && t != list'[0].cliType ==>
         cache'[t] == Repoint(Cut(list, i), list[i], cache, t)
  }

  lemma {:induction false} AddedIs(list: seq<Node>, cache: seq<Node?>, mid: seq<Node>, c: seq<Node?>, lref: Node,
                                   expired: set<nat>, full: bool)
    requires |cache| == |c| == CLI_TYPE_MAX && lref.cliType < CLI_TYPE_MAX
    requires if full then mid != list && CleanedUp(list, cache, mid, c, expired) else mid == list && c == cache
    ensures AddedTo(list, cache, [lref] + mid, c[lref.cliType := lref], expired, full)
  {
    assert ([lref] + mid)[1..] == mid;
    if full {
      var i: nat :| i < |list| && list[i].Closed(expired) && Dropped(list, cache, mid, c, i);
      assert AddedAfter(list, cache, [lref] + mid, c[lref.cliType := lref], i);
    }
  }

  // ---- Walks ----

  datatype Verdict = Go | Break | Delete | DeleteBreak

  /** The nodes left after a walk whose callback answers `verdict(i)` on its i-th visit. */
  function Kept(list: seq<Node>, verdict: nat -> Verdict, i: nat): seq<Node>
    decreases |list|
  {
    if list == [] || verdict(i) == Break then list
    else if verdict(i) == Go then [list[0]] + Kept(list[1..], verdict, i + 1)
    else Kept(list[1..], verdict, i + 1)
  }

  /** How many nodes that walk visits. */
  function Visits(list: seq<Node>, verdict: nat -> Verdict, i: nat): nat
    decreases |list|
  {
    if list == [] then 0
    else if verdict(i) == Break then 1
    else 1 + Visits(list[1..], verdict, i + 1)
  }

  /** `it` nodes of the list are kept, and the walk over the others completes it. */
  ghost predicate Walking(list0: seq<Node>, list: seq<Node>, it: nat, verdict: nat -> Verdict, n: nat) {
    && it <= |list|
    && list[..it] + Kept(list[it..], verdict, n) == Kept(list0, verdict, 0)
    && n + Visits(list[it..], verdict, n) == Visits(list0, verdict, 0)
  }

  lemma {:induction false} WalkGo(list0: seq<Node>, list: seq<Node>, it: nat, verdict: nat -> Verdict, n: nat)
    requires Walking(list0, list, it, verdict, n) && it < |list| && verdict(n) == Go
    ensures Walking(list0, list, it + 1, verdict, n + 1)
  {
    assert list[it..][1..] == list[it + 1..];
    var rest := Kept(list[it + 1..], verdict, n + 1);
    assert list[..it + 1] + rest == list[..it] + ([list[it]] + rest);
  }

  lemma {:induction false} WalkDrop(list0: seq<Node>, list: seq<Node>, it: nat, verdict: nat -> Verdict, n: nat)
    requires Walking(list0, list, it, verdict, n) && it < |list| && (verdict(n) == Delete || verdict(n) == DeleteBreak)
    ensures Walking(list0, Cut(list, it), it, verdict, n + 1)
  {
    assert list[it..][1..] == list[it + 1..];
    assert Cut(list, it)[..it] == list[..it] && Cut(list, it)[it..] == list[it + 1..];
  }

  lemma {:induction false} WalkStop(list0: seq<Node>, list: seq<Node>, it: nat, verdict: nat -> Verdict, n: nat)
    requires Walking(list0, list, it, verdict, n) && it < |list| && verdict(n) == Break
    ensures list == Kept(list0, verdict, 0) && n + 1 == Visits(list0, verdict, 0)
  {
    assert list[..it] + list[it..] == list;
  }

  lemma {:induction false} WalkEnd(list0: seq<Node>, list: seq<Node>, it: nat, verdict: nat -> Verdict, n: nat)
    requires Walking(list0, list, it, verdict, n) && it == |list|
    ensures list == Kept(list0, verdict, 0) && n == Visits(list0, verdict, 0)
  {
    assert list[it..] == [] && list[..it] + [] == list;
  }

  /** The cache entries of dropped nodes are empty, and the others as before. */
  ghost predicate CacheKept(list: seq<Node>, before: seq<Node?>, after: seq<Node?>) {
    && |before| == |after| == CLI_TYPE_MAX
    && forall t :: 0 <= t < CLI_TYPE_MAX ==> after[t] == if before[t] in list then before[t] else null
  }

  lemma {:induction false} CacheCut(list: seq<Node>, i: nat, before: seq<Node?>, mid: seq<Node?>, after: seq<Node?>)
    requires Distinct(list) && i < |list| && CacheKept(list, before, mid) && Uncached(list[i], mid, after)
    ensures CacheKept(Cut(list, i), before, after)
  {
    CutFacts(list, i);
  }

  // ---- Deleting and stopping ----

  /** What the verdicts are documented to mean: the last one deletes the node and then stops the walk. */
  function MeantKept(list: seq<Node>, verdict: nat -> Verdict, i: nat): seq<Node>
    decreases |list|
  {
    if list == [] then []
    else
      match verdict(i)
      case Break => list
      case DeleteBreak => list[1..]
      case Delete => MeantKept(list[1..], verdict, i + 1)
      case Go => [list[0]] + MeantKept(list[1..], verdict, i + 1)
  }

  function MeantVisits(list: seq<Node>, verdict: nat -> Verdict, i: nat): nat
    decreases |list|
  {
    if list == [] then 0
    else if verdict(i) == Break || verdict(i) == DeleteBreak then 1
    else 1 + MeantVisits(list[1..], verdict, i + 1)
  }

    /** The verdicts from visit `lo` up to `hi` let the walk go on. */
  predicate GoesOn(verdict: nat -> Verdict, lo: nat, hi: nat) {
    forall j :: lo <= j < hi ==> verdict(j) == Go || verdict(j) == Delete
  }

  /** The callback asks to delete and stop on a visit that the walk gets to and that is not the last possible one. */
  ghost predicate StopsEarly(n: nat, verdict: nat -> Verdict, i: nat) {
    exists k :: i <= k < i + n - 1 && verdict(k) == DeleteBreak && GoesOn(verdict, i, k)
  }

  lemma {:induction false} StopsEarlyStep(n: nat, verdict: nat -> Verdict, i: nat)
    requires n > 0
    ensures StopsEarly(n, verdict, i) <==>
      if verdict(i) == DeleteBreak then n > 1
      else (verdict(i) == Go || verdict(i) == Delete) && StopsEarly(n - 1, verdict, i + 1)
  {
    if verdict(i) == DeleteBreak && n > 1 {
      assert i <= i < i + n - 1 && verdict(i) == DeleteBreak && GoesOn(verdict, i, i);
    }
    if StopsEarly(n - 1, verdict, i + 1) && (verdict(i) == Go || verdict(i) == Delete) {
      var k :| i + 1 <= k < i + n - 1 && verdict(k) == DeleteBreak && GoesOn(verdict, i + 1, k);
      assert GoesOn(verdict, i, k);
    }
    if StopsEarly(n, verdict, i) {
      var k :| i <= k < i + n - 1 && verdict(k) == DeleteBreak && GoesOn(verdict, i, k);
      assert k == i || (i + 1 <= k < i + 1 + (n - 1) - 1 && verdict(k) == DeleteBreak && GoesOn(verdict, i + 1, k));
    }
  }

  lemma {:induction false} MeantBounds(list: seq<Node>, verdict: nat -> Verdict, i: nat)
    ensures list != [] ==> Visits(list, verdict, i) >= 1 && MeantVisits(list, verdict, i) >= 1
  {
  }

  /**
   * The walk visits as many nodes as the verdicts are documented to make it visit exactly when the callback does not
   * ask to delete and stop before the last node; and then it keeps the nodes it should.
   */
  lemma {:induction false} DeleteBreakStopsIff(list: seq<Node>, verdict: nat -> Verdict, i: nat)
    ensures Visits(list, verdict, i) == MeantVisits(list, verdict, i) <==> !StopsEarly(|list|, verdict, i)
    ensures !StopsEarly(|list|, verdict, i) ==> Kept(list, verdict, i) == MeantKept(list, verdict, i)
    decreases |list|
  {
    if list != [] {
      StopsEarlyStep(|list|, verdict, i);
      MeantBounds(list[1..], verdict, i + 1);
      DeleteBreakStopsIff(list[1..], verdict, i + 1);
    }
  }

  /** Two connections, and a callback that always asks to delete and stop: both are visited and dropped. */
  lemma {:induction false} DeleteBreakGoesOn(a: Node, b: Node)
    ensures var always: nat -> Verdict := _ => DeleteBreak;
            && Kept([a, b], always, 0) == [] && Visits([a, b], always, 0) == 2
            && MeantKept([a, b], always, 0) == [b] && MeantVisits([a, b], always, 0) == 1
  {
    var always: nat -> Verdict := _ => DeleteBreak;
    assert [a, b][1..] == [b] && [b][1..] == [];
    assert Kept([b], always, 1) == Kept([], always, 2) && Visits([b], always, 1) == 1 + Visits([], always, 2);
  }
}
