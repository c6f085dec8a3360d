/**
 * The cgroup directory tree: looking a directory up creates every missing ancestor, each linked to its
 * parent and to the depth-1 directory above it.
 *
 * The table holds one object per directory path; the root is not in it.  Expiry of objects is not modelled.
 */
module CgroupTree {

  const PATH_MAX := 512

  /** A directory object; none of its links changes after it is made. */
  class Cg {
    const path: string
    const parent: Cg?
    const top: Cg?
    const isTop: bool

    constructor (path: string, parent: Cg?, top: Cg?, isTop: bool)
      ensures this.path == path && this.parent == parent && this.top == top && this.isTop == isTop
    {
      this.path, this.parent, this.top, this.isTop := path, parent, top, isTop;
    }
  }

  // ---- Paths ----

  /** The first slash at or after `i`, or the end. */
  function NextSlash(s: string, i: nat): (j: nat)
    requires i <= |s|
    ensures i <= j <= |s| && (j < |s| ==> s[j] == '/') && forall k :: i <= k < j ==> s[k] != '/'
    decreases |s| - i
  {
    if i == |s| || s[i] == '/' then i else NextSlash(s, i + 1)
  }

  /** The last slash before `n`; 0 if there is none after the start. */
  function LastSlash(s: string, n: nat): (j: nat)
    requires n <= |s|
    ensures j <= n && (0 < j ==> j < n && s[j] == '/') && forall k :: j < k < n ==> s[k] != '/'
  {
    if n == 0 then 0 else if s[n - 1] == '/' then n - 1 else LastSlash(s, n - 1)
  }

  /** The parent directory of a path; empty for a directory under the root. */
  function Dirname(s: string): string {
    s[..LastSlash(s, |s|)]
  }

  /** The depth-1 directory of a path. */
  function Head(s: string): string {
    if s == "" then "" else s[..NextSlash(s, 1)]
  }

  predicate IsSpace(c: char) {
    c == ' ' || c == '\t' || c == '\n' || c == '\r' || c == '\U{0B}' || c == '\U{0C}'
  }

  /** The first character at or after `i` that is not a space, or the end. */
  function SkipSpaces(s: string, i: nat): (j: nat)
    requires i <= |s|
    ensures i <= j <= |s| && (j < |s| ==> !IsSpace(s[j])) && forall k :: i <= k < j ==> IsSpace(s[k])
    decreases |s| - i
  {
    if i == |s| || !IsSpace(s[i]) then i else SkipSpaces(s, i + 1)
  }

  /** Where the word from `i` on ends: at the first slash without a backslash before it. */
  function WordEnd(s: string, i: nat, prev: char): (j: nat)
    requires i <= |s|
    ensures i <= j <= |s| && (j < |s| ==> s[j] == '/')
    decreases |s| - i
  {
    if i == |s| || (s[i] == '/' && prev != '\\') then i else WordEnd(s, i + 1, s[i])
  }

  /**
   * A normalised path: it starts with a slash, no component is empty, no slash is escaped,
   * the last component is not just spaces, and it fits the buffer.
   */
  ghost predicate Normal(s: string) {
    && 1 < |s| < PATH_MAX && s[0] == '/' && s[|s| - 1] != '/'
    && (forall i :: 0 <= i < |s| - 1 && s[i + 1] == '/' ==> s[i] != '/' && s[i] != '\\')
    && exists i :: 0 <= i < |s| && !IsSpace(s[i]) && forall k :: i <= k < |s| ==> s[k] != '/'
  }

  /** A prefix of a path that ends a component. */
  ghost predicate IsCut(s: string, e: nat) {
    0 < e <= |s| && (e == |s| || s[e] == '/')
  }

  // ---- The path reader ----

  class StrRdBuf {
    const data: string
    var pos: nat

    ghost predicate Valid()
      reads this
    {
      pos <= |data|
    }

    constructor (s: string)
      ensures data == s && pos == 0 && Valid()
    {
      data, pos := s, 0;
    }

    /** The next component: leading spaces are skipped, and a slash after a backslash does not end it. */
    method GetNextWord() returns (found: bool, start: nat, len: nat)
      requires Valid()
      modifies this
      ensures Valid()
      ensures var b := SkipSpaces(data, old(pos));
              if b == |data| then !found && pos == b
              else
                var e := WordEnd(data, b, '\0');
                found && start == b && len == e - b && pos == if e < |data| then e + 1 else e
    {
      while pos < |data| && IsSpace(data[pos])
        invariant pos <= |data| && SkipSpaces(data, old(pos)) == SkipSpaces(data, pos)
      {
        pos := pos + 1;
      }
      if pos == |data| {
        return false, 0, 0;
      }
      var nrd: nat := 0;
      var prevc := '\0';
      start := pos;
      while pos < |data|
        invariant start <= pos <= |data| && nrd == pos - start
        invariant WordEnd(data, start, '\0') == WordEnd(data, pos, prevc)
      {
        var c := data[pos];
        pos, nrd := pos + 1, nrd + 1;
        if c == '/' && prevc != '\\' {
          nrd := nrd - 1;
          break;
        }
        prevc := c;
      }
      return true, start, nrd;
    }
  }

  // ---- Components of normalised paths ----

  lemma {:induction false} SlashIs(s: string, i: nat, j: nat)
    requires i <= j <= |s| && (j < |s| ==> s[j] == '/') && forall k :: i <= k < j ==> s[k] != '/'
    ensures NextSlash(s, i) == j
  {
    var n := NextSlash(s, i);
    assert n < |s| ==> s[n] == '/';
  }

  lemma {:induction false} WordEndIs(s: string, i: nat, prev: char)
    requires i <= |s| && (i < |s| && s[i] == '/' ==> prev != '\\')
    requires forall k :: i <= k < |s| - 1 && s[k + 1] == '/' ==> s[k] != '\\'
    ensures WordEnd(s, i, prev) == NextSlash(s, i)
    decreases |s| - i
  {
    if i < |s| && s[i] != '/' {
      WordEndIs(s, i + 1, s[i]);
    }
  }

  /** The component of a normalised path that starts at `pos`: it is not empty and ends at the next slash. */
  lemma {:induction false} NormalWord(s: string, pos: nat)
    requires Normal(s) && 0 < pos < |s| && s[pos - 1] == '/'
    ensures SkipSpaces(s, pos) < |s|
    ensures pos < WordEnd(s, SkipSpaces(s, pos), '\0') == NextSlash(s, pos)
  {
    var b := SkipSpaces(s, pos);
    var i :| 0 <= i < |s| && !IsSpace(s[i]) && forall k :: i <= k < |s| ==> s[k] != '/';
    assert pos <= i;
    assert s[pos - 1 + 1] != '/';
    WordEndIs(s, b, '\0');
    SlashIs(s, pos, NextSlash(s, b));
  }

  /** The parent of a prefix that ends at the next slash is the prefix up to the slash before. */
  lemma {:induction false} CutParent(s: string, at: nat, e: nat)
    requires at < e <= |s| && s[at] == '/' && forall k :: at < k < e ==> s[k] != '/'
    ensures Dirname(s[..e]) == s[..at] && LastSlash(s[..e], e) == at
  {
    var p := s[..e];
    assert p[at] == '/' && forall k :: at < k < e ==> p[k] != '/';
    assert LastSlash(p, e) == at;
    assert p[..at] == s[..at];
  }

  lemma {:induction false} CutHead(s: string, e: nat)
    requires 0 < e <= |s| && NextSlash(s, 1) <= e
    ensures Head(s[..e]) == Head(s)
  {
    var h := NextSlash(s, 1);
    SlashIs(s[..e], 1, h);
    assert s[..e][..h] == s[..h];
  }

  // ---- The links ----

  /** The object of a directory is linked to its parent's object and to its depth-1 ancestor's. */
  ghost predicate EntryOk(table: map<string, Cg>, root: Cg, k: string)
    requires k in table
  {
    var c := table[k];
    && c.path == k && k != ""
    && if LastSlash(k, |k|) == 0 then c.parent == root && c.isTop && c.top == null
       else
         && Dirname(k) in table && c.parent == table[Dirname(k)]
         && !c.isTop && Head(k) in table && c.top == table[Head(k)]
  }

  /** The table is closed under parents, and every link is right. */
  ghost predicate Linked(table: map<string, Cg>, root: Cg) {
    forall k {:trigger EntryOk(table, root, k)} :: k in table ==> EntryOk(table, root, k)
  }

  /** No object was dropped or replaced. */
  ghost predicate Keeps(before: map<string, Cg>, table: map<string, Cg>) {
    forall k :: k in before ==> k in table && table[k] == before[k]
  }

  /** Every directory above one in the table is in the table. */
  lemma {:induction false} AllAbove(table: map<string, Cg>, root: Cg, s: string, e: nat)
    requires Linked(table, root) && s in table && IsCut(s, e)
    ensures s[..e] in table
    decreases |s|
  {
    if e == |s| {
      assert s[..e] == s;
    } else {
      var j := LastSlash(s, |s|);
      assert EntryOk(table, root, s);
      assert e <= j;
      AllAbove(table, root, s[..j], e);
      assert s[..j][..e] == s[..e];
    }
  }

  // ---- The walk ----

  /** Where the components end that the reader finds from `pos` on. */
  function Ends(s: string, pos: nat): (es: seq<nat>)
    requires pos <= |s|
    ensures forall i :: 0 <= i < |es| ==> pos <= es[i] <= |s|
    ensures forall i, j :: 0 <= i < j < |es| ==> es[i] < es[j]
    decreases |s| - pos
  {
    var b := SkipSpaces(s, pos);
    if b == |s| then []
    else
      var e := WordEnd(s, b, '\0');
      if e == |s| then [e] else [e] + Ends(s, e + 1)
  }

  /** Where the reader stands after a component that ends at `e`. */
  function After(s: string, e: nat): nat {
    if e < |s| then e + 1 else e
  }

  lemma {:induction false} EndsStep(s: string, pos: nat)
    requires pos <= |s| && SkipSpaces(s, pos) < |s|
    ensures var e := WordEnd(s, SkipSpaces(s, pos), '\0');
            After(s, e) <= |s| && Ends(s, pos) == [e] + Ends(s, After(s, e)) && (e == |s| ==> Ends(s, pos) == [e])
  {
    assert Ends(s, |s|) == [];
  }

  /** The object of the component before number `i`, and of the first one. */
  ghost predicate HasObjs(table: map<string, Cg>, s: string, es: seq<nat>, i: nat) {
    && i <= |es| && (forall j :: 0 <= j < |es| ==> es[j] <= |s|)
    && (i > 0 ==> s[..es[i - 1]] in table && s[..es[0]] in table)
  }

  ghost function ObjBefore(table: map<string, Cg>, root: Cg, s: string, es: seq<nat>, i: nat): Cg
    requires HasObjs(table, s, es, i)
  {
    if i == 0 then root else table[s[..es[i - 1]]]
  }

  ghost function TopBefore(table: map<string, Cg>, s: string, es: seq<nat>, i: nat): Cg?
    requires HasObjs(table, s, es, i)
  {
    if i == 0 then null else table[s[..es[0]]]
  }

  /** The object of directory `k` was made for component `i`, hanging under the component before. */
  ghost predicate MadeAt(table: map<string, Cg>, root: Cg, s: string, es: seq<nat>, i: nat, k: string) {
    && i < |es| && HasObjs(table, s, es, i) && k == s[..es[i]] && k in table
    && var c := table[k];
       && c.path == k && c.isTop == (i == 0)
       && c.parent == ObjBefore(table, root, s, es, i) && c.top == TopBefore(table, s, es, i)
  }

  ghost predicate Made(table: map<string, Cg>, root: Cg, s: string, es: seq<nat>, j: nat, k: string) {
    exists i :: 0 <= i < j && MadeAt(table, root, s, es, i, k)
  }

  /**
   * The first `j` components have been dealt with: each has an object, and every new object was made for one of
   * them under the object of the component before.
   */
  ghost predicate Threaded(before: map<string, Cg>, table: map<string, Cg>, root: Cg, s: string, es: seq<nat>, j: nat) {
    && HasObjs(table, s, es, j) && Keeps(before, table)
    && (forall i :: 0 <= i < j ==> s[..es[i]] in table)
    && (forall k {:trigger Made(table, root, s, es, j, k)} ::
          k in table && k !in before ==> Made(table, root, s, es, j, k))
  }

  /** The table after one directory on the way: as before if it was there, otherwise with a new object for it. */
  ghost predicate Descended(table: map<string, Cg>, table': map<string, Cg>, key: string, shr: Cg, top: Cg?,
                            isTop: bool)
  {
    && key in table'
    && if key in table then table' == table
       else
         var c := table'[key];
         c.path == key && c.parent == shr && c.top == top && c.isTop == isTop && table' == table[key := c]
  }

  lemma {:induction false} MadeStays(table: map<string, Cg>, table': map<string, Cg>, root: Cg, s: string, es: seq<nat>,
                                     i: nat, k: string)
    requires MadeAt(table, root, s, es, i, k) && Keeps(table, table')
    ensures MadeAt(table', root, s, es, i, k)
  {
  }

  /** Of the objects after one more component each is an old one, or made for one of the components. */
  lemma {:induction false} MadeMore(before: map<string, Cg>, table: map<string, Cg>, table': map<string, Cg>, root: Cg,
                                    s: string, es: seq<nat>, j: nat, k: string)
    requires Threaded(before, table, root, s, es, j) && j < |es| && Keeps(table, table')
    requires Descended(table, table', s[..es[j]], ObjBefore(table, root, s, es, j), TopBefore(table, s, es, j), j == 0)
    requires k in table' && k !in before
    ensures Made(table', root, s, es, j + 1, k)
  {
    if k in table {
      assert Made(table, root, s, es, j, k);
      var i :| 0 <= i < j && MadeAt(table, root, s, es, i, k);
      MadeStays(table, table', root, s, es, i, k);
    } else {
      assert k == s[..es[j]];
      assert MadeAt(table', root, s, es, j, k);
    }
  }

  lemma {:induction false} DescendedKeeps(table: map<string, Cg>, table': map<string, Cg>, key: string, shr: Cg,
                                          top: Cg?, isTop: bool)
    requires Descended(table, table', key, shr, top, isTop)
    ensures Keeps(table, table')
  {
  }

  /** One more component, whether its object was found or made. */
  lemma {:induction false} ThreadMore(before: map<string, Cg>, table: map<string, Cg>, table': map<string, Cg>,
                                      root: Cg, s: string, es: seq<nat>, j: nat)
    requires Threaded(before, table, root, s, es, j) && j < |es|
    requires Descended(table, table', s[..es[j]], ObjBefore(table, root, s, es, j), TopBefore(table, s, es, j), j == 0)
    ensures Threaded(before, table', root, s, es, j + 1)
    ensures ObjBefore(table', root, s, es, j + 1) == table'[s[..es[j]]]
    ensures TopBefore(table', s, es, j + 1) == if j == 0 then table'[s[..es[j]]] else TopBefore(table, s, es, j)
  {
    DescendedKeeps(table, table', s[..es[j]], ObjBefore(table, root, s, es, j), TopBefore(table, s, es, j), j == 0);
    forall k {:trigger Made(table', root, s, es, j + 1, k)} | k in table' && k !in before
      ensures Made(table', root, s, es, j + 1, k)
    {
      MadeMore(before, table, table', root, s, es, j, k);
    }
  }

  /** How far the walk along the path has come: `j` components are done and the reader stands at `pos`. */
  ghost predicate Walked(before: map<string, Cg>, table: map<string, Cg>, root: Cg, s: string, es: seq<nat>, j: nat,
                         pos: nat, shr: Cg, top: Cg?, topSeen: bool)
  {
    && Threaded(before, table, root, s, es, j) && pos <= |s| && es[j..] == Ends(s, pos)
    && shr == ObjBefore(table, root, s, es, j) && top == TopBefore(table, s, es, j) && topSeen == (j > 0)
  }

  lemma {:induction false} WalkStart(table: map<string, Cg>, root: Cg, s: string)
    requires |s| > 1
    ensures Walked(table, table, root, s, Ends(s, 1), 0, 1, root, null, false)
  {
    var es := Ends(s, 1);
    assert es[0..] == es;
  }

  lemma {:induction false} WalkEnd(before: map<string, Cg>, table: map<string, Cg>, root: Cg, s: string, es: seq<nat>,
                                   j: nat, pos: nat, shr: Cg, top: Cg?, topSeen: bool)
    requires Walked(before, table, root, s, es, j, pos, shr, top, topSeen) && SkipSpaces(s, pos) == |s|
    ensures j == |es| && Walked(before, table, root, s, es, j, |s|, shr, top, topSeen)
  {
    assert Ends(s, pos) == [] == Ends(s, |s|);
    assert |es[j..]| == |es| - j;
  }

  lemma {:induction false} WalkMore(before: map<string, Cg>, table: map<string, Cg>, table': map<string, Cg>, root: Cg,
                                    s: string, es: seq<nat>, j: nat, pos: nat, e: nat, shr: Cg, top: Cg?, topSeen: bool,
                                    next: Cg, top': Cg?)
    requires Walked(before, table, root, s, es, j, pos, shr, top, topSeen)
    requires SkipSpaces(s, pos) < |s| && e == WordEnd(s, SkipSpaces(s, pos), '\0')
    requires Descended(table, table', s[..e], shr, top, !topSeen)
    requires next == table'[s[..e]] && top' == if topSeen then top else next
    ensures Walked(before, table', root, s, es, j + 1, After(s, e), next, top', true)
  {
    EndsStep(s, pos);
    assert es[j] == es[j..][0] == e && es[j + 1..] == es[j..][1..];
    ThreadMore(before, table, table', root, s, es, j);
  }

  // ---- The walk along a normalised path ----

  /** The next component after `at` ends at `e`. */
  ghost predicate NextCut(s: string, at: nat, e: nat) {
    at + 1 < e <= |s| && s[0] == '/' && s[at] == '/' && e == NextSlash(s, at + 1)
  }

  /** End number `i` is the next cut after the one before it; `at` is before the first. */
  ghost predicate CutNo(s: string, at: nat, es: seq<nat>, i: nat) {
    i < |es| && NextCut(s, if i == 0 then at else es[i - 1], es[i])
  }

  /** The ends are the cuts of the path, one after the other, up to the whole path. */
  ghost predicate AreCuts(s: string, at: nat, es: seq<nat>) {
    && es != [] && es[|es| - 1] == |s|
    && (forall i: nat {:trigger CutNo(s, at, es, i)} :: i < |es| ==> CutNo(s, at, es, i))
    && (forall e: nat :: IsCut(s, e) && e > at ==> e in es)
  }

  /** Behind the slash at `at` the reader finds the component up to the next slash, or to the end of the path. */
  ghost predicate ReadsOn(s: string, at: nat) {
    && at < |s| && NextCut(s, at, NextSlash(s, at + 1))
    && SkipSpaces(s, at + 1) < |s| && WordEnd(s, SkipSpaces(s, at + 1), '\0') == NextSlash(s, at + 1)
  }

  ghost predicate ReadsAll(s: string) {
    forall at: nat {:trigger ReadsOn(s, at)} :: at < |s| && s[at] == '/' ==> ReadsOn(s, at)
  }

  lemma {:induction false} NormalReads(s: string)
    requires Normal(s)
    ensures ReadsAll(s)
  {
    forall at: nat {:trigger ReadsOn(s, at)} | at < |s| && s[at] == '/' ensures ReadsOn(s, at) {
      assert at + 1 < |s|;
      NormalWord(s, at + 1);
    }
  }

  lemma {:induction false} EndsNext(s: string, at: nat) returns (e: nat)
    requires ReadsOn(s, at)
    ensures NextCut(s, at, e) && (e < |s| ==> s[e] == '/')
    ensures Ends(s, at + 1) == if e < |s| then [e] + Ends(s, e + 1) else [e]
  {
    e := NextSlash(s, at + 1);
    EndsStep(s, at + 1);
  }

  /** On a normalised path the reader finds the directories of the path. */
  lemma {:induction false} EndsAreCuts(s: string, at: nat)
    requires ReadsAll(s) && at < |s| && s[at] == '/'
    ensures AreCuts(s, at, Ends(s, at + 1))
    decreases |s| - at
  {
    assert ReadsOn(s, at);
    var e := EndsNext(s, at);
    if e < |s| {
      EndsAreCuts(s, e);
      CutsCons(s, at, e, Ends(s, e + 1));
    } else {
      LastCut(s, at);
    }
  }

  lemma {:induction false} LastCut(s: string, at: nat)
    requires NextCut(s, at, |s|)
    ensures AreCuts(s, at, [|s|])
  {
    assert CutNo(s, at, [|s|], 0);
  }

  lemma {:induction false} CutsCons(s: string, at: nat, e: nat, rest: seq<nat>)
    requires NextCut(s, at, e) && e < |s| && AreCuts(s, e, rest)
    ensures AreCuts(s, at, [e] + rest)
  {
    var es := [e] + rest;
    forall i: nat {:trigger CutNo(s, at, es, i)} | i < |es| ensures CutNo(s, at, es, i) {
      if i > 0 {
        assert CutNo(s, e, rest, i - 1) && es[i] == rest[i - 1];
      }
    }
    forall d: nat | IsCut(s, d) && d > at ensures d in es {
      if d != e {
        assert d > e && d in rest;
      }
    }
  }

  lemma {:induction false} HeadBefore(s: string, at: nat)
    requires 0 < at < |s| && s[at] == '/'
    ensures NextSlash(s, 1) <= at
  {
  }

  /** The object made for a component of a normalised path has the links of its directory. */
  lemma {:induction false} MadeLinked(table: map<string, Cg>, root: Cg, s: string, es: seq<nat>, i: nat, k: string)
    requires AreCuts(s, 0, es) && MadeAt(table, root, s, es, i, k)
    ensures EntryOk(table, root, k)
  {
    var at, e := if i == 0 then 0 else es[i - 1], es[i];
    assert CutNo(s, 0, es, i) && CutNo(s, 0, es, 0);
    CutParent(s, at, e);
    assert es[0] == NextSlash(s, 1);
    if i > 0 {
      assert CutNo(s, 0, es, i - 1);
      HeadBefore(s, at);
      CutHead(s, e);
    }
  }

  /** Walking a normalised path keeps all links right and adds exactly the missing directories of the path. */
  lemma {:induction false} ThreadLinked(before: map<string, Cg>, table: map<string, Cg>, root: Cg, s: string,
                                        es: seq<nat>)
    requires Linked(before, root) && AreCuts(s, 0, es) && Threaded(before, table, root, s, es, |es|)
    ensures Linked(table, root) && s in table && ObjBefore(table, root, s, es, |es|) == table[s]
    ensures WithAllAbove(s, before, table)
  {
    forall k | k in table ensures EntryOk(table, root, k) {
      if k in before {
        assert EntryOk(before, root, k);
      } else {
        assert Made(table, root, s, es, |es|, k);
        var i :| 0 <= i < |es| && MadeAt(table, root, s, es, i, k);
        MadeLinked(table, root, s, es, i, k);
      }
    }
    assert s[..es[|es| - 1]] == s;
    ThreadAdds(before, table, root, s, es);
  }

  lemma {:induction false} ThreadAdds(before: map<string, Cg>, table: map<string, Cg>, root: Cg, s: string,
                                      es: seq<nat>)
    requires AreCuts(s, 0, es) && Threaded(before, table, root, s, es, |es|)
    ensures WithAllAbove(s, before, table)
  {
    forall k ensures k in table <==> k in before || exists e: nat :: IsCut(s, e) && k == s[..e] {
      if k in table && k !in before {
        assert Made(table, root, s, es, |es|, k);
        var i :| 0 <= i < |es| && MadeAt(table, root, s, es, i, k);
        assert CutNo(s, 0, es, i) && IsCut(s, es[i]);
      }
      if e: nat :| IsCut(s, e) && k == s[..e] {
        assert e in es;
        var i :| 0 <= i < |es| && es[i] == e;
      }
    }
  }

  // ---- The tree ----

  class Tree {
    const root: Cg
    const hierarchical: bool
    var ready: bool
    var table: map<string, Cg>

    constructor (root: Cg, hierarchical: bool)
      ensures this.root == root && this.hierarchical == hierarchical && !ready && table == map[] && Valid()
    {
      this.root, this.hierarchical := root, hierarchical;
      ready, table := false, map[];
    }

    /** With a hierarchy all links are right; without one every object hangs under the root and is its own top. */
    ghost predicate Valid()
      reads this
    {
      if hierarchical then Linked(table, root) else AllFlat(table, root)
    }

    /**
     * Looks a directory up, and creates it and every missing directory above it when asked to.  For any path, the
     * components are those the reader finds in what fits the buffer; for a normalised one they are its directories.
     */
    method GetCgFromDir(dir: string, mkdir: bool) returns (r: Cg?)
      modifies this`table
      ensures Keeps(old(table), table)
      ensures !ready || dir == "" || dir[0] != '/' ==> r == null && table == old(table)
      ensures ready && dir == "/" ==> r == root && table == old(table)
      ensures ready && |dir| > 1 && dir[0] == '/' && (dir in old(table) || !mkdir) ==>
        table == old(table) && r == if dir in table then table[dir] else null
      ensures ready && |dir| > 1 && dir[0] == '/' && mkdir && !hierarchical && old(Valid()) ==>
        Valid() && dir in table && r == table[dir] && table.Keys == old(table).Keys + {dir}
      ensures ready && |dir| > 1 && dir[0] == '/' && mkdir && hierarchical && dir !in old(table) ==>
        var es := Ends(Fitting(dir), 1);
        Threaded(old(table), table, root, Fitting(dir), es, |es|) && r == ObjBefore(table, root, Fitting(dir), es, |es|)
      ensures ready && Normal(dir) && mkdir && hierarchical && old(Valid()) ==>
        Valid() && dir in table && r == table[dir] && WithAllAbove(dir, old(table), table)
    {
      if !ready || dir == "" || dir[0] != '/' {
        return null;
      }
      if dir == "/" {
        return root;
      }
      if dir in table {
        if hierarchical && old(Valid()) {
          forall e: nat | IsCut(dir, e) ensures dir[..e] in table {
            AllAbove(table, root, dir, e);
          }
        }
        return table[dir];
      }
      if !mkdir {
        return null;
      }
      if !hierarchical {
        var c := new Cg(dir, root, root, true);
        table := table[dir := c];
        return c;
      }
      r := Walk(Fitting(dir));
      if Normal(dir) && old(Valid()) {
        NormalReads(dir);
        EndsAreCuts(dir, 0);
        ThreadLinked(old(table), table, root, dir, Ends(dir, 1));
      }
    }

    /** The walk along the path, component by component. */
    method Walk(dir: string) returns (shr: Cg)
      requires |dir| > 1 && dir[0] == '/'
      modifies this`table
      ensures var es := Ends(dir, 1);
              Threaded(old(table), table, root, dir, es, |es|) && shr == ObjBefore(table, root, dir, es, |es|)
    {
      var pathstr := new StrRdBuf(dir);
      var found, start, lenword := pathstr.GetNextWord();
      shr := root;
      var top: Cg? := null;
      var topSeen := false;
      ghost var es, j := Ends(dir, 1), 0;
      WalkStart(table, root, dir);
      while found
        invariant fresh(pathstr) && pathstr.Valid() && pathstr.data == dir
        invariant Walked(old(table), table, root, dir, es, j, pathstr.pos, shr, top, topSeen) && (!found ==> j == |es|)
        decreases found, |dir| - pathstr.pos
      {
        ghost var pos := pathstr.pos;
        found, start, lenword := pathstr.GetNextWord();
        if found {
          shr, top, topSeen, j := WalkOn(dir[..start + lenword], shr, top, topSeen, old(table), dir, es, j, pos,
                                         pathstr.pos);
        } else {
          WalkEnd(old(table), table, root, dir, es, j, pos, shr, top, topSeen);
        }
      }
    }

    /** One component of the walk. */
    method WalkOn(key: string, shr: Cg, top: Cg?, topSeen: bool,
                  ghost before: map<string, Cg>, ghost dir: string, ghost es: seq<nat>, ghost j: nat,
                  ghost pos: nat, ghost pos': nat)
      returns (next: Cg, top': Cg?, topSeen': bool, ghost j': nat)
      requires Walked(before, table, root, dir, es, j, pos, shr, top, topSeen)
      requires SkipSpaces(dir, pos) < |dir| && key == dir[..WordEnd(dir, SkipSpaces(dir, pos), '\0')]
      requires pos' == After(dir, |key|)
      modifies this`table
      ensures j' == j + 1
      ensures Walked(before, table, root, dir, es, j', pos', next, top', topSeen')
    {
      ghost var t := table;
      next, top', topSeen' := Descend(key, shr, top, topSeen);
      j' := j + 1;
      WalkMore(before, t, table, root, dir, es, j, pos, |key|, shr, top, topSeen, next, top');
    }

    /** Finds or makes the object of one directory on the way. */
    method Descend(key: string, shr: Cg, top: Cg?, topSeen: bool) returns (next: Cg, top': Cg?, topSeen': bool)
      modifies this`table
      ensures Descended(old(table), table, key, shr, top, !topSeen)
      ensures next == table[key] && topSeen' && top' == if topSeen then top else next
    {
      top', topSeen' := top, topSeen;
      if key in table {
        next := table[key];
      } else {
        next := new Cg(key, shr, top, !topSeen);
        table := table[key := next];
      }
      if !topSeen' {
        topSeen', top' := true, next;
      }
    }
  }

  /** What fits the path buffer. */
  function Fitting(dir: string): (r: string)
    ensures |dir| <= 511 ==> r == dir
    ensures |dir| > 511 ==> r == dir[..511]
    ensures |dir| > 1 ==> |r| > 1 && r[0] == dir[0]
  {
    if |dir| < PATH_MAX then dir else dir[..PATH_MAX - 1]
  }

  /** Exactly the directory and those above it were added, unless they were there. */
  ghost predicate WithAllAbove(dir: string, before: map<string, Cg>, table: map<string, Cg>) {
    forall k :: k in table <==> k in before || exists e: nat :: IsCut(dir, e) && k == dir[..e]
  }

  ghost predicate AllFlat(table: map<string, Cg>, root: Cg) {
    forall k :: k in table ==> table[k].path == k && table[k].parent == root && table[k].top == root && table[k].isTop
  }
}
