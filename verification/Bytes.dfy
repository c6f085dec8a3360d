/** Bytes, and where they stand in a buffer, for every model of a buffer in this project. */
module Bytes {
  type byte = x: int | 0 <= x < 256

  /** The byte that ends a C string. */
  const NUL: byte := 0

  function Zeros(n: nat): (r: seq<byte>)
    ensures |r| == n && forall i :: 0 <= i < n ==> r[i] == 0
  {
    seq(n, _ => NUL)
  }

  /** The bytes `x` stand in `s` at `pos`. */
  ghost predicate StandsAt(s: seq<byte>, pos: nat, x: seq<byte>) {
    pos + |x| <= |s| && forall i {:trigger x[i]} :: 0 <= i < |x| ==> s[pos + i] == x[i]
  }

  lemma {:induction false} StandsSplit(s: seq<byte>, pos: nat, a: seq<byte>, b: seq<byte>)
    ensures StandsAt(s, pos, a + b) <==> StandsAt(s, pos, a) && StandsAt(s, pos + |a|, b)
  {
    var x := a + b;
    if StandsAt(s, pos, x) {
      forall i | 0 <= i < |a| ensures s[pos + i] == a[i] {
        assert x[i] == a[i];
      }
      forall i | 0 <= i < |b| ensures s[pos + |a| + i] == b[i] {
        assert x[|a| + i] == b[i];
      }
    }
    if StandsAt(s, pos, a) && StandsAt(s, pos + |a|, b) {
      forall i | 0 <= i < |x| ensures s[pos + i] == x[i] {
        assert i < |a| ==> x[i] == a[i];
        assert i >= |a| ==> x[i] == b[i - |a|];
      }
    }
  }

  lemma {:induction false} StandsParts(s: seq<byte>, pos: nat, a: seq<byte>, b: seq<byte>)
    requires StandsAt(s, pos, a + b)
    ensures StandsAt(s, pos, a) && StandsAt(s, pos + |a|, b)
  {
    StandsSplit(s, pos, a, b);
  }

  lemma {:induction false} StandsSlice(s: seq<byte>, pos: nat, x: seq<byte>)
    requires StandsAt(s, pos, x)
    ensures s[pos..pos + |x|] == x
  {
  }
}
