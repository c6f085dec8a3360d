/**
 * Base64 with optional 76-column lines (section 4 of RFC 4648, section 6.8 of RFC 2045).
 *
 * Bytes are integers from 0 to 255, so the source's shifts and masks are written as divisions and
 * remainders by powers of two, and the bitwise or of disjoint bits as a sum.
 */
module Base64 {
  import opened Bytes
  import opened Options

  const NEWLINE: byte := 10
  const EQUALS: byte := 61
  const INVALID: byte := 0x80
  const LINE := 76

  /** The encoding table: A-Z, a-z, 0-9, + and /. */
  function Digit(v: nat): byte
    requires v < 64
  {
    if v < 26 then 65 + v else if v < 52 then 71 + v else if v < 62 then v - 4 else if v == 62 then 43 else 47
  }

  predicate IsDigit(c: byte) {
    65 <= c <= 90 || 97 <= c <= 122 || 48 <= c <= 57 || c == 43 || c == 47
  }

  /** The decoding table: the value of a digit, 0 for the padding character, 0x80 for anything else. */
  function Value(c: byte): (v: byte)
    ensures v != INVALID ==> v < 64
  {
    if c == EQUALS then 0
    else if 65 <= c <= 90 then c - 65
    else if 97 <= c <= 122 then c - 71
    else if 48 <= c <= 57 then c + 4
    else if c == 43 then 62
    else if c == 47 then 63
    else INVALID
  }

  lemma {:induction false} DigitValue(c: byte)
    ensures IsDigit(c) ==> Value(c) < 64 && Digit(Value(c)) == c
    ensures Value(c) != INVALID <==> IsDigit(c) || c == EQUALS
  {
  }

  lemma {:induction false} ValueDigit(v: nat)
    requires v < 64
    ensures IsDigit(Digit(v)) && Value(Digit(v)) == v
  {
  }

  /** The 64 digits, as characters: A to Z, a to z, 0 to 9, plus and slash. */
  lemma {:induction false} Alphabet(v: nat)
    requires v < 64
    ensures Digit(v) == if v < 26 then 'A' as int + v
                        else if v < 52 then 'a' as int + (v - 26)
                        else if v < 62 then '0' as int + (v - 52)
                        else if v == 62 then '+' as int
                        else '/' as int
  {
  }

  /** Three bytes as a number. */
  function Octets(a: nat, b: nat, c: nat): nat {
    a * 65536 + b * 256 + c
  }

  /** Four characters as a number, six bits each. */
  function Sextets(q: seq<byte>): nat
    requires |q| == 4
  {
    ((Value(q[0]) * 64 + Value(q[1])) * 64 + Value(q[2])) * 64 + Value(q[3])
  }

  // ---- Encoding ----

  /** Four digits for three bytes. */
  function Quad(a: byte, b: byte, c: byte): seq<byte> {
    [Digit(a / 4), Digit(a % 4 * 16 + b / 16), Digit(b % 16 * 4 + c / 64), Digit(c % 64)]
  }

  /** The last group, of one or two bytes. */
  function Tail(src: seq<byte>): (r: seq<byte>)
    requires |src| == 1 || |src| == 2
    ensures |r| == 4
  {
    if |src| == 1 then [Digit(src[0] / 4), Digit(src[0] % 4 * 16), EQUALS, EQUALS]
    else [Digit(src[0] / 4), Digit(src[0] % 4 * 16 + src[1] / 16), Digit(src[1] % 16 * 4), EQUALS]
  }

  /** What is still to be written for `src` when the current line holds `line` characters. */
  function Rest(src: seq<byte>, line: nat, wrap: bool): seq<byte>
    decreases |src|
  {
    if |src| >= 3 then
      Quad(src[0], src[1], src[2])
        + (if line + 4 >= LINE && wrap then [NEWLINE] + Rest(src[3..], 0, wrap) else Rest(src[3..], line + 4, wrap))
    else if |src| > 0 then Tail(src) + [NEWLINE]
    else if line > 0 then [NEWLINE]
    else []
  }

  function Encoded(src: seq<byte>, wrap: bool): seq<byte> {
    Rest(src, 0, wrap)
  }

  /** What is written ends with a line end, unless there is nothing to write. */
  lemma {:induction false} EndsLine(src: seq<byte>, line: nat, wrap: bool)
    ensures var r := Rest(src, line, wrap);
            if r == [] then src == [] && line == 0 else r[|r| - 1] == '\n' as int
    decreases |src|
  {
    if |src| >= 3 {
      if line + 4 >= LINE && wrap {
        EndsLine(src[3..], 0, wrap);
      } else {
        EndsLine(src[3..], line + 4, wrap);
      }
    }
  }

  // ---- Decoding ----

  /** All characters count. */
  predicate AllValid(text: seq<byte>) {
    forall i {:trigger Value(text[i])} :: 0 <= i < |text| ==> Value(text[i]) < 64
  }

  /** The characters that count: digits and padding. */
  function Clean(text: seq<byte>): (r: seq<byte>)
    ensures |r| <= |text| && AllValid(r)
  {
    if text == [] then []
    else if Value(text[0]) != INVALID then [text[0]] + Clean(text[1..])
    else Clean(text[1..])
  }

  /** Three bytes for four characters, each shift keeping the low eight bits. */
  function Block(q: seq<byte>): (r: seq<byte>)
    requires |q| == 4 && AllValid(q)
    ensures |r| == 3
  {
    var b0: int, b1: int, b2: int, b3: int := Value(q[0]), Value(q[1]), Value(q[2]), Value(q[3]);
    [b0 * 4 + b1 / 16, b1 % 16 * 16 + b2 / 4, b2 % 4 * 64 + b3]
  }

  function BlockOf(q: seq<byte>): (r: seq<byte>)
    ensures |r| == 3
  {
    if |q| == 4 && AllValid(q) then Block(q) else [0, 0, 0]
  }

  /** What `f` makes of every four characters. */
  function Chunked(f: seq<byte> -> seq<byte>, text: seq<byte>): seq<byte>
    decreases |text|
  {
    if |text| < 4 then [] else f(text[..4]) + Chunked(f, text[4..])
  }

  function Blocks(text: seq<byte>): (r: seq<byte>)
    requires AllValid(text)
    ensures |r| == |text| / 4 * 3
  {
    ChunkedLength(BlockOf, text);
    Chunked(BlockOf, text)
  }

  lemma {:induction false} ChunkedLength(f: seq<byte> -> seq<byte>, text: seq<byte>)
    requires forall q :: |f(q)| == 3
    ensures |Chunked(f, text)| == |text| / 4 * 3
    decreases |text|
  {
    if |text| >= 4 {
      ChunkedLength(f, text[4..]);
    }
  }

  lemma {:induction false} ChunkedPrepend(f: seq<byte> -> seq<byte>, q: seq<byte>, rest: seq<byte>)
    requires |q| == 4
    ensures Chunked(f, q + rest) == f(q) + Chunked(f, rest)
  {
    assert (q + rest)[..4] == q && (q + rest)[4..] == rest;
  }

  lemma {:induction false} ChunkedAppend(f: seq<byte> -> seq<byte>, text: seq<byte>, q: seq<byte>)
    requires |text| % 4 == 0 && |q| == 4
    ensures Chunked(f, text + q) == Chunked(f, text) + f(q)
    decreases |text|
  {
    if text == [] {
      assert text + q == q + [];
      ChunkedPrepend(f, q, []);
    } else {
      ChunkedAppend(f, text[4..], q);
      assert (text + q)[..4] == text[..4] && (text + q)[4..] == text[4..] + q;
    }
  }

  /** How many bytes of the last block the padding takes away. */
  function Padding(text: seq<byte>): nat
    requires |text| >= 4
  {
    if text[|text| - 2] == EQUALS then 2 else if text[|text| - 1] == EQUALS then 1 else 0
  }

  /** What decoding gives, or nothing when the number of characters is no multiple of four. */
  function Decoded(text: seq<byte>): Option<seq<byte>> {
    var c := Clean(text);
    if c == [] then Some([])
    else if |c| % 4 != 0 then None
    else Some(Blocks(c)[..|Blocks(c)| - Padding(c)])
  }

  // ---- Decoding undoes encoding ----

  /** The encoding without its line ends. */
  function Plain(src: seq<byte>): seq<byte>
    decreases |src|
  {
    if |src| >= 3 then Quad(src[0], src[1], src[2]) + Plain(src[3..])
    else if |src| > 0 then Tail(src)
    else []
  }

  lemma {:induction false} CleanConcat(a: seq<byte>, b: seq<byte>)
    ensures Clean(a + b) == Clean(a) + Clean(b)
    decreases |a|
  {
    if a == [] {
      assert a + b == b;
    } else {
      assert (a + b)[1..] == a[1..] + b;
      CleanConcat(a[1..], b);
    }
  }

  lemma {:induction false} CleanAll(a: seq<byte>)
    requires AllValid(a)
    ensures Clean(a) == a
  {
    if a != [] {
      CleanAll(a[1..]);
      assert a == [a[0]] + a[1..];
    }
  }

  lemma {:induction false} QuadValid(a: byte, b: byte, c: byte)
    ensures AllValid(Quad(a, b, c))
  {
    var q := Quad(a, b, c);
    ValueDigit(a / 4);
    ValueDigit(a % 4 * 16 + b / 16);
    ValueDigit(b % 16 * 4 + c / 64);
    ValueDigit(c % 64);
    assert |q| == 4 && IsDigit(q[0]) && IsDigit(q[1]) && IsDigit(q[2]) && IsDigit(q[3]);
  }

  lemma {:induction false} TailValid(src: seq<byte>)
    requires |src| == 1 || |src| == 2
    ensures AllValid(Tail(src))
  {
    ValueDigit(src[0] / 4);
    if |src| == 1 {
      ValueDigit(src[0] % 4 * 16);
    } else {
      ValueDigit(src[0] % 4 * 16 + src[1] / 16);
      ValueDigit(src[1] % 16 * 4);
    }
  }

  /** Line ends do not count. */
  lemma {:induction false} CleanRest(src: seq<byte>, line: nat, wrap: bool)
    ensures Clean(Rest(src, line, wrap)) == Plain(src)
    decreases |src|
  {
    CleanNewline();
    if |src| >= 3 {
      var q := Quad(src[0], src[1], src[2]);
      QuadValid(src[0], src[1], src[2]);
      CleanAll(q);
      if line + 4 >= LINE && wrap {
        CleanRest(src[3..], 0, wrap);
        CleanConcat([NEWLINE], Rest(src[3..], 0, wrap));
        CleanConcat(q, [NEWLINE] + Rest(src[3..], 0, wrap));
      } else {
        CleanRest(src[3..], line + 4, wrap);
        CleanConcat(q, Rest(src[3..], line + 4, wrap));
      }
    } else if |src| > 0 {
      TailValid(src);
      CleanAll(Tail(src));
      CleanConcat(Tail(src), [NEWLINE]);
    }
  }

  lemma {:induction false} CleanNewline()
    ensures Clean([NEWLINE]) == []
  {
    assert [NEWLINE][1..] == [];
  }

  /** The block of four digits, from their values. */
  lemma {:induction false} DigitsBlock(v: nat, w: nat, x: nat, y: nat)
    requires v < 64 && w < 64 && x < 64 && y < 64
    ensures var q := [Digit(v), Digit(w), Digit(x), Digit(y)];
            AllValid(q) && Block(q) == [v * 4 + w / 16, w % 16 * 16 + x / 4, x % 4 * 64 + y]
  {
    ValueDigit(v);
    ValueDigit(w);
    ValueDigit(x);
    ValueDigit(y);
  }

  /** The bits of three bytes, six at a time. */
  lemma {:induction false} QuadBits(a: nat, b: nat, c: nat, v: nat, w: nat, x: nat, y: nat)
    requires a < 256 && b < 256 && c < 256
    requires v == a / 4 && w == a % 4 * 16 + b / 16 && x == b % 16 * 4 + c / 64 && y == c % 64
    ensures v < 64 && w < 64 && x < 64 && y < 64
    ensures v * 4 + w / 16 == a && w % 16 * 16 + x / 4 == b && x % 4 * 64 + y == c
  {
  }

  lemma {:induction false} BlockQuad(a: byte, b: byte, c: byte)
    ensures AllValid(Quad(a, b, c)) && Block(Quad(a, b, c)) == [a, b, c]
  {
    var v, w, x, y := a / 4, a % 4 * 16 + b / 16, b % 16 * 4 + c / 64, c % 64;
    QuadBits(a, b, c, v, w, x, y);
    DigitsBlock(v, w, x, y);
  }

  /** Four digits stand for the same 24-bit number as the three bytes. */
  lemma {:induction false} QuadNumber(a: byte, b: byte, c: byte)
    ensures Sextets(Quad(a, b, c)) == Octets(a, b, c)
  {
    ValueDigit(a / 4);
    ValueDigit(a % 4 * 16 + b / 16);
    ValueDigit(b % 16 * 4 + c / 64);
    ValueDigit(c % 64);
  }

  /** So do the digits of the last bytes, with zero bits in place of what is missing. */
  lemma {:induction false} TailNumber(src: seq<byte>)
    requires |src| == 1 || |src| == 2
    ensures Sextets(Tail(src)) == Octets(src[0], if |src| == 2 then src[1] else 0, 0)
    ensures Tail(src)[3] == '=' as int && (Tail(src)[2] == '=' as int <==> |src| == 1)
  {
    ValueDigit(src[0] / 4);
    if |src| == 1 {
      ValueDigit(src[0] % 4 * 16);
    } else {
      ValueDigit(src[0] % 4 * 16 + src[1] / 16);
      ValueDigit(src[1] % 16 * 4);
    }
  }

  /** The three bytes decoded from four characters are that number. */
  lemma {:induction false} BlockNumber(q: seq<byte>)
    requires |q| == 4 && AllValid(q)
    ensures Octets(Block(q)[0], Block(q)[1], Block(q)[2]) == Sextets(q)
  {
  }

  lemma {:induction false} BlockTail(src: seq<byte>)
    requires |src| == 1 || |src| == 2
    ensures AllValid(Tail(src)) && Block(Tail(src))[..|src|] == src
    ensures Padding(Tail(src)) == 3 - |src|
  {
    TailValid(src);
    ValueDigit(src[0] / 4);
    if |src| == 1 {
      ValueDigit(src[0] % 4 * 16);
    } else {
      ValueDigit(src[0] % 4 * 16 + src[1] / 16);
      ValueDigit(src[1] % 16 * 4);
    }
  }

  lemma {:induction false} BlocksPrepend(q: seq<byte>, rest: seq<byte>)
    requires |q| == 4 && AllValid(q) && AllValid(rest)
    ensures AllValid(q + rest) && Blocks(q + rest) == Block(q) + Blocks(rest)
    ensures |rest| >= 4 ==> Padding(q + rest) == Padding(rest)
    ensures rest == [] ==> Padding(q + rest) == Padding(q)
  {
    ChunkedPrepend(BlockOf, q, rest);
  }

  /** The blocks of an encoding are the source bytes, then as many more as the padding takes away. */
  ghost predicate Encodes(text: seq<byte>, src: seq<byte>) {
    && |text| % 4 == 0 && |text| >= 4 && AllValid(text)
    && |Blocks(text)| == |src| + Padding(text) && Blocks(text)[..|src|] == src
  }

  lemma {:induction false} EncodesPrepend(q: seq<byte>, abc: seq<byte>, rest: seq<byte>, src: seq<byte>)
    requires |q| == 4 && AllValid(q) && Block(q) == abc && Encodes(rest, src)
    ensures Encodes(q + rest, abc + src)
  {
    BlocksPrepend(q, rest);
    assert (abc + Blocks(rest))[..|abc| + |src|] == abc + Blocks(rest)[..|src|];
  }

  lemma {:induction false} EncodesOne(q: seq<byte>, src: seq<byte>)
    requires |q| == 4 && AllValid(q) && |src| <= 3 && Block(q)[..|src|] == src && Padding(q) == 3 - |src|
    ensures Encodes(q, src)
  {
    assert q + [] == q;
    BlocksPrepend(q, []);
  }

  lemma {:induction false} PlainEncodes(src: seq<byte>)
    requires src != []
    ensures Encodes(Plain(src), src)
    decreases |src|
  {
    if |src| >= 3 {
      var q, abc := Quad(src[0], src[1], src[2]), [src[0], src[1], src[2]];
      BlockQuad(src[0], src[1], src[2]);
      assert src == abc + src[3..];
      if |src| == 3 {
        LastQuad(src[0], src[1], src[2]);
        assert Plain(src) == q + [] == q;
        EncodesOne(q, src);
      } else {
        PlainEncodes(src[3..]);
        EncodesPrepend(q, abc, Plain(src[3..]), src[3..]);
      }
    } else {
      BlockTail(src);
      EncodesOne(Tail(src), src);
    }
  }

  lemma {:induction false} LastQuad(a: byte, b: byte, c: byte)
    ensures Padding(Quad(a, b, c)) == 0
  {
  }

  /** Decoding the encoder's output gives back the source, with or without line wrapping. */
  lemma {:induction false} RoundTrip(src: seq<byte>, wrap: bool)
    ensures Decoded(Encoded(src, wrap)) == Some(src)
  {
    CleanRest(src, 0, wrap);
    if src != [] {
      PlainEncodes(src);
    }
  }

  // ---- How long an encoding is ----

  /** The buffer size the encoder asks for. */
  function EncodeLen(n: nat, wrap: bool): nat {
    var olen := n * 4 / 3 + 4;
    (if wrap then olen + olen / LINE else olen) + 1
  }

  /** Line ends written for `n` bytes when the current line already holds `k` groups. */
  function LineEnds(n: nat, k: nat, wrap: bool): nat {
    if wrap then (n / 3 + k) / 19 + (if (n / 3 + k) % 19 != 0 || n % 3 != 0 then 1 else 0)
    else if n > 0 || k > 0 then 1 else 0
  }

  lemma {:induction false} LineEndsStep(n: nat, k: nat)
    requires n >= 3 && k < 19
    ensures LineEnds(n, k, true) == if k + 1 >= 19 then 1 + LineEnds(n - 3, 0, true) else LineEnds(n - 3, k + 1, true)
  {
    var g := n / 3;
    assert (n - 3) / 3 == g - 1 && (n - 3) % 3 == n % 3;
    if k == 18 {
      assert (g + 18) / 19 == (g - 1) / 19 + 1 && (g + 18) % 19 == (g - 1) % 19;
    }
  }

  /** The length of what is still to be written for `n` bytes when the current line holds `k` groups. */
  ghost function LengthLeft(n: nat, k: nat, wrap: bool): int {
    4 * ((n + 2) / 3) + LineEnds(n, k, wrap)
  }

  lemma {:induction false} LengthStep(n: nat, k: nat, wrap: bool)
    requires n >= 3 && (wrap ==> k < 19)
    ensures LengthLeft(n, k, wrap) ==
            4 + if 4 * k + 4 >= LINE && wrap then 1 + LengthLeft(n - 3, 0, wrap) else LengthLeft(n - 3, k + 1, wrap)
  {
    assert (n + 2) / 3 == (n - 3 + 2) / 3 + 1;
    if wrap {
      LineEndsStep(n, k);
    }
  }

  lemma {:induction false} RestLength(src: seq<byte>, k: nat, wrap: bool)
    requires wrap ==> k < 19
    ensures |Rest(src, 4 * k, wrap)| == LengthLeft(|src|, k, wrap)
    decreases |src|
  {
    if |src| >= 3 {
      LengthStep(|src|, k, wrap);
      if 4 * k + 4 >= LINE && wrap {
        RestLength(src[3..], 0, wrap);
      } else {
        RestLength(src[3..], k + 1, wrap);
      }
    }
  }

  /**
   * The size asked for is always enough, terminator included, and exactly when it is used up: with line
   * wrapping for lengths that leave a remainder of 1 by 3, except one in nineteen of them, where a line is
   * one group short of full; without wrapping only for those that stay within the first line.
   */
  lemma {:induction false} EncodeLenTight(src: seq<byte>, wrap: bool)
    ensures |Encoded(src, wrap)| + 1 <= EncodeLen(|src|, true)
    ensures |Encoded(src, wrap)| + 1 == EncodeLen(|src|, true) <==>
              |src| % 3 == 1 && (if wrap then |src| % 57 != 55 else |src| < 55)
  {
    RestLength(src, 0, wrap);
    EncodeLenSplit(|src|);
  }

  /** The size asked for, in groups of three bytes. */
  lemma {:induction false} EncodeLenSplit(n: nat)
    ensures var g, r := n / 3, n % 3;
            && EncodeLen(n, true) == 4 * g + r + 5 + g / 19 + (if g % 19 == 18 then 1 else 0)
            && (n + 2) / 3 == g + (if r == 0 then 0 else 1)
            && (n % 57 == 55 <==> g % 19 == 18 && r == 1)
  {
    var g, r := n / 3, n % 3;
    assert n * 4 / 3 == 4 * g + r;
    assert (4 * g + r + 4) / LINE == (g + 1) / 19;
    assert (g + 1) / 19 == g / 19 + if g % 19 == 18 then 1 else 0;
  }

  // ---- The encoder ----

  /** Nothing from `n` on has changed. */
  ghost predicate Kept(before: seq<byte>, after: seq<byte>, n: nat) {
    |before| == |after| && forall i :: n <= i < |after| ==> after[i] == before[i]
  }

  lemma {:induction false} KeptMore(a: seq<byte>, b: seq<byte>, c: seq<byte>, n: nat, n': nat)
    requires Kept(a, b, n) && Kept(b, c, n') && n <= n'
    ensures Kept(a, c, n')
  {
  }

  /** Writes a group of characters. */
  method Put(dest: array<byte>, pos: nat, q: seq<byte>)
    requires pos + |q| <= dest.Length
    modifies dest
    ensures dest[..pos + |q|] == old(dest[..pos]) + q && Kept(old(dest[..]), dest[..], pos + |q|)
  {
    forall i | 0 <= i < |q| {
      dest[pos + i] := q[i];
    }
  }

  /** `pos` characters are written and `todo` is what must follow. */
  ghost predicate Writing(out: seq<byte>, todo: seq<byte>, text: seq<byte>) {
    out + todo == text
  }

  lemma {:induction false} WritingStep(out: seq<byte>, q: seq<byte>, todo: seq<byte>, text: seq<byte>)
    requires Writing(out, q + todo, text)
    ensures Writing(out + q, todo, text)
  {
  }

  /** gy_base64_encode; nothing is returned when the destination is too small. */
  method Encode(src: seq<byte>, dest: array<byte>, maxlen: nat, wrap: bool) returns (r: Option<nat>)
    requires maxlen <= dest.Length
    modifies dest
    ensures r == None <==> maxlen < EncodeLen(|src|, true)
    ensures r.Some? ==> r.value == |Encoded(src, wrap)| < maxlen
    ensures r.Some? ==> dest[..r.value] == Encoded(src, wrap) && dest[r.value] == 0
    ensures if r.Some? then Kept(old(dest[..]), dest[..], r.value + 1) else dest[..] == old(dest[..])
  {
    if maxlen < EncodeLen(|src|, true) {
      return None;
    }
    EncodeLenTight(src, wrap);
    var n := WriteAll(src, dest, wrap);
    return Some(n);
  }

  /** One group of three bytes, with the line end that follows it when lines are wrapped and this one is full. */
  method Group(src: seq<byte>, inp: nat, line: nat, wrap: bool) returns (q: seq<byte>, line': nat)
    requires inp + 3 <= |src|
    ensures Rest(src[inp..], line, wrap) == q + Rest(src[inp + 3..], line', wrap)
  {
    assert src[inp..][3..] == src[inp + 3..];
    q := Quad(src[inp], src[inp + 1], src[inp + 2]);
    line' := line + 4;
    if line' >= LINE && wrap {
      q := q + [NEWLINE];
      line' := 0;
    }
  }

  /** The groups of three bytes, the last group and the line end, with a terminator behind. */
  method WriteAll(src: seq<byte>, dest: array<byte>, wrap: bool) returns (pos: nat)
    requires |Encoded(src, wrap)| < dest.Length
    modifies dest
    ensures pos < dest.Length && dest[..pos] == Encoded(src, wrap) && dest[pos] == NUL
    ensures Kept(old(dest[..]), dest[..], pos + 1)
  {
    pos := WriteText(src, dest, wrap);
    dest[pos] := NUL;
  }

  method WriteText(src: seq<byte>, dest: array<byte>, wrap: bool) returns (pos: nat)
    requires |Encoded(src, wrap)| < dest.Length
    modifies dest
    ensures pos < dest.Length && dest[..pos] == Encoded(src, wrap) && Kept(old(dest[..]), dest[..], pos)
  {
    ghost var text, d0 := Encoded(src, wrap), dest[..];
    var inp, line := 0, 0;
    pos := 0;
    assert src[0..] == src;
    while |src| - inp >= 3
      invariant 0 <= inp <= |src| && 0 <= line && 0 <= pos <= |text|
      invariant Writing(dest[..pos], Rest(src[inp..], line, wrap), text) && Kept(d0, dest[..], pos)
      decreases |src| - inp
    {
      var q;
      q, line := Group(src, inp, line, wrap);
      inp := inp + 3;
      pos := Emit(dest, pos, q, Rest(src[inp..], line, wrap), text, d0);
    }
    if inp < |src| {
      pos := Emit(dest, pos, Tail(src[inp..]), [NEWLINE], text, d0);
      line := line + 4;
    }
    if line > 0 {
      assert [NEWLINE] + [] == [NEWLINE];
      pos := Emit(dest, pos, [NEWLINE], [], text, d0);
    }
  }

  method Emit(dest: array<byte>, pos: nat, q: seq<byte>, ghost todo: seq<byte>, ghost text: seq<byte>,
              ghost d0: seq<byte>)
    returns (next: nat)
    requires pos <= |text| <= dest.Length && Writing(dest[..pos], q + todo, text) && Kept(d0, dest[..], pos)
    modifies dest
    ensures next == pos + |q| <= |text| && Writing(dest[..next], todo, text) && Kept(d0, dest[..], next)
  {
    ghost var d := dest[..];
    WritingStep(dest[..pos], q, todo, text);
    Put(dest, pos, q);
    next := pos + |q|;
    KeptMore(d0, d, dest[..], pos, next);
  }

  // ---- The decoder ----

  ghost predicate IsTable(dtable: seq<byte>) {
    |dtable| == 256 && forall c: byte :: dtable[c] == Value(c)
  }

  /** The decoding table, filled in from the encoding table. */
  method BuildTable() returns (table: seq<byte>)
    ensures IsTable(table)
  {
    var dtable := new byte[256](_ => INVALID);
    for i := 0 to 64
      invariant forall c: byte :: dtable[c] == if IsDigit(c) && Value(c) < i then Value(c) else INVALID
    {
      ValueDigit(i);
      dtable[Digit(i)] := i;
    }
    dtable[EQUALS] := 0;
    return dtable[..];
  }

  /** The two tables are inverse, but for the padding character. */
  lemma {:induction false} TablesInverse(table: seq<byte>)
    requires IsTable(table)
    ensures forall v: nat :: v < 64 ==> table[Digit(v)] == v
    ensures forall c: byte :: table[c] != INVALID && c != EQUALS ==> table[c] < 64 && Digit(table[c]) == c
  {
    forall v: nat | v < 64 ensures table[Digit(v)] == v {
      ValueDigit(v);
    }
    forall c: byte | table[c] != INVALID && c != EQUALS ensures table[c] < 64 && Digit(table[c]) == c {
      DigitValue(c);
    }
  }

  lemma {:induction false} CleanSnoc(text: seq<byte>, i: nat)
    requires i < |text|
    ensures Clean(text[..i + 1]) == if Value(text[i]) != INVALID then Clean(text[..i]) + [text[i]] else Clean(text[..i])
  {
    assert text[..i + 1] == text[..i] + [text[i]];
    CleanConcat(text[..i], [text[i]]);
    assert [text[i]][1..] == [];
  }

  /** The first loop: how many characters count. */
  method CountClean(src: seq<byte>, dtable: seq<byte>) returns (count: nat)
    requires IsTable(dtable)
    ensures count == |Clean(src)|
  {
    count := 0;
    for i := 0 to |src|
      invariant count == |Clean(src[..i])|
    {
      CleanSnoc(src, i);
      if dtable[src[i]] != INVALID {
        count := count + 1;
      }
    }
    assert src[..|src|] == src;
  }

  datatype DecodeResult = Length(n: nat) | Malformed | TooSmall

  /** What the second loop has read: the blocks of `done`, decoded, and `cur` of the next one. */
  ghost predicate Reading(done: seq<byte>, cur: seq<byte>, out: seq<byte>, inn: seq<byte>) {
    && |done| % 4 == 0 && AllValid(done) && out == Blocks(done)
    && |cur| < 4 && |inn| == 4 && AllValid(cur) && (forall k :: 0 <= k < |cur| ==> inn[k] == cur[k])
    && (cur == [] && done != [] ==> inn[2] == done[|done| - 2] && inn[3] == done[|done| - 1])
  }

  lemma {:induction false} BlocksAppend(text: seq<byte>, q: seq<byte>)
    requires |text| % 4 == 0 && AllValid(text) && |q| == 4 && AllValid(q)
    ensures AllValid(text + q) && Blocks(text + q) == Blocks(text) + Block(q)
  {
    ChunkedAppend(BlockOf, text, q);
  }

  /** The characters seen so far, split at the last block boundary. */
  ghost predicate Seen(seen: seq<byte>, done: seq<byte>, cur: seq<byte>, out: seq<byte>, inn: seq<byte>, count: nat) {
    seen == done + cur && count == |cur| && Reading(done, cur, out, inn)
  }

  lemma {:induction false} SeenNone(src: seq<byte>, out: seq<byte>, inn: seq<byte>)
    requires |out| == 0 && |inn| == 4
    ensures Seen(Clean(src[..0]), [], [], out, inn, 0)
  {
    assert src[..0] == [];
  }

  lemma {:induction false} SeenAll(src: seq<byte>, n: nat, done: seq<byte>, cur: seq<byte>, out: seq<byte>,
                                   inn: seq<byte>, count: nat)
    requires n == |src| && Seen(Clean(src[..n]), done, cur, out, inn, count) && Clean(src) != []
    requires |Clean(src)| % 4 == 0
    ensures out == Blocks(Clean(src))
    ensures |inn| == 4 && inn[2] == Clean(src)[|Clean(src)| - 2] && inn[3] == Clean(src)[|Clean(src)| - 1]
  {
    assert src[..n] == src;
    assert cur == [];
    assert done + cur == done;
  }

  lemma {:induction false} ReadingChar(done: seq<byte>, cur: seq<byte>, out: seq<byte>, inn: seq<byte>, c: byte)
    requires Reading(done, cur, out, inn) && Value(c) < 64 && |cur| < 3
    ensures Reading(done, cur + [c], out, inn[|cur| := c])
  {
  }

  lemma {:induction false} ReadingBlock(done: seq<byte>, cur: seq<byte>, out: seq<byte>, inn: seq<byte>, c: byte)
    requires Reading(done, cur, out, inn) && Value(c) < 64 && |cur| == 3
    ensures var q := inn[3 := c];
            q == cur + [c] && AllValid(q) && Reading(done + q, [], out + Block(q), q)
  {
    var q := inn[3 := c];
    assert q == cur + [c];
    assert AllValid(q) by {
      forall i | 0 <= i < 4 ensures Value(q[i]) < 64 {
        assert i < 3 ==> Value(cur[i]) < 64;
      }
    }
    BlocksAppend(done, q);
  }

  /** One counted character: it goes into the current block, which is decoded when it is full. */
  method Accept(c: byte, count: nat, inn: seq<byte>, dest: array<byte>, pos: nat, ghost seen: seq<byte>,
                ghost seen': seq<byte>, ghost done: seq<byte>, ghost cur: seq<byte>, ghost d0: seq<byte>)
    returns (count': nat, inn': seq<byte>, pos': nat, ghost done': seq<byte>, ghost cur': seq<byte>)
    requires Value(c) < 64 && pos <= dest.Length && Seen(seen, done, cur, dest[..pos], inn, count)
    requires seen' == seen + [c] && |seen'| / 4 * 3 <= dest.Length && Kept(d0, dest[..], pos)
    modifies dest
    ensures pos' <= dest.Length && Seen(seen', done', cur', dest[..pos'], inn', count') && Kept(d0, dest[..], pos')
  {
    ghost var d := dest[..];
    inn' := inn[count := c];
    count', pos', done', cur' := count + 1, pos, done, cur + [c];
    if count' == 4 {
      ReadingBlock(done, cur, dest[..pos], inn, c);
      RoomForBlock(done, pos, dest.Length);
      Put(dest, pos, Block(inn'));
      pos' := pos + 3;
      KeptMore(d0, d, dest[..], pos, pos');
      count', done', cur' := 0, done + inn', [];
    } else {
      ReadingChar(done, cur, dest[..pos], inn, c);
    }
  }

  lemma {:induction false} RoomForBlock(done: seq<byte>, pos: nat, n: nat)
    requires |done| % 4 == 0 && AllValid(done) && pos == |Blocks(done)| && (|done| + 4) / 4 * 3 <= n
    ensures pos + 3 <= n
  {
  }

  /** gy_base64_decode: the decoded bytes go to `dest` and their number is returned. */
  method Decode(src: seq<byte>, dest: array<byte>, maxlen: nat) returns (r: DecodeResult)
    requires maxlen <= dest.Length
    modifies dest
    ensures r == Malformed <==> Decoded(src) == None
    ensures r == TooSmall <==> Decoded(src).Some? && maxlen < |Clean(src)| / 4 * 3
    ensures r.Length? ==> Decoded(src).Some? && r.n <= maxlen && dest[..r.n] == Decoded(src).value
    ensures r == TooSmall ==> dest[..] == old(dest[..])
    ensures r == Malformed || Clean(src) == [] ==>
      dest[..] == if maxlen > 0 then old(dest[..])[0 := 0] else old(dest[..])
    ensures r.Length? && Clean(src) != [] ==> Kept(old(dest[..]), dest[..], |Clean(src)| / 4 * 3)
  {
    var dtable := BuildTable();
    var count := CountClean(src, dtable);
    if count == 0 {
      if maxlen > 0 {
        dest[0] := 0;
      }
      return Length(0);
    }
    if count % 4 != 0 {
      if maxlen > 0 {
        dest[0] := 0;
      }
      return Malformed;
    }
    var olen := count / 4 * 3;
    if maxlen < olen {
      return TooSmall;
    }
    ghost var d0 := dest[..];
    dest[0] := 0;
    ghost var d1 := dest[..];
    var pos, inn := DecodeLoop(src, dest, dtable);
    KeptMore(d0, d1, dest[..], 1, pos);
    if inn[2] == EQUALS {
      pos := pos - 2;
    } else if inn[3] == EQUALS {
      pos := pos - 1;
    }
    return Length(pos);
  }

  /** The second loop. */
  method DecodeLoop(src: seq<byte>, dest: array<byte>, dtable: seq<byte>) returns (pos: nat, inn: seq<byte>)
    requires IsTable(dtable)
    requires Clean(src) != [] && |Clean(src)| % 4 == 0 && |Clean(src)| / 4 * 3 <= dest.Length
    modifies dest
    ensures pos == |Blocks(Clean(src))| && dest[..pos] == Blocks(Clean(src)) && Kept(old(dest[..]), dest[..], pos)
    ensures |inn| == 4 && inn[2] == Clean(src)[|Clean(src)| - 2] && inn[3] == Clean(src)[|Clean(src)| - 1]
  {
    inn := [0, 0, 0, 0];
    var count: nat := 0;
    pos := 0;
    ghost var done: seq<byte>, cur: seq<byte>, d0 := [], [], dest[..];
    SeenNone(src, dest[..pos], inn);
    for i := 0 to |src|
      invariant pos <= dest.Length
      invariant Seen(Clean(src[..i]), done, cur, dest[..pos], inn, count) && Kept(d0, dest[..], pos)
    {
      var tmp := dtable[src[i]];
      CleanSnoc(src, i);
      if tmp != INVALID {
        RoomSoFar(src, i + 1, dest.Length);
        count, inn, pos, done, cur := Accept(src[i], count, inn, dest, pos, Clean(src[..i]), Clean(src[..i + 1]), done,
                                             cur, d0);
      }
    }
    SeenAll(src, |src|, done, cur, dest[..pos], inn, count);
  }

  lemma {:induction false} RoomSoFar(text: seq<byte>, i: nat, n: nat)
    requires i <= |text| && |Clean(text)| / 4 * 3 <= n
    ensures |Clean(text[..i])| / 4 * 3 <= n
  {
    CleanPrefix(text, i);
  }

  lemma {:induction false} CleanPrefix(text: seq<byte>, i: nat)
    requires i <= |text|
    ensures |Clean(text[..i])| <= |Clean(text)|
  {
    assert text == text[..i] + text[i..];
    CleanConcat(text[..i], text[i..]);
  }
}