/** Which tokens the compressor writes, told from the page bytes, and what that means for some pages. */
module ZramTokens {
  import opened Bitmap
  import opened Options
  import opened ZramCodec

  predicate EqualRun(src: seq<Byte>, i: nat, n: nat, v: Byte) {
    i + n <= |src| && forall j :: i <= j < i + n ==> src[j] == v
  }

  /** The run cannot be counted any further. */
  predicate RunEnds(src: seq<Byte>, i: nat, n: nat, v: Byte) {
    n == 255 || i + n >= |src| || src[i + n] != v
  }

  /** The literal cannot be extended: it is full, or the buffer or the page ends, or zeros follow. */
  predicate LiteralEnds(src: seq<Byte>, i: nat, n: nat, o: nat, max: nat) {
    n == 127 || o + 1 + n == max || i + n == |src| || ZerosAhead(src, i + n)
  }

  /** The token for position `i` of the page when `o` bytes are written: four or more zeros make a zero
      block, six or more equal bytes a run block, each as long as it can be; anything else starts a literal,
      which holds no start of four zeros and goes on as long as it can. */
  predicate TokenFits(src: seq<Byte>, i: nat, o: nat, max: nat, t: Token) {
    match t
    case Zeros(n) => 4 <= n <= 255 && EqualRun(src, i, n, 0) && RunEnds(src, i, n, 0)
    case Run(n, v) => 6 <= n <= 255 && v != 0 && EqualRun(src, i, n, v) && RunEnds(src, i, n, v)
    case Lit(bytes) =>
      && 1 <= |bytes| <= 127 && i + |bytes| <= |src| && bytes == src[i..i + |bytes|] && o + 1 + |bytes| <= max
      && !EqualRun(src, i, 4, 0) && !EqualRun(src, i, 6, src[i])
      && (forall q {:trigger ZerosAhead(src, q)} :: i <= q < i + |bytes| ==> !ZerosAhead(src, q))
      && LiteralEnds(src, i, |bytes|, o, max)
  }

  /** The counting loop finds the one length that is both a run and ends. */
  lemma RunExactly(src: seq<Byte>, i: nat, v: Byte, n: nat)
    requires i <= |src| && n <= 255 && EqualRun(src, i, n, v) && RunEnds(src, i, n, v)
    ensures RunLength(src, i, v, 0) == n
  {
    var _ := RunLength(src, i, v, 0);
  }

  /** At least `k` equal bytes are counted exactly when `k` equal bytes are there. */
  lemma RunAtLeast(src: seq<Byte>, i: nat, v: Byte, k: nat)
    requires i <= |src| && k <= 255
    ensures RunLength(src, i, v, 0) >= k <==> EqualRun(src, i, k, v)
  {
    var _ := RunLength(src, i, v, 0);
  }

  lemma {:induction false} LiteralStops(src: seq<Byte>, i: nat, cap: nat, len: nat)
    requires i + len <= |src| && len <= cap
    ensures forall q {:trigger ZerosAhead(src, q)} :: i + len <= q < i + LiteralLength(src, i, cap, len) ==> !ZerosAhead(src, q)
    decreases cap - len
  {
    if i + len < |src| && len < cap && !ZerosAhead(src, i + len) { LiteralStops(src, i, cap, len + 1); }
  }

  lemma NextFits(src: seq<Byte>, i: nat, o: nat, max: nat)
    requires i < |src| && o + 4 < max
    ensures TokenFits(src, i, o, max, Next(src, i, o, max))
  {
    hide RunLength, LiteralLength;
    RunAtLeast(src, i, 0, 4);
    RunAtLeast(src, i, src[i], 6);
    LiteralStops(src, i, LiteralCap(o, max), 0);
    if src[i] == 0 { FewerEqual(src, i, 6, 4, 0); }
  }

  lemma FewerEqual(src: seq<Byte>, i: nat, n: nat, k: nat, v: Byte)
    requires k <= n
    ensures EqualRun(src, i, n, v) ==> EqualRun(src, i, k, v)
  {
  }

  lemma SameRun(src: seq<Byte>, i: nat, n: nat, v: Byte, k: nat, w: Byte)
    requires 0 < n <= 255 && 0 < k <= 255 && EqualRun(src, i, n, v) && EqualRun(src, i, k, w)
    requires RunEnds(src, i, n, v) && RunEnds(src, i, k, w)
    ensures v == w && n == k
  {
    assert src[i] == v && src[i] == w;
    RunExactly(src, i, v, n);
    RunExactly(src, i, v, k);
  }

  lemma SameLiteral(src: seq<Byte>, i: nat, o: nat, max: nat, n: nat, k: nat)
    requires n <= k <= 127 && i + k <= |src| && o + 1 + k <= max && LiteralEnds(src, i, n, o, max)
    requires forall q {:trigger ZerosAhead(src, q)} :: i <= q < i + k ==> !ZerosAhead(src, q)
    ensures n == k
  {
  }

  lemma FitsUnique(src: seq<Byte>, i: nat, o: nat, max: nat, t: Token, u: Token)
    requires i < |src| && TokenFits(src, i, o, max, t) && TokenFits(src, i, o, max, u)
    ensures t == u
  {
    hide EqualRun, RunEnds, ZerosAhead, LiteralEnds;
    if t.Lit? && u.Lit? {
      if |t.bytes| <= |u.bytes| { SameLiteral(src, i, o, max, |t.bytes|, |u.bytes|); }
      else { SameLiteral(src, i, o, max, |u.bytes|, |t.bytes|); }
    } else if t.Lit? {
      RunOrZeros(src, i, o, max, u);
    } else if u.Lit? {
      RunOrZeros(src, i, o, max, t);
    } else {
      SameRun(src, i, t.n, if t.Zeros? then 0 else t.v, u.n, if u.Zeros? then 0 else u.v);
    }
  }

  /** Where a block starts, no literal does. */
  lemma RunOrZeros(src: seq<Byte>, i: nat, o: nat, max: nat, t: Token)
    requires i < |src| && TokenFits(src, i, o, max, t) && !t.Lit?
    ensures EqualRun(src, i, 4, 0) || EqualRun(src, i, 6, src[i])
  {
  }

  /** The description leaves no choice: it holds of the token that the compressor writes, and of no other. */
  lemma NextExactly(src: seq<Byte>, i: nat, o: nat, max: nat, t: Token)
    requires i < |src| && o + 4 < max
    ensures TokenFits(src, i, o, max, t) <==> t == Next(src, i, o, max)
  {
    hide TokenFits, Next;
    NextFits(src, i, o, max);
    if TokenFits(src, i, o, max, t) { FitsUnique(src, i, o, max, t, Next(src, i, o, max)); }
  }

  // ----- the whole page -----

  /** From position `i` and output `o` on, every token fits, and five more bytes of buffer are left for each. */
  predicate Chosen(src: seq<Byte>, i: nat, o: nat, max: nat, ts: seq<Token>)
    decreases |ts|
  {
    ts == [] ||
    (i < |src| && o + 4 < max && TokenOk(ts[0]) && TokenFits(src, i, o, max, ts[0])
     && Chosen(src, i + |Expand(ts[0])|, o + |Encoded(ts[0])|, max, ts[1..]))
  }

  lemma {:induction false} ChosenOk(src: seq<Byte>, i: nat, o: nat, max: nat, ts: seq<Token>)
    requires Chosen(src, i, o, max, ts)
    ensures TokensOk(ts)
    decreases |ts|
  {
    hide TokenFits, Expand, Encoded, TokenOk;
    if ts != [] {
      ChosenOk(src, i + |Expand(ts[0])|, o + |Encoded(ts[0])|, max, ts[1..]);
      forall t | t in ts ensures TokenOk(t) { assert t == ts[0] || t in ts[1..]; }
    }
  }

  /** `Encode` yields exactly the list of fitting tokens that covers the page. */
  lemma {:induction false} EncodeExactly(src: seq<Byte>, i: nat, o: nat, max: nat, ts: seq<Token>)
    requires i <= |src|
    ensures Encode(src, i, o, max) == Some(ts) <==> Chosen(src, i, o, max, ts) && i + |ExpandAll(ts)| == |src|
    decreases |ts|
  {
    hide Next, Expand, Encoded, TokenFits, Encode, TokenOk;
    if ts == [] {
      EmptyEncode(src, i, o, max);
    } else if i < |src| && o + 4 < max {
      var t := Next(src, i, o, max);
      NextExactly(src, i, o, max, ts[0]);
      EncodeTurn(src, i, o, max);
      EncodeExactly(src, i + |Expand(t)|, o + |Encoded(t)|, max, ts[1..]);
      assert ts == [ts[0]] + ts[1..];
      var rest := Encode(src, i + |Expand(t)|, o + |Encoded(t)|, max);
      assert rest.Some? ==> ([t] + rest.value)[1..] == rest.value;
    } else {
      NoTurn(src, i, o, max);
    }
  }

  lemma EmptyEncode(src: seq<Byte>, i: nat, o: nat, max: nat)
    requires i <= |src|
    ensures Encode(src, i, o, max) == Some([]) <==> i == |src|
  {
    if i < |src| && o + 4 < max { EncodeTurn(src, i, o, max); }
  }

  lemma NoTurn(src: seq<Byte>, i: nat, o: nat, max: nat)
    requires i <= |src| && (i == |src| || o + 4 >= max)
    ensures Encode(src, i, o, max) == if i == |src| then Some([]) else None
  {
  }

  /** `Encode` gives up exactly when fitting tokens lead to a position before the end of the page at which
      fewer than five bytes of buffer are left. */
  lemma {:induction false} RefusedExactly(src: seq<Byte>, i: nat, o: nat, max: nat) returns (ts: seq<Token>)
    requires i <= |src| && Encode(src, i, o, max).None?
    ensures Chosen(src, i, o, max, ts) && TokensOk(ts) && i + |ExpandAll(ts)| < |src| && o + |Stream(ts)| + 4 >= max
    decreases |src| - i
  {
    hide Next, Expand, Encoded, TokenFits, Encode, TokenOk;
    NoTurnAt(src, i, o, max);
    if o + 4 >= max {
      ts := [];
    } else {
      var t := Next(src, i, o, max);
      NextExactly(src, i, o, max, t);
      EncodeTurn(src, i, o, max);
      var rest := RefusedExactly(src, i + |Expand(t)|, o + |Encoded(t)|, max);
      ts := [t] + rest;
      assert ts[1..] == rest;
      StreamCons(t, rest);
    }
  }

  lemma NoTurnAt(src: seq<Byte>, i: nat, o: nat, max: nat)
    requires i <= |src| && Encode(src, i, o, max).None?
    ensures i < |src|
  {
  }

  /** Token by token: each fits at the page position that the tokens before it cover. */
  lemma {:induction false} TokenAt(src: seq<Byte>, i: nat, o: nat, max: nat, ts: seq<Token>, j: nat)
    requires Chosen(src, i, o, max, ts) && j < |ts|
    ensures TokensOk(ts[..j])
    ensures TokenFits(src, i + |ExpandAll(ts[..j])|, o + |Stream(ts[..j])|, max, ts[j])
    decreases j
  {
    hide TokenFits, Expand, Encoded, TokenOk;
    ChosenOk(src, i, o, max, ts);
    if j == 0 {
      assert ts[..0] == [];
    } else {
      TokenAt(src, i + |Expand(ts[0])|, o + |Encoded(ts[0])|, max, ts[1..], j - 1);
      assert ts[1..][..j - 1] == ts[..j][1..] && ts[..j] == [ts[0]] + ts[1..][..j - 1];
      StreamCons(ts[0], ts[1..][..j - 1]);
    }
  }

  /** What `zram_compress_page` writes for a page, told from the page. */
  lemma PageTokens(src: seq<Byte>, max: nat, j: nat)
    requires |src| == PAGE && Encode(src, 0, 0, max).Some? && j < |Encode(src, 0, 0, max).value|
    ensures var ts := Encode(src, 0, 0, max).value;
            TokensOk(ts[..j]) && TokenFits(src, |ExpandAll(ts[..j])|, |Stream(ts[..j])|, max, ts[j])
  {
    hide Encode, TokenFits;
    var ts := Encode(src, 0, 0, max).value;
    EncodeExactly(src, 0, 0, max, ts);
    TokenAt(src, 0, 0, max, ts, j);
  }

  // ----- pages that compress -----

  /** A position at which `n` equal bytes `v` make a block. */
  lemma OneBlock(src: seq<Byte>, i: nat, o: nat, max: nat, n: nat, v: Byte)
    requires i < |src| && o + 4 < max && 6 <= n <= 255 && EqualRun(src, i, n, v) && RunEnds(src, i, n, v)
    ensures var w := if v == 0 then 2 else 3;
            var rest := Encode(src, i + n, o + w, max);
            && Encode(src, i, o, max).Some? == rest.Some?
            && (rest.Some? ==> |Stream(Encode(src, i, o, max).value)| == w + |Stream(rest.value)|)
  {
    hide Encode, Stream, EqualRun, RunEnds;
    var t := if v == 0 then Zeros(n) else Run(n, v);
    NextExactly(src, i, o, max, t);
    EncodeTurn(src, i, o, max);
    var rest := Encode(src, i + |Expand(t)|, o + |Encoded(t)|, max);
    if rest.Some? { StreamCons(t, rest.value); }
  }

  lemma {:induction false} UniformTail(src: seq<Byte>, i: nat, o: nat, max: nat, v: Byte, k: nat)
    requires i + 255 * k + 16 == |src| && EqualRun(src, i, |src| - i, v) && o + 3 * k + 4 < max
    ensures Encode(src, i, o, max).Some?
    ensures |Stream(Encode(src, i, o, max).value)| == (if v == 0 then 2 else 3) * (k + 1)
    decreases k
  {
    hide Encode, Stream;
    var n := if k == 0 then 16 else 255;
    OneBlock(src, i, o, max, n, v);
    if k == 0 {
      NoTurn(src, |src|, o + (if v == 0 then 2 else 3), max);
      EmptyStream();
    } else {
      UniformTail(src, i + 255, o + (if v == 0 then 2 else 3), max, v, k - 1);
    }
  }

  lemma EmptyStream()
    ensures Stream([]) == []
  {
  }

  /** A page of one byte compresses to 34 bytes if the byte is 0, and to 51 otherwise. */
  lemma UniformPage(v: Byte)
    ensures var r := Encode(Repeat(v, PAGE), 0, 0, PAGE);
            r.Some? && |Stream(r.value)| == if v == 0 then 34 else 51
  {
    hide Encode, Stream;
    UniformTail(Repeat(v, PAGE), 0, 0, PAGE, v, 16);
  }

  /** The page in which every 64 bytes hold the next number. */
  function PatternPage(): seq<Byte> {
    seq(PAGE, i requires 0 <= i < PAGE => i / 64)
  }

  lemma {:induction false} PatternTail(b: nat, o: nat)
    requires 1 <= b <= 64 && o + 3 * (64 - b) + 4 < PAGE
    ensures var r := Encode(PatternPage(), 64 * b, o, PAGE);
            r.Some? && |Stream(r.value)| == 3 * (64 - b)
    decreases 64 - b
  {
    hide Encode, Stream;
    if b == 64 {
      NoTurn(PatternPage(), PAGE, o, PAGE);
      EmptyStream();
    } else {
      PatternBlock(b);
      OneBlock(PatternPage(), 64 * b, o, PAGE, 64, b);
      PatternTail(b + 1, o + 3);
    }
  }

  lemma PatternBlock(b: nat)
    requires b < 64
    ensures EqualRun(PatternPage(), 64 * b, 64, b) && RunEnds(PatternPage(), 64 * b, 64, b)
  {
    forall j | 64 * b <= j < 64 * b + 64 ensures j / 64 == b {}
  }

  lemma PatternCompresses()
    ensures var r := Encode(PatternPage(), 0, 0, PAGE);
            r.Some? && |Stream(r.value)| == 191
  {
    hide Encode, Stream;
    PatternBlock(0);
    OneBlock(PatternPage(), 0, 0, PAGE, 64, 0);
    PatternTail(1, 2);
  }
}
