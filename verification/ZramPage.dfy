/** The compressor and the decompressor as the kernel runs them, over byte buffers. */
module ZramPage {
  import opened Bitmap
  import opened Options
  import opened ZramCodec

  // ----- how much the compressor writes -----

  /** What holds of the two indices at every loop head: the output is at most one byte longer than the
      input plus one tag per 127 bytes, and the extra byte is only owed right before the page ends, a
      run of zeros follows, or the buffer is exhausted. */
  predicate HeadOk(src: seq<Byte>, i: nat, o: nat, max: nat) {
    && o <= i + i / 127 + 1
    && (o <= i + i / 127 || i == |src| || ZerosAhead(src, i) || o + 4 >= max)
  }

  /** The page bytes `c` that the next token covers and the bytes `w` it takes: runs save space, and a
      literal costs one byte more than it covers. */
  lemma NextSize(src: seq<Byte>, i: nat, o: nat, max: nat)
    requires i < |src| && o + 4 < max
    ensures var t := Next(src, i, o, max);
            var c, w := |Expand(t)|, |Encoded(t)|;
            && 0 < c <= |src| - i && o + w <= max
            && (w < c || (!ZerosAhead(src, i) && w == c + 1 && c <= 127
                          && (c == 127 || i + c == |src| || ZerosAhead(src, i + c) || o + w == max)))
  {
    hide Encoded, Expand, RunLength, LiteralLength;
    TokenSize(Next(src, i, o, max));
    var r := RunLength(src, i, 0, 0);
    assert ZerosAhead(src, i) ==> r > 3;
  }

  lemma TokenSize(t: Token)
    requires TokenOk(t)
    ensures match t
            case Zeros(n) => |Expand(t)| == n && |Encoded(t)| == 2
            case Run(n, _) => |Expand(t)| == n && |Encoded(t)| == 3
            case Lit(bytes) => Expand(t) == bytes && |Encoded(t)| == |bytes| + 1
  {
  }

  lemma TagBudget(i: nat, c: nat)
    ensures i / 127 <= (i + c) / 127
    ensures c >= 127 ==> i / 127 + 1 <= (i + c) / 127
  {
  }

  lemma HeadStep(src: seq<Byte>, i: nat, o: nat, max: nat)
    requires HeadOk(src, i, o, max) && i < |src| && o + 4 < max
    ensures var t := Next(src, i, o, max);
            && HeadOk(src, i + |Expand(t)|, o + |Encoded(t)|, max)
            && o + |Encoded(t)| <= max
  {
    hide Next, Expand, Encoded, ZerosAhead;
    NextSize(src, i, o, max);
    TagBudget(i, |Expand(Next(src, i, o, max))|);
  }

  lemma HeadRoom(src: seq<Byte>, i: nat, o: nat, max: nat)
    requires HeadOk(src, i, o, max) && i < PAGE && 4133 <= max
    ensures o + 4 < max
  {
  }

  /** With at least 4133 bytes of output buffer no page is refused. */
  lemma {:induction false} NeverRefused(src: seq<Byte>, i: nat, o: nat, max: nat)
    requires |src| == PAGE && i <= PAGE && HeadOk(src, i, o, max) && 4133 <= max
    ensures Encode(src, i, o, max).Some?
    decreases PAGE - i
  {
    hide Next, HeadOk, Expand, Encoded;
    if i < PAGE {
      HeadRoom(src, i, o, max);
      HeadStep(src, i, o, max);
      var t := Next(src, i, o, max);
      NeverRefused(src, i + |Expand(t)|, o + |Encoded(t)|, max);
    }
  }

  /** `k` tokens cover at most 255 page bytes each and take at least 2 bytes each. */
  lemma {:induction false} TokenRates(ts: seq<Token>)
    requires TokensOk(ts)
    ensures |ExpandAll(ts)| <= 255 * |ts| && 2 * |ts| <= |Stream(ts)|
  {
    if ts != [] {
      assert TokenOk(ts[0]);
      TokenRates(ts[1..]);
    }
  }

  /** No page compresses to less than 34 bytes. */
  lemma AtLeast34(src: seq<Byte>, max: nat)
    requires |src| == PAGE && Encode(src, 0, 0, max).Some?
    ensures |Stream(Encode(src, 0, 0, max).value)| >= 34
  {
    hide Encode, Stream, ExpandAll;
    var ts := Encode(src, 0, 0, max).value;
    EncodeExpands(src, 0, 0, max);
    TokenRates(ts);
  }

  // ----- zram_compress_page -----

  method ScanRun(src: seq<Byte>, i: nat, v: Byte) returns (run: nat)
    requires i <= |src|
    ensures run == RunLength(src, i, v, 0)
  {
    run := 0;
    while i + run < |src| && src[i + run] == v && run < 255
      invariant run <= 255 && i + run <= |src|
      invariant RunLength(src, i, v, 0) == RunLength(src, i, v, run)
    {
      run := run + 1;
    }
  }

  method ScanLiteral(src: seq<Byte>, i: nat, cap: nat) returns (len: nat)
    requires i <= |src|
    ensures len == LiteralLength(src, i, cap, 0)
  {
    len := 0;
    while i + len < |src| && len < cap
      invariant len <= cap && i + len <= |src|
      invariant LiteralLength(src, i, cap, 0) == LiteralLength(src, i, cap, len)
    {
      var k := i + len;
      if k + 4 < |src| && src[k] == 0 && src[k + 1] == 0 && src[k + 2] == 0 && src[k + 3] == 0 {
        break;
      }
      len := len + 1;
    }
  }

  /** The token that the body of the main loop writes. */
  method ChooseToken(src: seq<Byte>, i: nat, o: nat, max: nat) returns (t: Token)
    requires i < |src| && o + 4 < max
    ensures t == Next(src, i, o, max)
  {
    if src[i] == 0 {
      var zeros := ScanRun(src, i, 0);
      if zeros >= 4 {
        return Zeros(zeros);
      }
    }
    var val := src[i];
    var run := ScanRun(src, i, val);
    if run >= 6 {
      return Run(run, val);
    }
    var cap := max - o - 1;
    if cap > 127 { cap := 127; }
    var len := ScanLiteral(src, i, cap);
    return Lit(src[i..i + len]);
  }

  /** `dst` is as before except for the bytes `s` written at `o`. */
  predicate Written(before: seq<Byte>, after: seq<Byte>, o: nat, s: seq<Byte>)
    requires o + |s| <= |before| == |after|
  {
    after[..o] == before[..o] && after[o..o + |s|] == s && after[o + |s|..] == before[o + |s|..]
  }

  lemma WrittenParts(before: seq<Byte>, after: seq<Byte>, o: nat, s: seq<Byte>)
    requires o + |s| <= |before| == |after| && Written(before, after, o, s)
    ensures after[..o + |s|] == before[..o] + s && after[o + |s|..] == before[o + |s|..]
  {
    assert after[..o + |s|] == after[..o] + after[o..o + |s|];
  }

  method EmitZeros(n: Byte, dst: array<Byte>, o: nat)
    requires o + 2 <= dst.Length
    modifies dst
    ensures Written(old(dst[..]), dst[..], o, [TAG_ZEROS, n])
  {
    dst[o] := TAG_ZEROS;
    dst[o + 1] := n;
  }

  method EmitRun(n: Byte, v: Byte, dst: array<Byte>, o: nat)
    requires o + 3 <= dst.Length
    modifies dst
    ensures Written(old(dst[..]), dst[..], o, [TAG_RUN, n, v])
  {
    dst[o] := TAG_RUN;
    dst[o + 1] := n;
    dst[o + 2] := v;
  }

  method EmitLiteral(bytes: seq<Byte>, dst: array<Byte>, o: nat)
    requires o + 1 + |bytes| <= dst.Length
    modifies dst
    ensures Written(old(dst[..]), dst[..], o, [|bytes| % 128] + bytes)
  {
    dst[o] := |bytes| % 128;
    for k := 0 to |bytes|
      invariant forall j {:trigger dst[j]} :: 0 <= j < dst.Length ==>
                  dst[j] == if o < j <= o + k then bytes[j - o - 1] else if j == o then |bytes| % 128 else old(dst[j])
    {
      dst[o + 1 + k] := bytes[k];
    }
  }

  /** Writes a token to `dst` at `o`. */
  method Emit(t: Token, dst: array<Byte>, o: nat) returns (o': nat)
    requires TokenOk(t) && o + |Encoded(t)| <= dst.Length
    modifies dst
    ensures o' == o + |Encoded(t)|
    ensures dst[..o'] == old(dst[..o]) + Encoded(t) && dst[o'..] == old(dst[o'..])
  {
    hide Written;
    match t {
      case Zeros(n) =>
        EmitZeros(n, dst, o);
        o' := o + 2;
      case Run(n, v) =>
        EmitRun(n, v, dst, o);
        o' := o + 3;
      case Lit(bytes) =>
        EmitLiteral(bytes, dst, o);
        o' := o + 1 + |bytes|;
    }
    WrittenParts(old(dst[..]), dst[..], o, Encoded(t));
  }

  method CompressPage(src: seq<Byte>, dst: array<Byte>, maxDst: nat) returns (r: int)
    requires |src| == PAGE && maxDst <= dst.Length
    modifies dst
    ensures Encode(src, 0, 0, maxDst).None? ==> r == -1
    ensures Encode(src, 0, 0, maxDst).Some? ==>
              var s := Stream(Encode(src, 0, 0, maxDst).value);
              r == |s| <= maxDst && dst[..r] == s
    ensures dst[maxDst..] == old(dst[maxDst..])
  {
    hide Next, Encode, Encoded, Expand, Joined, HeadOk, Stream;
    var i, o := 0, 0;
    ghost var done: seq<Token> := [];
    Start(src, maxDst);
    while i < PAGE
      invariant 0 <= i <= PAGE && 0 <= o <= maxDst
      invariant HeadOk(src, i, o, maxDst)
      invariant TokensOk(done) && o == |Stream(done)| && o <= dst.Length && dst[..o] == Stream(done)
      invariant Joined(Encode(src, 0, 0, maxDst), done, Encode(src, i, o, maxDst))
      invariant dst[maxDst..] == old(dst[maxDst..])
      decreases PAGE - i
    {
      if o + 4 >= maxDst {
        NoRoom(src, i, o, maxDst, done);
        return -1;
      }
      var t := ChooseToken(src, i, o, maxDst);
      HeadStep(src, i, o, maxDst);
      JoinStep(src, i, o, maxDst, done);
      StreamAppend(done, t);
      o := Emit(t, dst, o);
      i := i + |Expand(t)|;
      done := done + [t];
    }
    Finished(src, o, maxDst, done);
    return o;
  }

  /** `whole` is `done` followed by `rest`. */
  predicate Joined(whole: Option<seq<Token>>, done: seq<Token>, rest: Option<seq<Token>>) {
    if rest.None? then whole.None? else whole == Some(done + rest.value)
  }

  lemma Start(src: seq<Byte>, max: nat)
    ensures Joined(Encode(src, 0, 0, max), [], Encode(src, 0, 0, max)) && HeadOk(src, 0, 0, max) && Stream([]) == []
  {
    if Encode(src, 0, 0, max).Some? {
      assert [] + Encode(src, 0, 0, max).value == Encode(src, 0, 0, max).value;
    }
  }

  lemma JoinStep(src: seq<Byte>, i: nat, o: nat, max: nat, done: seq<Token>)
    requires i < |src| && o + 4 < max && Joined(Encode(src, 0, 0, max), done, Encode(src, i, o, max))
    ensures var t := Next(src, i, o, max);
            Joined(Encode(src, 0, 0, max), done + [t], Encode(src, i + |Expand(t)|, o + |Encoded(t)|, max))
  {
    hide Next;
    var t := Next(src, i, o, max);
    var rest := Encode(src, i + |Expand(t)|, o + |Encoded(t)|, max);
    if rest.Some? {
      assert done + ([t] + rest.value) == done + [t] + rest.value;
    }
  }

  lemma NoRoom(src: seq<Byte>, i: nat, o: nat, max: nat, done: seq<Token>)
    requires i < |src| && o + 4 >= max && Joined(Encode(src, 0, 0, max), done, Encode(src, i, o, max))
    ensures Encode(src, 0, 0, max).None?
  {
  }

  lemma Finished(src: seq<Byte>, o: nat, max: nat, done: seq<Token>)
    requires Joined(Encode(src, 0, 0, max), done, Encode(src, |src|, o, max))
    ensures Encode(src, 0, 0, max) == Some(done)
  {
    assert done + [] == done;
  }

  lemma {:induction false} StreamAppend(ts: seq<Token>, t: Token)
    requires TokensOk(ts) && TokenOk(t)
    ensures TokensOk(ts + [t]) && Stream(ts + [t]) == Stream(ts) + Encoded(t)
  {
    hide Encoded, Stream, TokenOk;
    if ts == [] {
      StreamCons(t, []);
      assert ts + [t] == [t] + [];
      assert Stream(ts) == [] by { EmptyStream(); }
      assert Encoded(t) + [] == [] + Encoded(t);
    } else {
      StreamAppend(ts[1..], t);
      StreamCons(ts[0], ts[1..] + [t]);
      StreamCons(ts[0], ts[1..]);
      assert ts + [t] == [ts[0]] + (ts[1..] + [t]) && ts == [ts[0]] + ts[1..];
      assert Encoded(ts[0]) + (Stream(ts[1..]) + Encoded(t)) == Encoded(ts[0]) + Stream(ts[1..]) + Encoded(t);
    }
  }

  lemma EmptyStream()
    ensures Stream([]) == []
  {
  }

  // ----- zram_decompress_page -----

  /** The copy loop shared by the zero, run and padding cases. */
  method FillBytes(dst: array<Byte>, o: nat, v: Byte, count: nat) returns (o': nat)
    requires o <= PAGE <= dst.Length
    modifies dst
    ensures o' == o + Clip(count, o)
    ensures dst[..o'] == Fill(old(dst[..o]), v, count) && dst[o'..] == old(dst[o'..])
  {
    o' := o;
    var i := 0;
    while i < count && o' < PAGE
      invariant o' == o + i <= PAGE && i <= count
      invariant forall j {:trigger dst[j]} :: 0 <= j < dst.Length ==> dst[j] == if o <= j < o' then v else old(dst[j])
    {
      dst[o'] := v;
      o' := o' + 1;
      i := i + 1;
    }
    assert dst[o..o'] == Repeat(v, o' - o);
    assert dst[..o'] == dst[..o] + dst[o..o'];
  }

  method CopyLiteral(src: seq<Byte>, i: nat, len: nat, dst: array<Byte>, o: nat) returns (i': nat, o': nat)
    requires o <= PAGE <= dst.Length && i + len <= |src|
    modifies dst
    ensures var take := Clip(len, o);
            && i' == i + take && o' == o + take
            && dst[..o'] == old(dst[..o]) + src[i..i'] && dst[o'..] == old(dst[o'..])
  {
    i', o' := i, o;
    var k := 0;
    while k < len && o' < PAGE
      invariant i' == i + k && o' == o + k <= PAGE && k <= len
      invariant forall j {:trigger dst[j]} :: 0 <= j < dst.Length ==> dst[j] == if o <= j < o' then src[i + (j - o)] else old(dst[j])
    {
      dst[o'] := src[i'];
      o', i', k := o' + 1, i' + 1, k + 1;
    }
    assert dst[o..o'] == src[i..i'];
    assert dst[..o'] == dst[..o] + dst[o..o'];
  }

  // One block of the stream, by its tag.

  lemma ZerosBlock(src: seq<Byte>, i: nat, out: seq<Byte>)
    requires i < |src| && src[i] == TAG_ZEROS && |out| < PAGE
    ensures Decode(src[i..], out) == if i + 2 > |src| then None else Decode(src[i + 2..], Fill(out, 0, src[i + 1]))
  {
    hide Fill;
    if i + 2 <= |src| { SliceOfTail(src, i, 2); }
  }

  lemma RunBlock(src: seq<Byte>, i: nat, out: seq<Byte>)
    requires i < |src| && src[i] == TAG_RUN && |out| < PAGE
    ensures Decode(src[i..], out) == if i + 3 > |src| then None else Decode(src[i + 3..], Fill(out, src[i + 2], src[i + 1]))
  {
    hide Fill;
    if i + 3 <= |src| { SliceOfTail(src, i, 3); }
  }

  lemma LiteralBlock(src: seq<Byte>, i: nat, out: seq<Byte>)
    requires i < |src| && src[i] != TAG_ZEROS && src[i] != TAG_RUN && |out| < PAGE
    ensures var len := LiteralSize(src[i]);
            var take := Clip(len, |out|);
            Decode(src[i..], out) == if len == 0 || i + 1 + len > |src| then None
                                     else Decode(src[i + 1 + take..], out + src[i + 1..i + 1 + take])
  {
    hide Decode, Block, LiteralSize, Clip;
    DecodeBlock(src[i..], out);
    LiteralHead(src, i, out, LiteralSize(src[i]), Clip(LiteralSize(src[i]), |out|));
  }

  lemma DecodeBlock(s: seq<Byte>, out: seq<Byte>)
    requires s != [] && |out| < PAGE
    ensures Decode(s, out) == match Block(s, out)
                              case None => None
                              case Some(p) => Decode(p.rest, p.out)
  {
    hide Block;
  }

  lemma LiteralHead(src: seq<Byte>, i: nat, out: seq<Byte>, len: nat, take: nat)
    requires i < |src| && src[i] != TAG_ZEROS && src[i] != TAG_RUN && |out| < PAGE
    requires len == LiteralSize(src[i]) && take == Clip(len, |out|)
    ensures Block(src[i..], out) == if len == 0 || i + 1 + len > |src| then None
                                    else Some(Progress(src[i + 1 + take..], out + src[i + 1..i + 1 + take]))
  {
    hide LiteralSize, Clip, Fill;
    if len > 0 && i + 1 + len <= |src| {
      SliceOfTail(src, i, 1 + take);
    }
  }

  lemma SliceOfTail(s: seq<Byte>, i: nat, j: nat)
    requires 1 <= j && i + j <= |s|
    ensures s[i..][j..] == s[i + j..] && s[i..][1..j] == s[i + 1..i + j]
  {
  }

  lemma StreamEnd(out: seq<Byte>, s: seq<Byte>)
    requires |out| <= PAGE && (s == [] || |out| == PAGE)
    ensures Decode(s, out) == Some(Fill(out, 0, PAGE))
  {
  }

  method DecompressPage(src: seq<Byte>, dst: array<Byte>) returns (r: int)
    requires PAGE <= dst.Length
    modifies dst
    ensures Decode(src, []).None? ==> r == -1
    ensures Decode(src, []).Some? ==> r == 0 && dst[..PAGE] == Decode(src, []).value
    ensures dst[PAGE..] == old(dst[PAGE..])
  {
    hide Repeat, Decode, Fill, Clip, LiteralSize;
    var i, o := 0, 0;
    assert src[0..] == src && dst[..0] == [];
    while i < |src| && o < PAGE
      invariant 0 <= i <= |src| && 0 <= o <= PAGE
      invariant Decode(src, []) == Decode(src[i..], dst[..o])
      invariant dst[PAGE..] == old(dst[PAGE..])
      decreases |src| - i
    {
      var tag := src[i];
      i := i + 1;
      if tag == TAG_ZEROS {
        ZerosBlock(src, i - 1, dst[..o]);
        if i >= |src| { return -1; }
        var count := src[i];
        i := i + 1;
        o := FillBytes(dst, o, 0, count);
      } else if tag == TAG_RUN {
        RunBlock(src, i - 1, dst[..o]);
        if i + 1 >= |src| { return -1; }
        var count, val := src[i], src[i + 1];
        i := i + 2;
        o := FillBytes(dst, o, val, count);
      } else {
        LiteralBlock(src, i - 1, dst[..o]);
        var len := LiteralSize(tag);
        if len == 0 || i + len > |src| { return -1; }
        i, o := CopyLiteral(src, i, len, dst, o);
      }
    }
    StreamEnd(dst[..o], src[i..]);
    o := FillBytes(dst, o, 0, PAGE);
    return 0;
  }
}
