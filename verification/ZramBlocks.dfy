/** The streams that the decompressor accepts, as sequences of blocks, and the page each stands for. */
module ZramBlocks {
  import opened Bitmap
  import opened Options
  import opened ZramCodec

  datatype RawBlock = ZeroBlock(count: Byte) | RunBlock(count: Byte, v: Byte) | LiteralBlock(tag: Byte, bytes: seq<Byte>)

  /** The low seven bits of a literal tag count its bytes; there is at least one. */
  predicate RawOk(b: RawBlock) {
    b.LiteralBlock? ==>
      b.tag != TAG_ZEROS && b.tag != TAG_RUN && 0 < |b.bytes| < 128 && (b.tag == |b.bytes| || b.tag == 128 + |b.bytes|)
  }

  function RawBytes(b: RawBlock): seq<Byte> {
    match b
    case ZeroBlock(count) => [TAG_ZEROS, count]
    case RunBlock(count, v) => [TAG_RUN, count, v]
    case LiteralBlock(tag, bytes) => [tag] + bytes
  }

  function RawExpand(b: RawBlock): seq<Byte> {
    match b
    case ZeroBlock(count) => Repeat(0, count)
    case RunBlock(count, v) => Repeat(v, count)
    case LiteralBlock(_, bytes) => bytes
  }

  function RawStream(bs: seq<RawBlock>): seq<Byte> {
    if bs == [] then [] else RawBytes(bs[0]) + RawStream(bs[1..])
  }

  function RawPage(bs: seq<RawBlock>): seq<Byte> {
    if bs == [] then [] else RawExpand(bs[0]) + RawPage(bs[1..])
  }

  ghost predicate RawsOk(bs: seq<RawBlock>) {
    forall b :: b in bs ==> RawOk(b)
  }

  /** The page that the output stands for: cut off, or filled up with zeros. */
  function Padded(out: seq<Byte>): seq<Byte> {
    if |out| >= PAGE then out[..PAGE] else out + Repeat(0, PAGE - |out|)
  }

  /** No block starts the input. */
  ghost predicate Stuck(s: seq<Byte>) {
    s != [] && forall b {:trigger RawBytes(b)} :: RawOk(b) ==> !(RawBytes(b) <= s)
  }

  lemma LiteralTag(b: RawBlock)
    requires RawOk(b) && b.LiteralBlock?
    ensures LiteralSize(b.tag) == |b.bytes|
  {
  }

  /** A block that fits on the page is read whole; the last one may be cut off by the end of the page. */
  lemma BlockRead(b: RawBlock, rest: seq<Byte>, out: seq<Byte>)
    requires RawOk(b) && |out| < PAGE
    ensures var r := Block(RawBytes(b) + rest, out);
            && r.Some?
            && (|out| + |RawExpand(b)| <= PAGE ==> r.value == Progress(rest, out + RawExpand(b)))
            && (|out| + |RawExpand(b)| > PAGE ==> r.value.out == (out + RawExpand(b))[..PAGE])
  {
    var s := RawBytes(b) + rest;
    match b
    case ZeroBlock(count) =>
      assert s[2..] == rest;
      FillRead(out, 0, count);
    case RunBlock(count, v) =>
      assert s[3..] == rest;
      FillRead(out, v, count);
    case LiteralBlock(tag, bytes) =>
      LiteralTag(b);
      var take := Clip(|bytes|, |out|);
      assert s[1..1 + take] == bytes[..take];
      assert take == |bytes| ==> s[1 + take..] == rest && bytes[..take] == bytes;
      assert take < |bytes| ==> out + bytes[..take] == (out + bytes)[..PAGE];
  }

  lemma FillRead(out: seq<Byte>, v: Byte, count: nat)
    requires |out| < PAGE
    ensures |out| + count <= PAGE ==> Fill(out, v, count) == out + Repeat(v, count)
    ensures |out| + count > PAGE ==> Fill(out, v, count) == (out + Repeat(v, count))[..PAGE]
  {
  }

  lemma FullPage(s: seq<Byte>, out: seq<Byte>)
    requires |out| == PAGE
    ensures Decode(s, out) == Some(out)
  {
    assert out + Repeat(0, 0) == out;
  }

  lemma EndOfInput(out: seq<Byte>)
    requires |out| <= PAGE
    ensures Decode([], out) == Some(Padded(out))
  {
    if |out| == PAGE { FullPage([], out); }
  }

  lemma DecodeTurn(s: seq<Byte>, out: seq<Byte>)
    requires s != [] && |out| < PAGE
    ensures Decode(s, out) == match Block(s, out)
                              case None => None
                              case Some(p) => Decode(p.rest, p.out)
  {
    hide Block;
  }

  /** Blocks that fill the page, or end the stream, decode to the page they stand for, whatever input follows
      a full page. */
  lemma {:induction false} BlocksDecode(bs: seq<RawBlock>, rest: seq<Byte>, out: seq<Byte>)
    requires RawsOk(bs) && |out| <= PAGE && (rest == [] || |out| + |RawPage(bs)| >= PAGE)
    ensures Decode(RawStream(bs) + rest, out) == Some(Padded(out + RawPage(bs)))
    decreases |bs|
  {
    hide Decode, Block, RawBytes, RawExpand, RawOk;
    if |out| == PAGE {
      FullPage(RawStream(bs) + rest, out);
      assert (out + RawPage(bs))[..PAGE] == out;
    } else if bs == [] {
      EndOfInput(out);
      assert RawStream(bs) + rest == [] && out + RawPage(bs) == out;
    } else {
      var b, tail := bs[0], RawStream(bs[1..]) + rest;
      assert RawStream(bs) + rest == RawBytes(b) + tail;
      NotEmpty(b);
      BlockRead(b, tail, out);
      DecodeTurn(RawBytes(b) + tail, out);
      var page := out + RawPage(bs);
      assert page == out + RawExpand(b) + RawPage(bs[1..]);
      if |out| + |RawExpand(b)| <= PAGE {
        BlocksDecode(bs[1..], rest, out + RawExpand(b));
      } else {
        var p := Block(RawBytes(b) + tail, out).value;
        FullPage(p.rest, p.out);
        assert page[..PAGE] == (out + RawExpand(b))[..PAGE];
      }
    }
  }

  lemma NotEmpty(b: RawBlock)
    ensures |RawBytes(b)| > 0
  {
  }

  lemma {:induction false} BlocksSkipped(bs: seq<RawBlock>, rest: seq<Byte>, out: seq<Byte>)
    requires RawsOk(bs) && |out| + |RawPage(bs)| < PAGE
    ensures Decode(RawStream(bs) + rest, out) == Decode(rest, out + RawPage(bs))
    decreases |bs|
  {
    hide Decode, Block, RawBytes, RawExpand, RawOk;
    if bs == [] {
      assert RawStream(bs) + rest == rest && out + RawPage(bs) == out;
    } else {
      var b, tail := bs[0], RawStream(bs[1..]) + rest;
      assert RawStream(bs) + rest == RawBytes(b) + tail;
      NotEmpty(b);
      BlockRead(b, tail, out);
      DecodeTurn(RawBytes(b) + tail, out);
      BlocksSkipped(bs[1..], rest, out + RawExpand(b));
      assert out + RawPage(bs) == out + RawExpand(b) + RawPage(bs[1..]);
    }
  }

  /** The decoder finds no block exactly where there is none. */
  lemma StuckExactly(s: seq<Byte>, out: seq<Byte>)
    requires s != [] && |out| < PAGE
    ensures Block(s, out).None? <==> Stuck(s)
  {
    hide LiteralSize, Clip, Fill;
    if Block(s, out).Some? {
      var b := FirstBlock(s, out);
    } else {
      forall b | RawOk(b) ensures !(RawBytes(b) <= s) {
        if b.LiteralBlock? { LiteralTag(b); }
      }
    }
  }

  lemma FirstBlock(s: seq<Byte>, out: seq<Byte>) returns (b: RawBlock)
    requires s != [] && |out| < PAGE && Block(s, out).Some?
    ensures RawOk(b) && RawBytes(b) <= s
  {
    if s[0] == TAG_ZEROS {
      b := ZeroBlock(s[1]);
    } else if s[0] == TAG_RUN {
      b := RunBlock(s[1], s[2]);
    } else {
      b := LiteralBlock(s[0], s[1..1 + LiteralSize(s[0])]);
      assert RawBytes(b) == s[..1 + LiteralSize(s[0])];
    }
  }

  /** `zram_decompress_page` returns -1 exactly when well-formed blocks, too few to fill the page, lead to
      input that starts with no block. */
  lemma {:induction false} RefusesExactly(s: seq<Byte>, out: seq<Byte>)
    requires |out| <= PAGE
    ensures Decode(s, out).None? <==>
            exists bs, rest {:trigger RawStream(bs) + rest} ::
              RawsOk(bs) && s == RawStream(bs) + rest && |out| + |RawPage(bs)| < PAGE && Stuck(rest)
    decreases |s|
  {
    hide Decode, Block, RawBytes, RawExpand, RawOk, Stuck;
    forall bs, rest | RawsOk(bs) && s == RawStream(bs) + rest && |out| + |RawPage(bs)| < PAGE && Stuck(rest)
      ensures Decode(s, out).None?
    {
      StuckInput(rest);
      BlocksSkipped(bs, rest, out);
      StuckExactly(rest, out + RawPage(bs));
      DecodeTurn(rest, out + RawPage(bs));
    }
    if Decode(s, out).None? {
      var bs, rest := Refusal(s, out);
    }
  }

  lemma StuckInput(s: seq<Byte>)
    requires Stuck(s)
    ensures s != []
  {
  }

  lemma {:induction false} Refusal(s: seq<Byte>, out: seq<Byte>) returns (bs: seq<RawBlock>, rest: seq<Byte>)
    requires |out| <= PAGE && Decode(s, out).None?
    ensures RawsOk(bs) && s == RawStream(bs) + rest && |out| + |RawPage(bs)| < PAGE && Stuck(rest)
    decreases |s|
  {
    hide Decode, Block, RawBytes, RawExpand, RawOk, Stuck;
    if |out| == PAGE { FullPage(s, out); }
    EndOfInput(out);
    DecodeTurn(s, out);
    StuckExactly(s, out);
    if Block(s, out).None? {
      bs, rest := [], s;
      assert RawStream([]) + s == s;
    } else {
      var b := FirstBlock(s, out);
      var tail := s[|RawBytes(b)|..];
      assert s == RawBytes(b) + tail;
      NotEmpty(b);
      BlockRead(b, tail, out);
      if |out| + |RawExpand(b)| > PAGE { FullPage(Block(s, out).value.rest, Block(s, out).value.out); }
      var more;
      more, rest := Refusal(tail, out + RawExpand(b));
      bs := [b] + more;
      assert bs[1..] == more;
      assert RawBytes(b) + (RawStream(more) + rest) == RawBytes(b) + RawStream(more) + rest;
    }
  }
}
