/** Exactly which pages survive compression and decompression. */
module ZramExact {
  import opened Bitmap
  import opened Options
  import opened ZramCodec

  /** A short literal that the decoder happens to get right: two bytes 2, read as a run of two
      bytes 2; or, at the end of the page, zeros, which the final padding supplies, or a pair of equal
      bytes from 2 up, read as a run that the end of the page cuts off. */
  predicate Benign(bytes: seq<Byte>, last: bool) {
    || bytes == [2, 2]
    || (last && (bytes == [0] || bytes == [0, 0] || (|bytes| == 2 && bytes[0] == bytes[1] >= 2)))
  }

  /** Every short literal among the tokens is benign. */
  predicate Faithful(ts: seq<Token>) {
    ts == [] || ((Short(ts[0]) ==> Benign(ts[0].bytes, |ts| == 1)) && Faithful(ts[1..]))
  }

  /** What follows a short literal: the end of the page, or four zeros; and then the literal itself
      is not made of zeros only. */
  lemma ShortLiteral(src: seq<Byte>, i: nat, o: nat, max: nat)
    requires i < |src| && o + 4 < max && Short(Next(src, i, o, max))
    ensures var j := i + |Next(src, i, o, max).bytes|;
            && (j == |src| || ZerosAhead(src, j))
            && (ZerosAhead(src, j) && src[i] == 0 ==> j == i + 2 && src[i + 1] != 0)
  {
    var r := RunLength(src, i, 0, 0);
    assert i + r < |src| && src[i] == 0 ==> src[i + r] != 0 || r == 255;
  }

  /** Where four zeros lie ahead, the next token is a run of at least four zeros. */
  lemma ZerosToken(src: seq<Byte>, i: nat, o: nat, max: nat)
    requires ZerosAhead(src, i) && o + 4 < max
    ensures Next(src, i, o, max).Zeros? && Next(src, i, o, max).n >= 4
  {
    var r := RunLength(src, i, 0, 0);
    assert r != 0 && r != 1 && r != 2 && r != 3;
  }

  /** Once a byte of the output differs from the page, it stays different. */
  lemma Diverged(s: seq<Byte>, out: seq<Byte>, src: seq<Byte>, k: nat)
    requires |src| == PAGE && k < |out| <= PAGE && out[k] != src[k]
    ensures Decode(s, out) != Some(src)
  {
  }

  /** A short literal of one byte, and the rest of the stream. */
  lemma OneByte(src: seq<Byte>, i: nat, x: Byte, rest: seq<Byte>)
    requires |src| == PAGE && i < PAGE && src[i] == x
    ensures x > 0 ==> Decode([TAG_ZEROS, x] + rest, src[..i]) != Some(src)
    ensures x == 0 && i + 1 == PAGE && rest == [] ==> Decode([TAG_ZEROS, x] + rest, src[..i]) == Some(src)
  {
    hide Decode;
    var out := Fill(src[..i], 0, x);
    DecodeZeros(x, rest, src[..i]);
    if x > 0 {
      Diverged(rest, out, src, i);
    } else if i + 1 == PAGE && rest == [] {
      assert out == src[..i];
      PadTail(src, i);
    }
  }

  /** An exhausted stream is padded with zeros. */
  lemma PadTail(src: seq<Byte>, i: nat)
    requires |src| == PAGE && i <= PAGE
    ensures Decode([], src[..i]) == Some(src) <==> forall k :: i <= k < PAGE ==> src[k] == 0
  {
    var out := src[..i] + Repeat(0, PAGE - i);
    assert Decode([], src[..i]) == Some(out);
    if forall k :: i <= k < PAGE ==> src[k] == 0 {
      assert out == src;
    } else {
      var k :| i <= k < PAGE && src[k] != 0;
      assert out[k] == 0;
    }
  }

  lemma ZerosDiverge(src: seq<Byte>, i: nat, k: nat, n: Byte, rest: seq<Byte>)
    requires |src| == PAGE && i <= k < PAGE && k < i + n && src[k] != 0
    ensures Decode([TAG_ZEROS, n] + rest, src[..i]) != Some(src)
  {
    hide Decode;
    DecodeZeros(n, rest, src[..i]);
    Diverged(rest, Fill(src[..i], 0, n), src, k);
  }

  /** The rest of a stream after a short literal: empty at the end of the page, or else a run of zeros. */
  ghost predicate RestAfter(src: seq<Byte>, j: nat, rest: seq<Byte>) {
    if j == |src| then rest == []
    else j < |src| && src[j] == 0 && exists n: Byte, more: seq<Byte> :: n >= 4 && rest == [TAG_ZEROS, n] + more
  }

  /** The two bytes `x`, `y` at the output position `i`, read as a run of `x` bytes `y`. */
  lemma TwoBytesMany(src: seq<Byte>, i: nat, rest: seq<Byte>)
    requires |src| == PAGE && i + 2 <= PAGE && RestAfter(src, i + 2, rest) && src[i] >= 2
    requires src[i] != 2 || src[i + 1] != 2
    ensures Decode([TAG_RUN, src[i], src[i + 1]] + rest, src[..i]) == Some(src)
            <==> Benign([src[i], src[i + 1]], i + 2 == PAGE)
  {
    hide Decode;
    var x, y := src[i], src[i + 1];
    var out := Fill(src[..i], y, x);
    DecodeRun(x, y, rest, src[..i]);
    if x != y {
      Diverged(rest, out, src, i);
    } else if i + 2 == PAGE {
      assert out == src == src[..PAGE];
      PadTail(src, PAGE);
    } else {
      Diverged(rest, out, src, i + 2);
    }
  }

  lemma TwoBytesFew(src: seq<Byte>, i: nat, rest: seq<Byte>)
    requires |src| == PAGE && i + 2 <= PAGE && RestAfter(src, i + 2, rest) && src[i] < 2
    requires i + 2 < PAGE && src[i] == 0 ==> src[i + 1] != 0
    ensures Decode([TAG_RUN, src[i], src[i + 1]] + rest, src[..i]) == Some(src)
            <==> Benign([src[i], src[i + 1]], i + 2 == PAGE)
  {
    hide Decode;
    var x, y := src[i], src[i + 1];
    var out := Fill(src[..i], y, x);
    DecodeRun(x, y, rest, src[..i]);
    if x == 1 && y != 1 {
      Diverged(rest, out, src, i);
    } else {
      assert out == src[..i + x];
      if i + 2 == PAGE {
        PadTail(src, i + x);
      } else {
        var n: Byte, more: seq<Byte> :| n >= 4 && rest == [TAG_ZEROS, n] + more;
        ZerosDiverge(src, i + x, i + 1, n, more);
      }
    }
  }

  /** The short literal at `i` decodes to the page exactly when it is benign. */
  lemma ShortExact(src: seq<Byte>, i: nat, bytes: seq<Byte>, rest: seq<Byte>)
    requires |src| == PAGE && i + |bytes| <= PAGE && 1 <= |bytes| <= 2 && bytes == src[i..i + |bytes|]
    requires bytes != [2, 2] && RestAfter(src, i + |bytes|, rest)
    requires i + |bytes| < PAGE && src[i] == 0 ==> |bytes| == 2 && bytes[1] != 0
    ensures Decode([|bytes|] + bytes + rest, src[..i]) == Some(src) <==> Benign(bytes, i + |bytes| == PAGE)
  {
    hide Decode;
    if |bytes| == 1 {
      assert bytes == [src[i]];
      assert [|bytes|] + bytes == [TAG_ZEROS, src[i]];
      OneByte(src, i, src[i], rest);
    } else {
      assert bytes == [src[i], src[i + 1]];
      assert [|bytes|] + bytes == [TAG_RUN, src[i], src[i + 1]];
      if src[i] < 2 { TwoBytesFew(src, i, rest); } else { TwoBytesMany(src, i, rest); }
    }
  }

  lemma TwoTwos(src: seq<Byte>, i: nat, rest: seq<Byte>)
    requires |src| == PAGE && i + 2 <= PAGE && src[i..i + 2] == [2, 2]
    ensures Decode([2] + [2, 2] + rest, src[..i]) == Decode(rest, src[..i + 2])
  {
    hide Decode;
    assert [2] + [2, 2] + rest == [TAG_RUN, 2, 2] + rest;
    DecodeRun(2, 2, rest, src[..i]);
    assert src[i] == src[i..i + 2][0] && src[i + 1] == src[i..i + 2][1];
    assert Fill(src[..i], 2, 2) == src[..i + 2];
  }

  lemma RestAfterShort(src: seq<Byte>, j: nat, o: nat, max: nat)
    requires j <= |src| && (j == |src| || ZerosAhead(src, j)) && Encode(src, j, o, max).Some?
    ensures var ts := Encode(src, j, o, max).value;
            RestAfter(src, j, Stream(ts)) && (ts == [] <==> j == |src|)
  {
    if j < |src| {
      var t := Next(src, j, o, max);
      ZerosToken(src, j, o, max);
      var ts := Encode(src, j, o, max).value;
      assert ts[0] == t;
      assert Stream(ts) == [TAG_ZEROS, t.n as Byte] + Stream(ts[1..]);
    }
  }

  lemma EncodeRoom(src: seq<Byte>, i: nat, o: nat, max: nat)
    requires i < |src| && Encode(src, i, o, max).Some?
    ensures o + 4 < max
  {
    hide Next, Encoded, Expand;
  }

  /** One step of the compressor: the token, and the tokens of the rest of the page. */
  lemma EncodeStep(src: seq<Byte>, i: nat, o: nat, max: nat) returns (t: Token, rest: seq<Token>)
    requires i < |src| && Encode(src, i, o, max).Some?
    ensures TokenOk(t) && TokensOk(rest) && 0 < |Expand(t)| <= |src| - i
    ensures Encode(src, i, o, max).value == [t] + rest
    ensures Encode(src, i + |Expand(t)|, o + |Encoded(t)|, max) == Some(rest)
    ensures TokensOk([t] + rest) && Stream([t] + rest) == Encoded(t) + Stream(rest)
    ensures src[..i] + Expand(t) == src[..i + |Expand(t)|]
    ensures o + 4 < max && t == Next(src, i, o, max)
  {
    hide Next, Encoded, Encode, Stream, TokenOk, Expand;
    EncodeRoom(src, i, o, max);
    t := Next(src, i, o, max);
    EncodeTurn(src, i, o, max);
    rest := Encode(src, i + |Expand(t)|, o + |Encoded(t)|, max).value;
    StreamCons(t, rest);
  }

  /** A page survives the round trip exactly when every short literal among its tokens is benign. */
  lemma {:induction false} ExactFrom(src: seq<Byte>, i: nat, o: nat, max: nat)
    requires |src| == PAGE && i <= PAGE && Encode(src, i, o, max).Some?
    ensures var ts := Encode(src, i, o, max).value;
            Decode(Stream(ts), src[..i]) == Some(src) <==> Faithful(ts)
    decreases PAGE - i
  {
    hide Decode, Next, Benign, Encode, Encoded, Expand, Stream;
    var ts := Encode(src, i, o, max).value;
    if i == PAGE {
      EncodeEnd(src, o, max);
      PadTail(src, PAGE);
    } else {
      var t, rest := EncodeStep(src, i, o, max);
      var j, p := i + |Expand(t)|, o + |Encoded(t)|;
      assert ts[1..] == rest;
      ExactFrom(src, j, p, max);
      if !Short(t) {
        DecodeToken(t, Stream(rest), src[..i]);
      } else {
        ShortBytes(t);
        ShortLiteral(src, i, o, max);
        RestAfterShort(src, j, p, max);
        assert t.bytes == src[..j][i..];
        ShortStep(src, i, t.bytes, rest);
      }
    }
  }

  lemma EncodeEnd(src: seq<Byte>, o: nat, max: nat)
    ensures Encode(src, |src|, o, max) == Some([]) && Stream([]) == []
  {
  }

  lemma ShortBytes(t: Token)
    requires TokenOk(t) && Short(t)
    ensures Expand(t) == t.bytes && Encoded(t) == [|t.bytes|] + t.bytes
  {
  }

  lemma ShortStep(src: seq<Byte>, i: nat, bytes: seq<Byte>, rest: seq<Token>)
    requires |src| == PAGE && i + |bytes| <= PAGE && 1 <= |bytes| <= 2 && bytes == src[i..i + |bytes|]
    requires TokensOk(rest) && (rest == [] <==> i + |bytes| == PAGE)
    requires RestAfter(src, i + |bytes|, Stream(rest))
    requires i + |bytes| < PAGE && src[i] == 0 ==> |bytes| == 2 && src[i + 1] != 0
    requires Decode(Stream(rest), src[..i + |bytes|]) == Some(src) <==> Faithful(rest)
    ensures Decode([|bytes|] + bytes + Stream(rest), src[..i]) == Some(src)
            <==> Benign(bytes, rest == []) && Faithful(rest)
  {
    hide Decode;
    if bytes == [2, 2] {
      TwoTwos(src, i, Stream(rest));
    } else {
      ShortExact(src, i, bytes, Stream(rest));
      assert Benign(bytes, rest == []) ==> rest == [];
    }
  }

  /** `zram_decompress_page(zram_compress_page(page))` is the page if and only if the tokens are faithful. */
  lemma Exact(src: seq<Byte>, max: nat)
    requires |src| == PAGE && Encode(src, 0, 0, max).Some?
    ensures var ts := Encode(src, 0, 0, max).value;
            Decode(Stream(ts), []) == Some(src) <==> Faithful(ts)
  {
    ExactFrom(src, 0, 0, max);
    assert src[..0] == [];
  }

  /** In particular every page without short literals survives. */
  lemma {:induction false} PlainIsFaithful(ts: seq<Token>)
    requires forall t :: t in ts ==> !Short(t)
    ensures Faithful(ts)
  {
    if ts != [] { PlainIsFaithful(ts[1..]); }
  }

  // ----- a page that does not survive -----

  /** The byte 5 followed by zeros. */
  function LostPage(): seq<Byte> {
    [5] + Repeat(0, PAGE - 1)
  }

  lemma ZerosNext(src: seq<Byte>, i: nat, o: nat, max: nat)
    requires |src| == PAGE && i + 4 <= PAGE && o + 4 < max
    requires forall k :: i <= k < PAGE ==> src[k] == 0
    ensures Next(src, i, o, max) == Zeros(if PAGE - i < 255 then PAGE - i else 255)
  {
  }

  /** A page that is zero from `i` on ends in runs of 255 zeros and a shorter one. */
  lemma {:induction false} ZeroTail(src: seq<Byte>, i: nat, o: nat, max: nat, runs: nat)
    requires |src| == PAGE && 15 <= PAGE - i == 255 * runs + 15
    requires forall k :: i <= k < PAGE ==> src[k] == 0
    requires o + 2 * runs + 6 < max
    ensures Encode(src, i, o, max).Some?
    ensures var ts := Encode(src, i, o, max).value;
            |Stream(ts)| == 2 * runs + 2 && forall t :: t in ts ==> t.Zeros?
    decreases runs
  {
    hide Next, Encode, Stream;
    ZerosNext(src, i, o, max);
    EncodeTurn(src, i, o, max);
    if runs > 0 {
      ZeroTail(src, i + 255, o + 2, max, runs - 1);
      StreamCons(Zeros(255), Encode(src, i + 255, o + 2, max).value);
    } else {
      EncodeEnd(src, o + 2, max);
      StreamCons(Zeros(15), []);
    }
  }

  lemma LostPageTokens()
    ensures var r := Encode(LostPage(), 0, 0, PAGE);
            && r.Some? && |r.value| > 0 && r.value[0] == Lit([5])
            && |Stream(r.value)| == 36 && forall t :: t in r.value[1..] ==> t.Zeros?
  {
    var src := LostPage();
    ZeroTail(src, 1, 2, PAGE, 16);
    var r := Encode(src, 0, 0, PAGE);
    assert Next(src, 0, 0, PAGE) == Lit([5]);
    assert r.value[1..] == Encode(src, 1, 2, PAGE).value;
  }

  /** The page of byte 5 and zeros compresses to 36 bytes and comes back, without an error, as zeros. */
  lemma LostPageIsLost()
    ensures var r := Encode(LostPage(), 0, 0, PAGE);
            && r.Some? && |Stream(r.value)| == 36
            && Decode(Stream(r.value), []) == Some(Repeat(0, PAGE))
            && !Faithful(r.value) && LostPage() != Repeat(0, PAGE)
  {
    hide Decode, Encode;
    LostPageTokens();
    var ts := Encode(LostPage(), 0, 0, PAGE).value;
    assert Stream(ts) == [TAG_ZEROS, 5] + Stream(ts[1..]);
    DecodeZeros(5, Stream(ts[1..]), []);
    assert Fill([], 0, 5) == Repeat(0, 5);
    ZerosOnly(ts[1..], 5);
    assert LostPage()[0] == 5 && Repeat(0, PAGE)[0] == 0;
  }

  lemma {:induction false} ZerosOnly(ts: seq<Token>, n: nat)
    requires TokensOk(ts) && n <= PAGE && forall t :: t in ts ==> t.Zeros?
    ensures Decode(Stream(ts), Repeat(0, n)) == Some(Repeat(0, PAGE))
  {
    hide Decode;
    if ts == [] || n == PAGE {
      DecodeEnd(Stream(ts), Repeat(0, n));
      assert Repeat(0, n) + Repeat(0, PAGE - n) == Repeat(0, PAGE);
    } else {
      assert TokenOk(ts[0]);
      var k := ts[0].n;
      DecodeZeros(k, Stream(ts[1..]), Repeat(0, n));
      var m := if n + k < PAGE then n + k else PAGE;
      assert Fill(Repeat(0, n), 0, k) == Repeat(0, m);
      ZerosOnly(ts[1..], m);
    }
  }

  lemma DecodeEnd(s: seq<Byte>, out: seq<Byte>)
    requires |out| <= PAGE && (s == [] || |out| == PAGE)
    ensures Decode(s, out) == Some(out + Repeat(0, PAGE - |out|))
  {
  }
}
