/** The zRAM page codec: the tokens the compressor chooses, their byte encoding, and the decoder. */
module ZramCodec {
  import opened Bitmap
  import opened Options

  const PAGE: nat := 4096
  const TAG_ZEROS: Byte := 1
  const TAG_RUN: Byte := 2

  datatype Token = Zeros(n: nat) | Run(n: nat, v: Byte) | Lit(bytes: seq<Byte>)

  predicate TokenOk(t: Token) {
    match t
    case Zeros(n) => 0 < n < 256
    case Run(n, _) => 0 < n < 256
    case Lit(bytes) => 0 < |bytes| < 128
  }

  function Repeat(v: Byte, n: nat): seq<Byte> {
    seq(n, i => v)
  }

  /** The page bytes that a token stands for. */
  function Expand(t: Token): seq<Byte> {
    match t
    case Zeros(n) => Repeat(0, n)
    case Run(n, v) => Repeat(v, n)
    case Lit(bytes) => bytes
  }

  function ExpandAll(ts: seq<Token>): seq<Byte> {
    if ts == [] then [] else Expand(ts[0]) + ExpandAll(ts[1..])
  }

  /** The bytes written for a token. A literal is tagged with its bare length. */
  function Encoded(t: Token): seq<Byte>
    requires TokenOk(t)
  {
    match t
    case Zeros(n) => [TAG_ZEROS, n]
    case Run(n, v) => [TAG_RUN, n, v]
    case Lit(bytes) => [|bytes| % 128] + bytes
  }

  ghost predicate TokensOk(ts: seq<Token>) {
    forall t :: t in ts ==> TokenOk(t)
  }

  function Stream(ts: seq<Token>): seq<Byte>
    requires TokensOk(ts)
  {
    if ts == [] then [] else Encoded(ts[0]) + Stream(ts[1..])
  }

  // ----- compressor -----

  /** The length of the run of `v` at `i`, at most 255, of which `run` bytes are already counted. */
  function RunLength(src: seq<Byte>, i: nat, v: Byte, run: nat): (r: nat)
    requires i + run <= |src| && run <= 255
    ensures run <= r <= 255 && i + r <= |src|
    ensures forall j :: i + run <= j < i + r ==> src[j] == v
    ensures r == 255 || i + r == |src| || src[i + r] != v
    decreases 255 - run
  {
    if i + run < |src| && src[i + run] == v && run < 255 then RunLength(src, i, v, run + 1) else run
  }

  /** Four zeros that end a literal; the last four bytes of a page never do. */
  predicate ZerosAhead(src: seq<Byte>, i: nat) {
    i + 4 < |src| && src[i] == 0 && src[i + 1] == 0 && src[i + 2] == 0 && src[i + 3] == 0
  }

  function LiteralLength(src: seq<Byte>, i: nat, cap: nat, len: nat): (r: nat)
    requires i + len <= |src| && len <= cap
    ensures len <= r <= cap && i + r <= |src|
    ensures r == cap || i + r == |src| || ZerosAhead(src, i + r)
    ensures r > len ==> !ZerosAhead(src, i + len)
    ensures i + len < |src| && len < cap && !ZerosAhead(src, i + len) ==> r > len
    decreases cap - len
  {
    if i + len < |src| && len < cap && !ZerosAhead(src, i + len) then LiteralLength(src, i, cap, len + 1) else len
  }

  function LiteralCap(o: nat, max: nat): nat
    requires o < max
  {
    if max - o - 1 > 127 then 127 else max - o - 1
  }

  /** The token chosen at input `i` when `o` of `max` output bytes are written. */
  function Next(src: seq<Byte>, i: nat, o: nat, max: nat): (t: Token)
    requires i < |src| && o + 4 < max
    ensures TokenOk(t) && 0 < |Expand(t)| <= |src| - i && Expand(t) == src[i..i + |Expand(t)|]
  {
    var zeros := if src[i] == 0 then RunLength(src, i, 0, 0) else 0;
    if zeros >= 4 then Zeros(zeros) else
    var run := RunLength(src, i, src[i], 0);
    if run >= 6 then Run(run, src[i]) else
    Lit(src[i..i + LiteralLength(src, i, LiteralCap(o, max), 0)])
  }

  /** The tokens from input `i` on; none when the output buffer is too small. */
  function Encode(src: seq<Byte>, i: nat, o: nat, max: nat): (r: Option<seq<Token>>)
    requires i <= |src|
    ensures r.Some? ==> TokensOk(r.value)
    decreases |src| - i
  {
    if i == |src| then Some([])
    else if o + 4 >= max then None
    else
      var t := Next(src, i, o, max);
      var rest := Encode(src, i + |Expand(t)|, o + |Encoded(t)|, max);
      if rest.None? then None else Some([t] + rest.value)
  }

  /** One turn of the main loop. */
  lemma EncodeTurn(src: seq<Byte>, i: nat, o: nat, max: nat)
    requires i < |src| && o + 4 < max
    ensures var t := Next(src, i, o, max);
            var rest := Encode(src, i + |Expand(t)|, o + |Encoded(t)|, max);
            Encode(src, i, o, max) == if rest.None? then None else Some([t] + rest.value)
  {
    hide Next, Expand, Encoded;
  }

  lemma StreamCons(t: Token, ts: seq<Token>)
    requires TokenOk(t) && TokensOk(ts)
    ensures TokensOk([t] + ts) && Stream([t] + ts) == Encoded(t) + Stream(ts)
  {
    hide Encoded, TokenOk;
    assert ([t] + ts)[1..] == ts;
  }

  /** Read as tokens, the output always stands for the whole page. */
  lemma {:induction false} EncodeExpands(src: seq<Byte>, i: nat, o: nat, max: nat)
    requires i <= |src| && Encode(src, i, o, max).Some?
    ensures ExpandAll(Encode(src, i, o, max).value) == src[i..]
    decreases |src| - i
  {
    hide Next, Expand, Encoded;
    if i < |src| {
      var t := Next(src, i, o, max);
      EncodeExpands(src, i + |Expand(t)|, o + |Encoded(t)|, max);
    }
  }

  // ----- decoder -----

  /** The size of a literal, from its tag. */
  function LiteralSize(tag: Byte): (n: nat)
    ensures n < 128 && (tag < 128 ==> n == tag) && (tag >= 128 ==> n == tag - 128)
  {
    tag % 128
  }

  /** How many of `count` bytes still fit on a page of which `have` bytes are written. */
  function Clip(count: nat, have: nat): (n: nat)
    requires have <= PAGE
    ensures n <= count && have + n <= PAGE && (n == count || have + n == PAGE)
  {
    if count < PAGE - have then count else PAGE - have
  }

  function Fill(out: seq<Byte>, v: Byte, count: nat): seq<Byte>
    requires |out| <= PAGE
  {
    out + Repeat(v, Clip(count, |out|))
  }

  /** What is left of the stream, and what is written. */
  datatype Progress = Progress(rest: seq<Byte>, out: seq<Byte>)

  /** One block of the stream. */
  function Block(s: seq<Byte>, out: seq<Byte>): (r: Option<Progress>)
    requires s != [] && |out| <= PAGE
    ensures r.Some? ==> |r.value.rest| < |s| && |r.value.out| <= PAGE
  {
    if s[0] == TAG_ZEROS then
      if |s| < 2 then None else Some(Progress(s[2..], Fill(out, 0, s[1])))
    else if s[0] == TAG_RUN then
      if |s| < 3 then None else Some(Progress(s[3..], Fill(out, s[2], s[1])))
    else
      var len := LiteralSize(s[0]);
      if len == 0 || 1 + len > |s| then None
      else
        var take := Clip(len, |out|);
        Some(Progress(s[1 + take..], out + s[1..1 + take]))
  }

  /** The decoder on the rest `s` of a stream, with `out` already written. */
  function Decode(s: seq<Byte>, out: seq<Byte>): (r: Option<seq<Byte>>)
    requires |out| <= PAGE
    ensures r.Some? ==> |r.value| == PAGE
    decreases |s|
  {
    if s == [] || |out| == PAGE then Some(Fill(out, 0, PAGE))
    else
      match Block(s, out)
      case None => None
      case Some(p) => Decode(p.rest, p.out)
  }

  /** The main loop of the decoder: the unread input and the output when it ends. */
  function LoopExit(s: seq<Byte>, out: seq<Byte>): (r: Option<Progress>)
    requires |out| <= PAGE
    ensures r.Some? ==> |r.value.out| <= PAGE
    decreases |s|
  {
    if s == [] || |out| == PAGE then Some(Progress(s, out))
    else
      match Block(s, out)
      case None => None
      case Some(p) => LoopExit(p.rest, p.out)
  }

  /** After the main loop the decoder pads with zeros. */
  lemma {:induction false} LoopThenPad(s: seq<Byte>, out: seq<Byte>)
    requires |out| <= PAGE
    ensures Decode(s, out) == match LoopExit(s, out)
                              case None => None
                              case Some(p) => Some(Fill(p.out, 0, PAGE))
    decreases |s|
  {
    hide Block, Fill;
    if s != [] && |out| < PAGE && Block(s, out).Some? {
      LoopThenPad(Block(s, out).value.rest, Block(s, out).value.out);
    }
  }

  /** A token whose encoding can be mistaken for another tag. */
  predicate Short(t: Token) {
    t.Lit? && |t.bytes| <= 2
  }

  lemma DecodeZeros(n: Byte, rest: seq<Byte>, out: seq<Byte>)
    requires |out| < PAGE
    ensures Decode([TAG_ZEROS, n] + rest, out) == Decode(rest, Fill(out, 0, n))
  {
    assert ([TAG_ZEROS, n] + rest)[2..] == rest;
  }

  lemma DecodeRun(n: Byte, v: Byte, rest: seq<Byte>, out: seq<Byte>)
    requires |out| < PAGE
    ensures Decode([TAG_RUN, n, v] + rest, out) == Decode(rest, Fill(out, v, n))
  {
    assert ([TAG_RUN, n, v] + rest)[3..] == rest;
  }

  lemma DecodeLiteral(bytes: seq<Byte>, rest: seq<Byte>, out: seq<Byte>)
    requires 2 < |bytes| < 128 && |out| + |bytes| <= PAGE
    ensures Decode([|bytes|] + bytes + rest, out) == Decode(rest, out + bytes)
  {
    var s := [|bytes|] + bytes + rest;
    assert s[1..1 + |bytes|] == bytes;
    assert s[1 + |bytes|..] == rest;
  }

  lemma DecodeToken(t: Token, rest: seq<Byte>, out: seq<Byte>)
    requires TokenOk(t) && !Short(t) && |out| + |Expand(t)| <= PAGE
    ensures Decode(Encoded(t) + rest, out) == Decode(rest, out + Expand(t))
  {
    hide Decode;
    match t
    case Zeros(n) => DecodeZeros(n, rest, out);
    case Run(n, v) => DecodeRun(n, v, rest, out);
    case Lit(bytes) => DecodeLiteral(bytes, rest, out);
  }

  /** A token that cannot be mistaken is read as one block. */
  lemma TokenBlock(t: Token, rest: seq<Byte>, out: seq<Byte>)
    requires TokenOk(t) && !Short(t) && |out| + |Expand(t)| <= PAGE
    ensures Block(Encoded(t) + rest, out) == Some(Progress(rest, out + Expand(t)))
  {
    var s := Encoded(t) + rest;
    match t
    case Zeros(n) => assert s[2..] == rest;
    case Run(n, v) => assert s[3..] == rest;
    case Lit(bytes) =>
      assert s[1..1 + |bytes|] == bytes;
      assert s[1 + |bytes|..] == rest;
  }

  /** Tokens without short literals decode to the page bytes they stand for: the main loop ends with
      the stream, with exactly these bytes written. */
  lemma {:induction false} DecodeStream(ts: seq<Token>, out: seq<Byte>)
    requires TokensOk(ts) && (forall t :: t in ts ==> !Short(t))
    requires |out| + |ExpandAll(ts)| <= PAGE
    ensures LoopExit(Stream(ts), out) == Some(Progress([], out + ExpandAll(ts)))
  {
    hide Expand, Encoded, Short, Block, TokenOk;
    if ts == [] {
      assert out + [] == out;
    } else {
      var rest := Stream(ts[1..]);
      TokenBlock(ts[0], rest, out);
      TokenSome(ts[0]);
      DecodeStream(ts[1..], out + Expand(ts[0]));
      assert out + Expand(ts[0]) + ExpandAll(ts[1..]) == out + ExpandAll(ts);
    }
  }

  lemma TokenSome(t: Token)
    requires TokenOk(t)
    ensures 0 < |Expand(t)| && 0 < |Encoded(t)|
  {
  }

  /** A page whose tokens include no literal of length 1 or 2 decompresses to itself, and the stream
      ends exactly with the last byte of the page: no input is left, and nothing is padded. */
  lemma PlainRoundTrip(src: seq<Byte>, max: nat)
    requires |src| == PAGE && Encode(src, 0, 0, max).Some? && forall t :: t in Encode(src, 0, 0, max).value ==> !Short(t)
    ensures var s := Stream(Encode(src, 0, 0, max).value);
            LoopExit(s, []) == Some(Progress([], src)) && Decode(s, []) == Some(src)
  {
    hide Encode, Stream, ExpandAll, LoopExit, Decode, Short;
    var ts := Encode(src, 0, 0, max).value;
    EncodeExpands(src, 0, 0, max);
    DecodeStream(ts, []);
    LoopThenPad(Stream(ts), []);
    assert src[0..] == src && [] + src == src;
    assert Fill(src, 0, PAGE) == src;
  }
}
