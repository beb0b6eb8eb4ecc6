/** The keyboard ring buffer between an interrupt handler and a polling reader. */
module Keyboard {
  import opened Bitmap

  const SIZE: nat := 32

  /** US QWERTY, scancode set 1; codes beyond the table and unassigned codes give 0. */
  const TABLE: seq<Byte> :=
    [0, 27, 49, 50, 51, 52, 53, 54, 55, 56] + [57, 48, 45, 61, 8]
    + [9, 113, 119, 101, 114, 116, 121, 117, 105, 111] + [112, 91, 93, 10, 0]
    + [97, 115, 100, 102, 103, 104, 106, 107, 108, 59] + [39, 96, 0, 92, 122, 120, 99, 118, 98, 110]
    + [109, 44, 46, 47, 0, 42] + [0, 32, 0]

  function Ascii(code: nat): Byte {
    if code < |TABLE| then TABLE[code] else 0
  }

  /** From the scancode `code` on, the keys give the characters of `s`. */
  predicate Row(code: nat, s: string) {
    forall i {:trigger s[i]} :: 0 <= i < |s| ==> Ascii(code + i) as int == s[i] as int
  }

  // The layout, row by row.

  lemma DigitsRow()
    ensures Row(0x02, "1234567890-=")
  {
    var s := "1234567890-=";
    forall i | 0 <= i < |s| ensures Ascii(0x02 + i) as int == s[i] as int {
      assert i == 0 || i == 1 || i == 2 || i == 3 || i == 4 || i == 5 || i == 6 || i == 7 || i == 8 || i == 9 || i == 10 || i == 11;
    }
  }

  lemma UpperRow()
    ensures Row(0x10, "qwertyuiop[]")
  {
    var s := "qwertyuiop[]";
    forall i | 0 <= i < |s| ensures Ascii(0x10 + i) as int == s[i] as int {
      assert i == 0 || i == 1 || i == 2 || i == 3 || i == 4 || i == 5 || i == 6 || i == 7 || i == 8 || i == 9 || i == 10 || i == 11;
    }
  }

  lemma HomeRow()
    ensures Row(0x1E, "asdfghjkl;'`")
  {
    var s := "asdfghjkl;'`";
    forall i | 0 <= i < |s| ensures Ascii(0x1E + i) as int == s[i] as int {
      assert i == 0 || i == 1 || i == 2 || i == 3 || i == 4 || i == 5 || i == 6 || i == 7 || i == 8 || i == 9 || i == 10 || i == 11;
    }
  }

  lemma LowerRow()
    ensures Row(0x2B, "\\zxcvbnm,./")
  {
    var s := "\\zxcvbnm,./";
    forall i | 0 <= i < |s| ensures Ascii(0x2B + i) as int == s[i] as int {
      assert i == 0 || i == 1 || i == 2 || i == 3 || i == 4 || i == 5 || i == 6 || i == 7 || i == 8 || i == 9 || i == 10;
    }
  }

  lemma OtherKeys(c: nat)
    ensures Ascii(0x01) == 27 && Ascii(0x0E) == 8 && Ascii(0x0F) as int == '\t' as int && Ascii(0x1C) as int == '\n' as int
    ensures Ascii(0x37) as int == '*' as int && Ascii(0x39) as int == ' ' as int
    ensures c in {0x00, 0x1D, 0x2A, 0x36, 0x38} || c >= 0x3A ==> Ascii(c) == 0
  {
  }

  /** US QWERTY: the character of every key, by rows; the remaining codes give none. */
  lemma Layout()
    ensures Row(0x02, "1234567890-=") && Row(0x10, "qwertyuiop[]")
    ensures Row(0x1E, "asdfghjkl;'`") && Row(0x2B, "\\zxcvbnm,./")
    ensures Ascii(0x01) == 27 && Ascii(0x0E) == 8 && Ascii(0x0F) as int == '\t' as int && Ascii(0x1C) as int == '\n' as int
    ensures Ascii(0x37) as int == '*' as int && Ascii(0x39) as int == ' ' as int
    ensures forall c: nat {:trigger Ascii(c)} :: c in {0x00, 0x1D, 0x2A, 0x36, 0x38} || c >= 0x3A ==> Ascii(c) == 0
  {
    hide Row, Ascii;
    DigitsRow();
    UpperRow();
    HomeRow();
    LowerRow();
    OtherKeys(0);
    forall c: nat | c in {0x00, 0x1D, 0x2A, 0x36, 0x38} || c >= 0x3A ensures Ascii(c) == 0 { OtherKeys(c); }
  }

  /** The index after `i` in the ring. */
  function Advance(i: nat): (r: nat)
    ensures r < SIZE
  {
    (i + 1) % SIZE
  }

  /** The slot of the character number `n`. */
  function Slot(n: nat): (r: nat)
    ensures r < SIZE
  {
    n % SIZE
  }

  lemma SlotNext(n: nat)
    ensures Advance(Slot(n)) == Slot(n + 1)
  {
  }

  lemma SlotsApart(i: nat, j: nat)
    requires i <= j < i + SIZE
    ensures Slot(i) == Slot(j) <==> i == j
    ensures Slot(i + SIZE) == Slot(i)
  {
  }

  datatype Ring = Ring(buf: seq<Byte>, head: nat, tail: nat)

  /** The character that the handler stores for a scancode, if there is room; 0 for none. */
  function Accepted(r: Ring, code: Byte): Byte {
    if code >= 128 || Advance(r.head) == r.tail then 0 else Ascii(code)
  }

  /** `keyboard_handler`. */
  function Handle(r: Ring, code: Byte): Ring
    requires r.head < |r.buf|
  {
    var c := Accepted(r, code);
    if c == 0 then r else
    var buf: seq<Byte> := r.buf[r.head := c];
    Ring(buf, Advance(r.head), r.tail)
  }

  // ----- interleaving -----

  /** Where the reader stands inside `keyboard_getchar`: before it, after reading `kbd_head`, or with
      the character fetched and `kbd_tail` not yet advanced. */
  datatype Reader = Outside | SawHead(head: nat) | Fetched(c: Byte)

  /** `accepted` and `returned` record what the handler stored and what `keyboard_getchar` returned so
      far, `seen` how many characters were accepted when the reader last looked at `kbd_head`. */
  datatype State = State(ring: Ring, reader: Reader, accepted: seq<Byte>, returned: seq<Byte>, seen: nat)

  /** An interrupt between any two steps of the reader, or one step of the reader. */
  datatype Event = Interrupt(code: Byte) | ReaderStep

  ghost predicate Inv(s: State) {
    var n, m := |s.returned|, |s.accepted|;
    && |s.ring.buf| == SIZE && s.ring.head == Slot(m) && s.ring.tail == Slot(n)
    && n <= m < n + SIZE && s.returned == s.accepted[..n]
    && (forall i {:trigger s.accepted[i]} :: n <= i < m ==> s.ring.buf[Slot(i)] == s.accepted[i])
    && match s.reader
       case Outside => true
       case SawHead(h) => n <= s.seen <= m && h == Slot(s.seen)
       case Fetched(c) => n < m && c == s.accepted[n]
  }

  function Step(s: State, e: Event): State
    requires Inv(s)
  {
    match e
    case Interrupt(code) =>
      var c := Accepted(s.ring, code);
      s.(ring := Handle(s.ring, code), accepted := if c == 0 then s.accepted else s.accepted + [c])
    case ReaderStep =>
      match s.reader
      case Outside => s.(reader := SawHead(s.ring.head), seen := |s.accepted|)
      case SawHead(h) =>
        if s.ring.tail == h then s.(reader := Outside)
        else s.(reader := Fetched(s.ring.buf[s.ring.tail]))
      case Fetched(c) =>
        s.(reader := Outside, ring := s.ring.(tail := Advance(s.ring.tail)), returned := s.returned + [c])
  }

  lemma InterruptInv(s: State, code: Byte)
    requires Inv(s)
    ensures Inv(Step(s, Interrupt(code)))
  {
    hide Slot, Advance;
    var t := Step(s, Interrupt(code));
    var n, m := |s.returned|, |s.accepted|;
    if Accepted(s.ring, code) != 0 {
      SlotNext(m);
      SlotsApart(n, m);
      assert m + 1 < n + SIZE;
      forall i | n <= i < m + 1 ensures t.ring.buf[Slot(i)] == t.accepted[i] {
        SlotsApart(i, m);
        assert i < m ==> s.accepted[i] == t.accepted[i];
      }
      assert t.returned == t.accepted[..n];
    }
  }

  lemma ReaderInv(s: State)
    requires Inv(s)
    ensures Inv(Step(s, ReaderStep))
  {
    hide Slot, Advance;
    var n, m := |s.returned|, |s.accepted|;
    match s.reader
    case Outside =>
    case SawHead(h) =>
      SlotsApart(n, s.seen);
      assert s.ring.tail != h ==> s.seen != n && s.ring.buf[Slot(n)] == s.accepted[n];
    case Fetched(c) =>
      SlotNext(n);
      assert s.returned + [c] == s.accepted[..n + 1];
  }

  function Run(s: State, es: seq<Event>): (t: State)
    requires Inv(s)
    ensures Inv(t)
    decreases |es|
  {
    if es == [] then s else
    var next := Step(s, es[0]);
    (match es[0] case Interrupt(code) => InterruptInv(s, code); Run(next, es[1..])
                 case ReaderStep => ReaderInv(s); Run(next, es[1..]))
  }

  const START := State(Ring(seq(SIZE, i => 0), 0, 0), Outside, [], [], 0)

  /** In every interleaving, what was returned is a prefix of what was accepted, at most 31 characters
      are pending, and the pending ones stand in the ring in order. */
  lemma NothingLost(es: seq<Event>)
    ensures Inv(START)
    ensures var s := Run(START, es);
            && s.returned <= s.accepted && |s.accepted| - |s.returned| <= SIZE - 1
            && forall i :: |s.returned| <= i < |s.accepted| ==> s.ring.buf[Slot(i)] == s.accepted[i]
  {
    assert START.accepted == [];
    var s := Run(START, es);
    assert Inv(s);
  }

  /** An interrupt never overwrites a character that is still to be read. */
  lemma NoOverwrite(s: State, code: Byte, i: nat)
    requires Inv(s) && |s.returned| <= i < |s.accepted|
    ensures Step(s, Interrupt(code)).ring.buf[Slot(i)] == s.ring.buf[Slot(i)]
  {
    hide Slot, Advance;
    SlotsApart(i, |s.accepted|);
  }

  /** `keyboard_has_key` is true exactly when an accepted character was not returned yet. */
  lemma HasKeyExact(s: State)
    requires Inv(s)
    ensures s.ring.tail != s.ring.head <==> |s.returned| < |s.accepted|
  {
    hide Slot, Advance;
    SlotsApart(|s.returned|, |s.accepted|);
  }

  /** A key press is accepted exactly when it is a make code with a character and fewer than 31
      characters are pending. */
  lemma AcceptedExactly(s: State, code: Byte)
    requires Inv(s)
    ensures Accepted(s.ring, code) != 0 <==>
            code < 128 && Ascii(code) != 0 && |s.accepted| - |s.returned| < SIZE - 1
    ensures Accepted(s.ring, code) != 0 ==> Step(s, Interrupt(code)).accepted == s.accepted + [Ascii(code)]
  {
    hide Slot, Advance, Ascii;
    SlotNext(|s.accepted|);
    SlotsApart(|s.returned|, |s.accepted|);
    if |s.accepted| + 1 < |s.returned| + SIZE { SlotsApart(|s.returned|, |s.accepted| + 1); }
  }

  // ----- the driver -----

  class Driver {
    const buf: array<Byte>
    var head: nat
    var tail: nat

    ghost predicate Valid()
      reads this, buf
    {
      buf.Length == SIZE && head < SIZE && tail < SIZE
    }

    ghost function Abs(): Ring
      reads this, buf
    {
      Ring(buf[..], head, tail)
    }

    /** `keyboard_init`. */
    constructor ()
      ensures Valid() && Abs() == START.ring
    {
      buf := new Byte[SIZE](i => 0);
      head, tail := 0, 0;
    }

    method Handler(code: Byte)
      requires Valid()
      modifies this`head, buf
      ensures Valid() && Abs() == Handle(old(Abs()), code)
    {
      if code >= 128 {
        return;
      }
      var c := Ascii(code);
      if c != 0 {
        var next := (head + 1) % SIZE;
        if next != tail {
          buf[head] := c;
          head := next;
        }
      }
    }

    /** `keyboard_getchar` without interruption: the three reader steps in a row. */
    method GetChar(ghost s: State) returns (c: Byte)
      requires Valid() && Inv(s) && s.reader == Outside && s.ring == Abs()
      modifies this`tail
      ensures Valid()
      ensures Inv(Step(s, ReaderStep)) && Inv(Step(Step(s, ReaderStep), ReaderStep))
      ensures var t := Run(s, if tail == old(tail) then [ReaderStep, ReaderStep] else [ReaderStep, ReaderStep, ReaderStep]);
              t.ring == Abs() && t.reader == Outside && t.returned == s.returned + (if tail == old(tail) then [] else [c])
      ensures |s.accepted| == |s.returned| ==> c == 0 && tail == old(tail)
      ensures |s.accepted| > |s.returned| ==> c == s.accepted[|s.returned|] && tail != old(tail)
    {
      hide Slot;
      SlotsApart(|s.returned|, |s.accepted|);
      ReaderInv(s);
      ghost var s1 := Step(s, ReaderStep);
      ReaderInv(s1);
      ghost var s2 := Step(s1, ReaderStep);
      assert [ReaderStep, ReaderStep][1..] == [ReaderStep];
      assert [ReaderStep, ReaderStep, ReaderStep][1..] == [ReaderStep, ReaderStep];
      assert Run(s, [ReaderStep, ReaderStep]) == Run(s1, [ReaderStep]) == s2;
      if tail == head {
        return 0;
      }
      c := buf[tail];
      tail := (tail + 1) % SIZE;
      assert Run(s, [ReaderStep, ReaderStep, ReaderStep]) == Run(s1, [ReaderStep, ReaderStep]) == Run(s2, [ReaderStep]);
    }

    /** `keyboard_has_key`: an accepted character was not returned yet. */
    method HasKey(ghost s: State) returns (has: bool)
      requires Inv(s) && s.ring == Abs()
      ensures has <==> |s.returned| < |s.accepted|
    {
      HasKeyExact(s);
      has := tail != head;
    }
  }
}
