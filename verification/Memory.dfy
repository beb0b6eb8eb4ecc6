/** One byte-addressed memory for headers, links, table entries and client data. A byte holds data, or
    is one of the eight bytes of a stored word; overwriting any of them destroys the word. */
module Memory {
  import opened Bitmap
  import opened Options

  datatype Cell = Data(b: Byte) | Part(word: nat, k: nat)

  type Cells = map<nat, Cell>

  function Peek(m: Cells, x: nat): Option<Cell> {
    if x in m then Some(m[x]) else None
  }

  function Poke(m: Cells, x: nat, c: Option<Cell>): Cells {
    if c.Some? then m[x := c.value] else m - {x}
  }

  predicate SameByte(m: Cells, n: Cells, x: nat) {
    Peek(m, x) == Peek(n, x)
  }

  /** The two memories agree on the `len` bytes from `a` on. */
  ghost predicate SameRange(m: Cells, n: Cells, a: nat, len: nat) {
    forall x: nat {:trigger SameByte(m, n, x)} :: a <= x < a + len ==> SameByte(m, n, x)
  }

  /** Only bytes from `a` on, `len` of them, differ. */
  ghost predicate Changes(m: Cells, n: Cells, a: nat, len: nat) {
    forall x: nat {:trigger SameByte(m, n, x)} :: SameByte(m, n, x) || a <= x < a + len
  }

  lemma ChangesTrans(m: Cells, n: Cells, p: Cells, a: nat, len: nat, b: nat, k: nat)
    requires Changes(m, n, a, len) && Changes(n, p, b, k) && a <= b && b + k <= a + len
    ensures Changes(m, p, a, len)
  {
    forall x: nat | !(a <= x < a + len) ensures SameByte(m, p, x) {
      assert SameByte(m, n, x) && SameByte(n, p, x);
    }
  }

  predicate PartAt(m: Cells, a: nat, v: nat, k: nat) {
    a + k in m && m[a + k] == Part(v, k)
  }

  /** The eight bytes at `a` are the word `v`. */
  predicate HasWord(m: Cells, a: nat, v: nat) {
    && PartAt(m, a, v, 0) && PartAt(m, a, v, 1) && PartAt(m, a, v, 2) && PartAt(m, a, v, 3)
    && PartAt(m, a, v, 4) && PartAt(m, a, v, 5) && PartAt(m, a, v, 6) && PartAt(m, a, v, 7)
  }

  /** The word at `a`; 0 stands for the value of bytes that were not stored as a word. */
  function Load(m: Cells, a: nat): nat {
    if a in m && m[a].Part? && HasWord(m, a, m[a].word) then m[a].word else 0
  }

  /** The memory after the word `v` is stored at `a`. */
  function StoreWord(m: Cells, a: nat, v: nat): Cells {
    m[a := Part(v, 0)][a + 1 := Part(v, 1)][a + 2 := Part(v, 2)][a + 3 := Part(v, 3)]
     [a + 4 := Part(v, 4)][a + 5 := Part(v, 5)][a + 6 := Part(v, 6)][a + 7 := Part(v, 7)]
  }

  /** The word is read back, and no byte outside it changes. */
  lemma StoreEffect(m: Cells, a: nat, v: nat)
    ensures HasWord(StoreWord(m, a, v), a, v) && Load(StoreWord(m, a, v), a) == v
    ensures Changes(m, StoreWord(m, a, v), a, 8)
  {
  }

  lemma LoadWord(m: Cells, a: nat, v: nat)
    requires HasWord(m, a, v)
    ensures Load(m, a) == v
  {
  }

  /** A word whose bytes are unchanged is unchanged. */
  lemma WordKept(m: Cells, n: Cells, a: nat, v: nat)
    requires HasWord(m, a, v) && SameRange(m, n, a, 8)
    ensures HasWord(n, a, v)
  {
    forall k: nat | k < 8 ensures PartAt(n, a, v, k) {
      assert SameByte(m, n, a + k);
      assert k == 0 || k == 1 || k == 2 || k == 3 || k == 4 || k == 5 || k == 6 || k == 7;
    }
  }

  lemma LoadKept(m: Cells, n: Cells, a: nat)
    requires SameRange(m, n, a, 8)
    ensures Load(n, a) == Load(m, a)
  {
    assert SameByte(m, n, a) && SameByte(m, n, a + 1) && SameByte(m, n, a + 2) && SameByte(m, n, a + 3);
    assert SameByte(m, n, a + 4) && SameByte(m, n, a + 5) && SameByte(m, n, a + 6) && SameByte(m, n, a + 7);
  }

  /** The physical memory, shared by everything that runs on it. */
  class Ram {
    var cells: Cells

    constructor (content: Cells)
      ensures cells == content
    {
      cells := content;
    }

    method Store(a: nat, v: nat)
      modifies this
      ensures cells == StoreWord(old(cells), a, v)
      ensures HasWord(cells, a, v) && Changes(old(cells), cells, a, 8)
    {
      StoreEffect(cells, a, v);
      cells := StoreWord(cells, a, v);
    }

    method StoreByte(x: nat, b: Byte)
      modifies this
      ensures cells == old(cells)[x := Data(b)]
      ensures Changes(old(cells), cells, x, 1)
    {
      cells := cells[x := Data(b)];
    }

    /** Copies one byte, whatever it is part of. */
    method CopyByte(from: nat, to: nat)
      modifies this
      ensures cells == Poke(old(cells), to, Peek(old(cells), from))
    {
      cells := Poke(cells, to, Peek(cells, from));
    }
  }
}
