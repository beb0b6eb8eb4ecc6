/** Facts about division by a positive number. */
module Division {

  lemma AddMod(x: nat, a: nat)
    requires 0 < a
    ensures (x + a) % a == x % a
  {
    var d, m := (x + a) / a, (x + a) % a;
    var k := d - 1 - x / a;
    assert k * a == x % a - m;
    assert k >= 1 ==> k * a >= a;
    assert k <= -1 ==> k * a + a <= 0;
  }

  /** Quotient and remainder are the only ones. */
  lemma Unique(x: nat, a: nat, q: nat, r: nat)
    requires 0 < a && r < a && x == q * a + r
    ensures x / a == q && x % a == r
  {
    var d, m := x / a, x % a;
    assert x == d * a + m;
    assert (d - q) * a == r - m;
    assert d - q >= 1 ==> (d - q) * a >= a;
    assert q - d >= 1 ==> (q - d) * a >= a;
  }

  lemma {:induction false} MultipleMod(k: nat, a: nat)
    requires 0 < a
    ensures k * a % a == 0
  {
    if k > 0 {
      MultipleMod(k - 1, a);
      assert k * a == (k - 1) * a + a;
      AddMod((k - 1) * a, a);
    }
  }

  lemma RoundDown(x: nat, a: nat)
    requires 0 < a
    ensures (x - x % a) % a == 0
  {
    assert x - x % a == x / a * a;
    MultipleMod(x / a, a);
  }

  lemma AddMultiples(x: nat, y: nat, a: nat)
    requires 0 < a && x % a == 0 && y % a == 0
    ensures (x + y) % a == 0
  {
    assert x + y == (x / a + y / a) * a;
    MultipleMod(x / a + y / a, a);
  }

  /** Between two multiples there is room for one step. */
  lemma NextMultiple(x: nat, y: nat, a: nat)
    requires 0 < a && x % a == 0 && y % a == 0 && x < y
    ensures x + a <= y
  {
    var q, r := x / a, y / a;
    assert x == q * a && y == r * a;
    assert r <= q ==> r * a <= q * a;
    assert q < r ==> (q + 1) * a <= r * a;
  }
}
