/** Integer keys of a bolt bucket (api/bolt/internal/db.go). */
module BoltKeys {
  import opened Arithmetic

  const MAX_ID: int := 0x7FFF_FFFF_FFFF_FFFF

  /** Go's int. */
  type Id = v: int | -MAX_ID - 1 <= v <= MAX_ID

  /** Go's uint64. */
  type Unsigned = u: int | 0 <= u <= 0xFFFF_FFFF_FFFF_FFFF

  type Key = seq<int>

  function AsUnsigned(v: Id): Unsigned {
    if v < 0 then v + 0x1_0000_0000_0000_0000 else v
  }

  function AsId(u: Unsigned): Id {
    if u > MAX_ID then u - 0x1_0000_0000_0000_0000 else u
  }

  /** The last n base-256 digits of u, most significant first. */
  function BigEndian(u: nat, n: nat): (key: Key)
    ensures |key| == n && Bytes(key)
    decreases n, u
  {
    if n == 0 then [] else BigEndian(u / 256, n - 1) + [u % 256]
  }

  predicate Bytes(key: Key) {
    forall i | 0 <= i < |key| :: 0 <= key[i] < 256
  }

  function Number(key: Key): nat
    requires Bytes(key)
  {
    if key == [] then 0 else 256 * Number(key[..|key| - 1]) + key[|key| - 1]
  }

  function Pow256(n: nat): (p: nat)
    ensures p > 0
  {
    if n == 0 then 1 else 256 * Pow256(n - 1)
  }

  function KeyOf(v: Id): Key {
    BigEndian(AsUnsigned(v), 8)
  }

  predicate IsKey(key: Key) {
    |key| == 8 && Bytes(key)
  }

  lemma Width()
    ensures Pow256(8) == 0x1_0000_0000_0000_0000
  {
    assert Pow256(2) == 0x1_0000;
    assert Pow256(4) == 0x1_0000_0000;
    assert Pow256(6) == 0x1_0000_0000_0000;
  }

  lemma {:induction false} NumberOfDigits(u: nat, n: nat)
    requires u < Pow256(n)
    ensures Number(BigEndian(u, n)) == u
  {
    if n > 0 {
      NumberOfDigits(u / 256, n - 1);
      assert BigEndian(u, n)[..n - 1] == BigEndian(u / 256, n - 1);
    }
  }

  lemma {:induction false} DigitsOfNumber(key: Key)
    requires Bytes(key)
    ensures BigEndian(Number(key), |key|) == key && Number(key) < Pow256(|key|)
  {
    if key != [] {
      DigitsOfNumber(key[..|key| - 1]);
      assert Number(key) / 256 == Number(key[..|key| - 1]);
      assert key == key[..|key| - 1] + [key[|key| - 1]];
    }
  }

  /** The identifier a key stands for. */
  function IdOf(key: Key): Id
    requires IsKey(key)
  {
    DigitsOfNumber(key);
    Width();
    AsId(Number(key))
  }

  /** Keys and identifiers correspond one to one. */
  lemma IdOfKey(v: Id)
    ensures IsKey(KeyOf(v)) && IdOf(KeyOf(v)) == v
  {
    Width();
    NumberOfDigits(AsUnsigned(v), 8);
  }

  lemma KeyOfId(key: Key)
    requires IsKey(key)
    ensures KeyOf(IdOf(key)) == key
  {
    Width();
    DigitsOfNumber(key);
  }

  // ---- Order

  /** The order of a bucket's cursor, byte by byte. */
  predicate Before(a: Key, b: Key) {
    if b == [] then false
    else if a == [] then true
    else if a[0] != b[0] then a[0] < b[0]
    else Before(a[1..], b[1..])
  }

  lemma {:induction false} BeforeSnoc(a: Key, b: Key, x: int, y: int)
    requires |a| == |b|
    ensures Before(a + [x], b + [y]) <==> Before(a, b) || (a == b && x < y)
  {
    if a != [] {
      assert (a + [x])[1..] == a[1..] + [x];
      assert (b + [y])[1..] == b[1..] + [y];
      BeforeSnoc(a[1..], b[1..], x, y);
      assert a == [a[0]] + a[1..] && b == [b[0]] + b[1..];
    }
  }

  lemma {:induction false} BeforeIsSmaller(a: Key, b: Key)
    requires Bytes(a) && Bytes(b) && |a| == |b|
    ensures Before(a, b) <==> Number(a) < Number(b)
  {
    if a != [] {
      var n := |a| - 1;
      assert a == a[..n] + [a[n]] && b == b[..n] + [b[n]];
      BeforeSnoc(a[..n], b[..n], a[n], b[n]);
      BeforeIsSmaller(a[..n], b[..n]);
      if Number(a[..n]) == Number(b[..n]) {
        DigitsOfNumber(a[..n]);
        DigitsOfNumber(b[..n]);
      }
    }
  }

  /** Keys are ordered as the identifiers are, except that negative ones come after all others. */
  lemma KeyOrder(v: Id, w: Id)
    ensures Before(KeyOf(v), KeyOf(w)) <==> if (v < 0) == (w < 0) then v < w else w < 0
  {
    Width();
    NumberOfDigits(AsUnsigned(v), 8);
    NumberOfDigits(AsUnsigned(w), 8);
    BeforeIsSmaller(KeyOf(v), KeyOf(w));
  }

  // ---- The buffer

  lemma {:induction false} DigitAt(u: nat, n: nat, i: nat)
    requires i < n
    ensures BigEndian(u, n)[i] == u / Pow256(n - 1 - i) % 256
    decreases n
  {
    if i < n - 1 {
      DigitAt(u / 256, n - 1, i);
      DivideTwice(u, Pow256(n - 2 - i));
    }
  }

  method Itob(v: Id) returns (b: array<int>)
    ensures fresh(b) && b[..] == KeyOf(v)
  {
    hide BigEndian, Pow256;
    var u := AsUnsigned(v);
    ghost var key := BigEndian(u, 8);
    b := new int[8];
    for i := 0 to 8
      invariant b[..i] == key[..i]
    {
      b[i] := u / Pow256(7 - i) % 256;
      DigitAt(u, 8, i);
    }
  }

  /** The bytes of a key spell the identifier, modulo 2 to the 64, in base 256. */
  lemma KeySpellsId(v: Id)
    ensures var k := KeyOf(v);
            && |k| == 8 && (forall i | 0 <= i < 8 :: 0 <= k[i] < 256)
            && (((((((k[0] * 256 + k[1]) * 256 + k[2]) * 256 + k[3]) * 256 + k[4]) * 256 + k[5]) * 256 + k[6]) * 256 + k[7]
                == if v < 0 then v + 0x1_0000_0000_0000_0000 else v)
  {
    hide BigEndian;
    Width();
    var u, k := AsUnsigned(v), KeyOf(v);
    NumberOfDigits(u, 8);
    NumberOfEight(k);
  }

  lemma NumberOfEight(k: Key)
    requires IsKey(k)
    ensures Number(k) == ((((((k[0] * 256 + k[1]) * 256 + k[2]) * 256 + k[3]) * 256 + k[4]) * 256 + k[5]) * 256 + k[6]) * 256 + k[7]
  {
    assert k[..8] == k;
    NumberOfPrefix(k, 8);
    NumberOfPrefix(k, 7);
    NumberOfPrefix(k, 6);
    NumberOfPrefix(k, 5);
    NumberOfPrefix(k, 4);
    NumberOfPrefix(k, 3);
    NumberOfPrefix(k, 2);
    NumberOfPrefix(k, 1);
    assert k[..0] == [];
  }

  lemma NumberOfPrefix(k: Key, n: nat)
    requires Bytes(k) && 0 < n <= |k|
    ensures Number(k[..n]) == 256 * Number(k[..n - 1]) + k[n - 1]
    ensures n == 1 ==> Number(k[..n - 1]) == 0
  {
    assert k[..n][..n - 1] == k[..n - 1];
  }
}
