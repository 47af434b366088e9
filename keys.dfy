/**
 * The fixed-width key encoding of notes and todos: `itob` writes a uint64 as
 * 8 big-endian bytes, and listing reads a key back with the big-endian
 * `Uint64` decoder. The store orders keys byte-lexicographically, so the
 * encoding has to preserve numeric order for the cursor to list notes in
 * ascending key order.
 */
module Keys {

  type byte = n: int | 0 <= n < 256
  type uint64 = n: int | 0 <= n < 0x1_0000_0000_0000_0000

  /** A key (or any byte string) as the store sees it. */
  type Key = seq<byte>

  const MaxUint64: uint64 := 0xFFFF_FFFF_FFFF_FFFF

  function Pow256(n: nat): (p: nat)
    ensures p > 0
  {
    if n == 0 then 1 else 256 * Pow256(n - 1)
  }

  lemma Pow256Eight()
    ensures Pow256(8) == MaxUint64 + 1
  {
    assert Pow256(1) == 0x100;
    assert Pow256(2) == 0x1_0000;
    assert Pow256(3) == 0x100_0000;
    assert Pow256(4) == 0x1_0000_0000;
    assert Pow256(5) == 0x100_0000_0000;
    assert Pow256(6) == 0x1_0000_0000_0000;
    assert Pow256(7) == 0x100_0000_0000_0000;
  }

  // ---------------------------------------------------------------------
  // Arithmetic helpers on quotient and remainder

  lemma MulLe(a: nat, b: nat, p: nat)
    requires a <= b
    ensures a * p <= b * p
  {
    if a < b {
      MulLe(a, b - 1, p);
      assert (b - 1) * p + p == b * p;
    }
  }

  lemma DivBelow(v: nat, p: nat, m: nat)
    requires p > 0 && v < m * p
    ensures v / p < m
  {
    var q := v / p;
    assert q * p <= v;
    if q >= m {
      MulLe(m, q, p);
    }
  }

  lemma MulAddBelow(d: nat, r: nat, p: nat, m: nat)
    requires d < m && r < p
    ensures d * p + r < m * p
  {
    MulLe(d + 1, m, p);
    assert (d + 1) * p == d * p + p;
  }

  lemma DivModOf(q: nat, r: nat, p: nat)
    requires r < p
    ensures (q * p + r) / p == q && (q * p + r) % p == r
  {
    var v := q * p + r;
    var q', r' := v / p, v % p;
    assert v == q' * p + r';
    if q' < q {
      MulAddBelow(q', r', p, q);
      MulLe(q, q, p);
    } else if q' > q {
      MulAddBelow(q, r, p, q');
    }
  }

  lemma SplitOrder(v: nat, w: nat, p: nat)
    requires p > 0
    ensures v < w <==> v / p < w / p || (v / p == w / p && v % p < w % p)
  {
    var qv, qw := v / p, w / p;
    assert v == qv * p + v % p && w == qw * p + w % p;
    if qv < qw {
      MulAddBelow(qv, v % p, p, qw);
    } else if qw < qv {
      MulAddBelow(qw, w % p, p, qv);
    }
  }

  // ---------------------------------------------------------------------
  // Big-endian encoding and decoding of any width

  /** The n-byte big-endian encoding of v: most significant byte first. */
  function BigEndian(v: nat, n: nat): (b: Key)
    requires v < Pow256(n)
    ensures |b| == n
  {
    if n == 0 then []
    else
      var p := Pow256(n - 1);
      assert Pow256(n) == 256 * p;
      DivBelow(v, p, 256);
      var hi: byte := v / p;
      var lo := v % p;
      assert lo < p;
      [hi] + BigEndian(lo, n - 1)
  }

  /** The number a big-endian byte string denotes (`binary.BigEndian.Uint64` for 8 bytes). */
  function Decode(b: Key): (v: nat)
    ensures v < Pow256(|b|)
  {
    if b == [] then 0
    else
      var rest := Decode(b[1..]);
      MulAddBelow(b[0], rest, Pow256(|b| - 1), 256);
      b[0] * Pow256(|b| - 1) + rest
  }

  /** Byte-lexicographic order, the order of `bytes.Compare` in which the store keeps and iterates keys. */
  predicate LexLess(a: Key, b: Key)
  {
    if a == [] then b != []
    else if b == [] then false
    else a[0] < b[0] || (a[0] == b[0] && LexLess(a[1..], b[1..]))
  }

  lemma {:induction false} DecodeBigEndian(v: nat, n: nat)
    requires v < Pow256(n)
    ensures Decode(BigEndian(v, n)) == v
  {
    if n > 0 {
      var p := Pow256(n - 1);
      var b := BigEndian(v, n);
      assert b[0] == v / p && b[1..] == BigEndian(v % p, n - 1);
      DecodeBigEndian(v % p, n - 1);
      assert Decode(b) == (v / p) * p + v % p;
    }
  }

  lemma {:induction false} BigEndianDecode(b: Key)
    ensures BigEndian(Decode(b), |b|) == b
  {
    if b != [] {
      var p := Pow256(|b| - 1);
      var rest := Decode(b[1..]);
      BigEndianDecode(b[1..]);
      DivModOf(b[0], rest, p);
    }
  }

  lemma {:induction false} BigEndianOrder(v: nat, w: nat, n: nat)
    requires v < Pow256(n) && w < Pow256(n)
    ensures LexLess(BigEndian(v, n), BigEndian(w, n)) <==> v < w
  {
    if n > 0 {
      var p := Pow256(n - 1);
      var a, b := BigEndian(v, n), BigEndian(w, n);
      assert a[0] == v / p && a[1..] == BigEndian(v % p, n - 1);
      assert b[0] == w / p && b[1..] == BigEndian(w % p, n - 1);
      BigEndianOrder(v % p, w % p, n - 1);
      SplitOrder(v, w, p);
    }
  }

  // ---------------------------------------------------------------------
  // itob and its inverse

  /** itob (cmd/note.go:29-33): `binary.BigEndian.PutUint64` into a fresh 8-byte slice. */
  function Itob(v: uint64): (k: Key)
    ensures |k| == 8
  {
    Pow256Eight();
    BigEndian(v, 8)
  }

  /** `binary.BigEndian.Uint64` (cmd/note.go:90): the key number an 8-byte key denotes. */
  function Uint64(k: Key): (v: uint64)
    requires |k| == 8
  {
    Pow256Eight();
    Decode(k)
  }

  /** Decoding an encoded key gives the number back. */
  lemma ItobRoundTrip(v: uint64)
    ensures Uint64(Itob(v)) == v
  {
    Pow256Eight();
    DecodeBigEndian(v, 8);
  }

  /** Every 8-byte key is the encoding of the number it decodes to. */
  lemma ItobOnto(k: Key)
    requires |k| == 8
    ensures Itob(Uint64(k)) == k
  {
    Pow256Eight();
    BigEndianDecode(k);
  }

  /** The store's byte order on encoded keys is the numeric order of the numbers. */
  lemma ItobOrder(v: uint64, w: uint64)
    ensures LexLess(Itob(v), Itob(w)) <==> v < w
  {
    Pow256Eight();
    BigEndianOrder(v, w, 8);
  }

  lemma ItobInjective(v: uint64, w: uint64)
    ensures Itob(v) == Itob(w) <==> v == w
  {
    if Itob(v) == Itob(w) {
      ItobRoundTrip(v);
      ItobRoundTrip(w);
    }
  }

  /**
   * A cursor walks a bucket in strictly ascending byte order (cmd/note.go:89);
   * when every key is 8 bytes wide, the numbers it prints ascend too.
   */
  lemma CursorAscending(keys: seq<Key>)
    requires forall i :: 0 <= i < |keys| ==> |keys[i]| == 8
    requires forall i, j :: 0 <= i < j < |keys| ==> LexLess(keys[i], keys[j])
    ensures forall i, j :: 0 <= i < j < |keys| ==> Uint64(keys[i]) < Uint64(keys[j])
  {
    forall i, j | 0 <= i < j < |keys|
      ensures Uint64(keys[i]) < Uint64(keys[j])
    {
      ItobOnto(keys[i]);
      ItobOnto(keys[j]);
      ItobOrder(Uint64(keys[i]), Uint64(keys[j]));
    }
  }
}
