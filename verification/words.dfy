/** Bit-level arithmetic on unbounded integers.

    The C code builds each 32-bit word by storing values into unsigned and
    signed bit-fields of a union, and takes offsets apart with an arithmetic
    right shift followed by a mask, `(v >> lo) & ((1 << width) - 1)`.  Here a
    field store is `v % Pow2(width)` (the low `width` bits of the two's
    complement value), a shift-and-mask is `Bits(v, lo, width)`, and a word is
    a list of fields packed least significant first. */
module Words {

  function Pow2(n: nat): (r: nat)
    ensures r >= 1
  {
    if n == 0 then 1 else 2 * Pow2(n - 1)
  }

  /** `(x >> lo) & (2^width - 1)` on a two's complement integer: the arithmetic
      shift is a floor division, and Dafny's `/` and `%` by a positive divisor
      are floor division and a non-negative remainder. */
  function Bits(x: int, lo: nat, width: nat): (r: nat)
    ensures r < Pow2(width)
  {
    (x / Pow2(lo)) % Pow2(width)
  }

  /** Two's complement reading of an n-bit field, as the ISA sign-extends
      immediates. */
  function SignExtend(v: int, n: nat): int
    requires n >= 1
  {
    if v >= Pow2(n - 1) then v - Pow2(n) else v
  }

  function Sum(ws: seq<nat>): nat
  {
    if |ws| == 0 then 0 else ws[0] + Sum(ws[1..])
  }

  /** Bit position of field i in a layout whose field widths are ws. */
  function Offset(ws: seq<nat>, i: nat): nat
    requires i <= |ws|
  {
    Sum(ws[..i])
  }

  /** The word holding fields vs, field 0 in the least significant bits; each
      value is cut to its field width as a bit-field store does. */
  function Pack(ws: seq<nat>, vs: seq<int>): (r: nat)
    requires |ws| == |vs|
    ensures r < Pow2(Sum(ws))
  {
    if |ws| == 0 then 0
    else
      var rest := Pack(ws[1..], vs[1..]);
      Pow2Add(ws[0], Sum(ws[1..]));
      MulAddBound(vs[0] % Pow2(ws[0]), Pow2(ws[0]), rest, Pow2(Sum(ws[1..])));
      vs[0] % Pow2(ws[0]) + Pow2(ws[0]) * rest
  }

  /** The fields of a word, least significant first. */
  function Unpack(ws: seq<nat>, w: int): (vs: seq<nat>)
    ensures |vs| == |ws|
    ensures forall i :: 0 <= i < |ws| ==> vs[i] < Pow2(ws[i])
  {
    if |ws| == 0 then [] else [w % Pow2(ws[0])] + Unpack(ws[1..], w / Pow2(ws[0]))
  }

  /** The values a bit-field store actually keeps. */
  function Truncated(ws: seq<nat>, vs: seq<int>): (r: seq<nat>)
    requires |ws| == |vs|
    ensures |r| == |vs|
  {
    if |ws| == 0 then [] else [vs[0] % Pow2(ws[0])] + Truncated(ws[1..], vs[1..])
  }

  // ---------------------------------------------------------------------------
  // Division facts

  lemma {:induction false} Pow2Add(a: nat, b: nat)
    ensures Pow2(a + b) == Pow2(a) * Pow2(b)
  {
    if a > 0 {
      Pow2Add(a - 1, b);
    }
  }

  lemma MulAddBound(a: int, p: int, b: int, q: int)
    requires 0 <= a < p && 0 <= b < q
    ensures 0 <= a + p * b < p * q
  {
    assert p * b <= p * (q - 1);
  }

  lemma MulAtLeast(p: int, d: int)
    requires p > 0 && d >= 1
    ensures p * d >= p
  {
  }

  /** Euclidean division is unique. */
  lemma DivModUnique(x: int, p: int, q: int, r: int)
    requires p > 0 && 0 <= r < p && x == p * q + r
    ensures x / p == q && x % p == r
  {
    var q', r' := x / p, x % p;
    assert p * q' + r' == p * q + r;
    if q < q' {
      assert p * (q' - q) == r - r';
      MulAtLeast(p, q' - q);
    } else if q > q' {
      assert p * (q - q') == r' - r;
      MulAtLeast(p, q - q');
    }
  }

  lemma DivAddMul(a: int, p: int, b: int)
    requires 0 <= a < p
    ensures (a + p * b) / p == b && (a + p * b) % p == a
  {
    DivModUnique(a + p * b, p, b, a);
  }

  /** The number of 32-bit words. */
  lemma WordCount()
    ensures Pow2(32) == 0x1_0000_0000
  {
    assert Pow2(8) == 0x100;
    Pow2Add(8, 8);
    Pow2Add(16, 16);
  }

  /** Dividing by p then q is dividing by p * q, and the remainder by p * q
      is made of the two remainders. */
  lemma DivModNest(x: int, p: int, q: int)
    requires p > 0 && q > 0
    ensures x / (p * q) == x / p / q
    ensures x % (p * q) == x % p + p * (x / p % q)
  {
    var q1, r1 := x / p, x % p;
    var q2, r2 := q1 / q, q1 % q;
    MulAddBound(r1, p, r2, q);
    assert x == p * q * q2 + (p * r2 + r1) by {
      assert x == p * q1 + r1;
      assert q1 == q * q2 + r2;
      assert p * q1 == p * q * q2 + p * r2;
    }
    DivModUnique(x, p * q, q2, p * r2 + r1);
  }

  lemma DivDiv(x: int, a: nat, b: nat)
    ensures x / Pow2(a) / Pow2(b) == x / Pow2(a + b)
  {
    Pow2Add(a, b);
    DivModNest(x, Pow2(a), Pow2(b));
  }

  /** The low lo + width bits of x are its low lo bits plus the field above. */
  lemma SplitLow(x: int, lo: nat, width: nat)
    ensures x % Pow2(lo + width) == x % Pow2(lo) + Pow2(lo) * Bits(x, lo, width)
  {
    Pow2Add(lo, width);
    DivModNest(x, Pow2(lo), Pow2(width));
  }

  /** Reading back an n-bit two's complement store gives the value stored,
      exactly when it fits in n bits. */
  lemma SignExtendStore(x: int, n: nat)
    requires n >= 1 && -(Pow2(n - 1) as int) <= x < Pow2(n - 1)
    ensures SignExtend(x % Pow2(n), n) == x
  {
    assert Pow2(n) == 2 * Pow2(n - 1);
    if x >= 0 {
      DivModUnique(x, Pow2(n), 0, x);
    } else {
      DivModUnique(x, Pow2(n), -1, x + Pow2(n));
    }
  }

  // ---------------------------------------------------------------------------
  // Packing

  lemma {:induction false} SumSplit(ws: seq<nat>, i: nat)
    requires i < |ws|
    ensures Sum(ws[..i + 1]) == Sum(ws[..i]) + ws[i]
  {
    if i == 0 {
      assert ws[..1] == [ws[0]];
      assert ws[..1][1..] == [];
    } else {
      assert ws[..i + 1][1..] == ws[1..][..i];
      assert ws[..i][1..] == ws[1..][..i - 1];
      SumSplit(ws[1..], i - 1);
    }
  }

  /** Field i of a packed word sits at bit Offset(ws, i) and holds the stored
      value. */
  lemma {:induction false} FieldAt(ws: seq<nat>, vs: seq<int>, i: nat)
    requires |ws| == |vs| && i < |ws|
    ensures Bits(Pack(ws, vs), Offset(ws, i), ws[i]) == vs[i] % Pow2(ws[i])
  {
    var w := Pack(ws, vs);
    var rest := Pack(ws[1..], vs[1..]);
    assert w == vs[0] % Pow2(ws[0]) + Pow2(ws[0]) * rest;
    DivAddMul(vs[0] % Pow2(ws[0]), Pow2(ws[0]), rest);
    if i == 0 {
      assert ws[..0] == [];
      assert w / Pow2(0) == w;
      assert Bits(w, 0, ws[0]) == w % Pow2(ws[0]);
      assert w % Pow2(ws[0]) == vs[0] % Pow2(ws[0]);
    } else {
      FieldAt(ws[1..], vs[1..], i - 1);
      assert ws[..i][1..] == ws[1..][..i - 1];
      assert ws[..i][0] == ws[0];
      assert Offset(ws, i) == ws[0] + Offset(ws[1..], i - 1);
      DivDiv(w, ws[0], Offset(ws[1..], i - 1));
      assert w / Pow2(ws[0]) == rest;
    }
  }

  /** Unpacking a packed word gives back the stored values. */
  lemma {:induction false} UnpackPack(ws: seq<nat>, vs: seq<int>)
    requires |ws| == |vs|
    ensures Unpack(ws, Pack(ws, vs)) == Truncated(ws, vs)
  {
    if |ws| > 0 {
      var rest := Pack(ws[1..], vs[1..]);
      DivAddMul(vs[0] % Pow2(ws[0]), Pow2(ws[0]), rest);
      UnpackPack(ws[1..], vs[1..]);
    }
  }

  lemma MulMonotone(p: int, a: int, b: int)
    requires p > 0 && a >= b
    ensures p * a >= p * b
  {
  }

  lemma DivBelow(w: int, p: int, q: int)
    requires p > 0 && 0 <= w < p * q
    ensures 0 <= w / p < q && w == p * (w / p) + w % p
  {
    var hi := w / p;
    assert w == p * hi + w % p;
    if hi >= q {
      MulMonotone(p, hi, q);
    }
  }

  /** Packing the fields of a word that fits the layout gives back the word. */
  lemma {:induction false} PackUnpack(ws: seq<nat>, w: int)
    requires 0 <= w < Pow2(Sum(ws))
    ensures Pack(ws, Unpack(ws, w)) == w
  {
    if |ws| > 0 {
      var p, q := Pow2(ws[0]), Pow2(Sum(ws[1..]));
      var hi, lo := w / p, w % p;
      Pow2Add(ws[0], Sum(ws[1..]));
      DivBelow(w, p, q);
      PackUnpack(ws[1..], hi);
      var vs := Unpack(ws, w);
      assert vs[0] == lo;
      assert vs[1..] == Unpack(ws[1..], hi);
      assert lo % p == lo by { DivModUnique(lo, p, 0, lo); }
      calc {
        Pack(ws, vs);
        lo % p + p * Pack(ws[1..], vs[1..]);
        lo + p * hi;
        w;
      }
    }
  }
}
