/** Bytes, powers, big-endian integers and concatenation: the vocabulary the
    container writer and the duration patcher share. */
module Bytes {

  /** One element of a `Uint8Array`. */
  type byte = b: int | 0 <= b < 256

  /** The four bytes DataView's `setFloat32` stores (big-endian IEEE 754
      single precision); the float arithmetic itself is not modelled. */
  type Float32Bytes = s: seq<byte> | |s| == 4 witness [0, 0, 0, 0]

  /** The eight bytes DataView's `setFloat64` stores (big-endian IEEE 754
      double precision). */
  type Float64Bytes = s: seq<byte> | |s| == 8 witness [0, 0, 0, 0, 0, 0, 0, 0]

  function Pow2(n: nat): (r: nat)
    ensures r >= 1
  {
    if n == 0 then 1 else 2 * Pow2(n - 1)
  }

  function Pow256(n: nat): (r: nat)
    ensures r >= 1
  {
    if n == 0 then 1 else 256 * Pow256(n - 1)
  }

  /** The low `width` bytes of `v`, most significant first: what DataView's
      big-endian integer setters store. A negative `v` is stored in two's
      complement, i.e. modulo 256^width. */
  function BigEndian(v: int, width: nat): (r: seq<byte>)
    ensures |r| == width
    decreases width
  {
    if width == 0 then [] else BigEndian(v / 256, width - 1) + [v % 256]
  }

  /** The unsigned big-endian value of a byte string. */
  function BeValue(s: seq<byte>): (r: nat)
    ensures r < Pow256(|s|)
  {
    if s == [] then 0 else BeValue(s[..|s| - 1]) * 256 + s[|s| - 1]
  }

  /** `b | (1 << j)`: the only kind of bitwise OR the source performs is with
      a single-bit marker, and this is that operation on one byte. */
  function SetBit(b: byte, j: nat): (r: byte)
    requires j < 8
  {
    if BitSet(b, j) then b else SetBitFits(b, j); b + Pow2(j)
  }

  /** Bit `j` of `b`: the low bit after `j` right shifts. */
  predicate BitSet(b: nat, j: nat)
    decreases j
  {
    if j == 0 then b % 2 == 1 else BitSet(b / 2, j - 1)
  }

  /** Bit `j` is the parity of `b / 2^j`. */
  lemma {:induction false} BitSetDiv(b: nat, j: nat)
    ensures BitSet(b, j) <==> (b / Pow2(j)) % 2 == 1
    decreases j
  {
    if j > 0 {
      BitSetDiv(b / 2, j - 1);
      DivDiv(b, Pow2(j - 1));
    }
  }

  /** Halving and then dividing by `P` divides by `2P`. */
  lemma DivDiv(b: nat, P: nat)
    requires P >= 1
    ensures (b / 2) / P == b / (2 * P)
  {
    var q := b / (2 * P);
    var r := b % (2 * P);
    assert b == 2 * (P * q) + r;
    ModUnique(b, 2, P * q + r / 2, r % 2);
    ModUnique(b / 2, P, q, r / 2);
  }

  lemma SetBitFits(b: byte, j: nat)
    requires j < 8
    requires !BitSet(b, j)
    ensures b + Pow2(j) < 256
  {
    PowersOfTwo();
    BitSetDiv(b, j);
    if j == 0 {
      assert (b / 1) % 2 == 0;
    } else if j == 1 {
      assert (b / 2) % 2 == 0;
    } else if j == 2 {
      assert (b / 4) % 2 == 0;
    } else if j == 3 {
      assert (b / 8) % 2 == 0;
    } else if j == 4 {
      assert (b / 16) % 2 == 0;
    } else if j == 5 {
      assert (b / 32) % 2 == 0;
    } else if j == 6 {
      assert (b / 64) % 2 == 0;
    } else {
      assert (b / 128) % 2 == 0;
    }
  }

  /** The eight powers of two that one byte can hold. */
  lemma PowersOfTwo()
    ensures Pow2(0) == 1 && Pow2(1) == 2 && Pow2(2) == 4 && Pow2(3) == 8
    ensures Pow2(4) == 16 && Pow2(5) == 32 && Pow2(6) == 64 && Pow2(7) == 128
    ensures Pow2(8) == 256
  {
  }

  /** Setting a bit that lies above every set bit adds it. */
  lemma SetBitBelow(b: byte, j: nat)
    requires j < 8 && b < Pow2(j)
    ensures SetBit(b, j) == b + Pow2(j)
  {
    BitSetDiv(b, j);
    ModUnique(b, Pow2(j), 0, b);
  }

  /** Setting a bit that is already the top set bit changes nothing. */
  lemma SetBitAlreadySet(b: byte, j: nat)
    requires j < 8 && Pow2(j) <= b < 2 * Pow2(j)
    ensures SetBit(b, j) == b
  {
    PowersOfTwo();
    BitSetDiv(b, j);
  }

  /** Setting bit `j` never yields less than 2^j, and yields less than 2^(j+1)
      only if the byte was already below 2^(j+1). */
  lemma SetBitRange(b: byte, j: nat)
    requires j < 8
    ensures SetBit(b, j) >= Pow2(j) && SetBit(b, j) >= b
    ensures SetBit(b, j) < 2 * Pow2(j) ==> b < 2 * Pow2(j)
  {
    var p := Pow2(j);
    BitSetDiv(b, j);
    if (b / p) % 2 == 1 {
      DivMod(b, p);
      MulAwayFromZero(p, b / p);
    }
  }

  lemma PowersOf256()
    ensures Pow256(0) == 1 && Pow256(1) == 0x100 && Pow256(2) == 0x1_0000
    ensures Pow256(3) == 0x100_0000 && Pow256(4) == 0x1_0000_0000
  {
  }

  /** Prepending a byte adds it at the top weight. */
  lemma {:induction false} BeValueCons(a: byte, s: seq<byte>)
    ensures BeValue([a] + s) == a * Pow256(|s|) + BeValue(s)
    decreases |s|
  {
    if s == [] {
      assert [a] + s == [a];
      assert [a][..0] == [];
    } else {
      var s' := s[..|s| - 1];
      assert ([a] + s)[..|s|] == [a] + s';
      BeValueCons(a, s');
      assert BeValue([a] + s) == BeValue([a] + s') * 256 + s[|s| - 1];
      Regroup(a, Pow256(|s'|), BeValue(s'), s[|s| - 1]);
    }
  }

  /** Shifting `a P + B` one byte up and adding `c`. */
  lemma Regroup(a: int, P: int, B: int, c: int)
    ensures (a * P + B) * 256 + c == a * (256 * P) + (B * 256 + c)
  {
  }

  /** Euclidean remainder is determined by any decomposition with a remainder in range. */
  lemma ModUnique(v: int, m: int, q: int, c: int)
    requires m > 0 && 0 <= c < m && v == m * q + c
    ensures v % m == c && v / m == q
  {
    var k := q - v / m;
    assert m * k == v % m - c;
    MulAwayFromZero(m, k);
  }

  lemma MulAwayFromZero(m: int, k: int)
    requires m > 0
    ensures k >= 1 ==> m * k >= m
    ensures k <= -1 ==> m * k <= -m
  {
    if k >= 1 {
      assert m * k == m + m * (k - 1);
    } else if k <= -1 {
      assert m * k == -m + m * (k + 1);
    }
  }

  /** Quotient and remainder put back together. */
  lemma DivMod(v: int, P: nat)
    requires P >= 1
    ensures (v / P) * P + v % P == v
  {
  }

  /** The remainder modulo `256 P` splits into the remainder of `v / 256`
      modulo `P` and the low byte. */
  lemma ModStep(v: int, P: nat)
    requires P >= 1
    ensures v % (256 * P) == ((v / 256) % P) * 256 + v % 256
  {
    var q := v / 256;
    var c := (q % P) * 256 + v % 256;
    assert 0 <= c < 256 * P by {
      assert q % P <= P - 1;
      assert (q % P) * 256 <= (P - 1) * 256;
    }
    assert v == (256 * P) * (q / P) + c by {
      assert v == 256 * q + v % 256;
      assert q == P * (q / P) + q % P;
      assert 256 * q == (256 * P) * (q / P) + (q % P) * 256;
    }
    ModUnique(v, 256 * P, q / P, c);
  }

  /** Decoding the stored bytes gives back the integer modulo 256^width. */
  lemma {:induction false} BeValueBigEndian(v: int, width: nat)
    ensures BeValue(BigEndian(v, width)) == v % Pow256(width)
    decreases width
  {
    if width > 0 {
      var s := BigEndian(v, width);
      var p := BigEndian(v / 256, width - 1);
      assert s[..|s| - 1] == p;
      BeValueBigEndian(v / 256, width - 1);
      assert BeValue(s) == ((v / 256) % Pow256(width - 1)) * 256 + v % 256;
      ModStep(v, Pow256(width - 1));
    }
  }

  /** Storing the big-endian bytes of a decoded string reproduces the string. */
  lemma {:induction false} BigEndianBeValue(s: seq<byte>)
    ensures BigEndian(BeValue(s), |s|) == s
    decreases |s|
  {
    if s != [] {
      var s' := s[..|s| - 1];
      var v := BeValue(s);
      assert v == BeValue(s') * 256 + s[|s| - 1];
      ModUnique(v, 256, BeValue(s'), s[|s| - 1]);
      BigEndianBeValue(s');
    }
  }

  /** Concatenation of a list of byte strings, in order (`combineArrays`). */
  function Flatten<T>(parts: seq<seq<T>>): seq<T>
  {
    if parts == [] then [] else Flatten(parts[..|parts| - 1]) + parts[|parts| - 1]
  }

  /** Sum of the lengths of a list of byte strings. */
  function TotalLength<T>(parts: seq<seq<T>>): nat
  {
    if parts == [] then 0 else TotalLength(parts[..|parts| - 1]) + |parts[|parts| - 1]|
  }

  lemma {:induction false} FlattenLength<T>(parts: seq<seq<T>>)
    ensures |Flatten(parts)| == TotalLength(parts)
    decreases |parts|
  {
    if parts != [] {
      FlattenLength(parts[..|parts| - 1]);
    }
  }

  lemma {:induction false} FlattenAppend<T>(a: seq<seq<T>>, b: seq<seq<T>>)
    ensures Flatten(a + b) == Flatten(a) + Flatten(b)
    decreases |b|
  {
    if b == [] {
      assert a + b == a;
    } else {
      var b' := b[..|b| - 1];
      assert (a + b)[..|a + b| - 1] == a + b';
      FlattenAppend(a, b');
    }
  }

  lemma {:induction false} TotalLengthPrefix<T>(parts: seq<seq<T>>, i: nat)
    requires i <= |parts|
    ensures TotalLength(parts[..i]) <= TotalLength(parts)
    decreases |parts|
  {
    if i < |parts| {
      assert parts[..|parts| - 1][..i] == parts[..i];
      TotalLengthPrefix(parts[..|parts| - 1], i);
    } else {
      assert parts[..i] == parts;
    }
  }

  lemma FlattenOne<T>(a: seq<T>)
    ensures Flatten([a]) == a
  {
    assert [a][..0] == [];
  }

  lemma FlattenTwo<T>(a: seq<T>, b: seq<T>)
    ensures Flatten([a, b]) == a + b
  {
    FlattenOne(a);
    assert [a, b][..1] == [a];
  }

  lemma FlattenThree<T>(a: seq<T>, b: seq<T>, c: seq<T>)
    ensures Flatten([a, b, c]) == a + b + c
  {
    FlattenTwo(a, b);
    assert [a, b, c][..2] == [a, b];
  }

  lemma FlattenFive<T>(a: seq<T>, b: seq<T>, c: seq<T>, d: seq<T>, e: seq<T>)
    ensures Flatten([a, b, c, d, e]) == a + b + c + d + e
  {
    FlattenThree(a, b, c);
    assert [a, b, c, d][..3] == [a, b, c];
    assert [a, b, c, d, e][..4] == [a, b, c, d];
  }

  lemma SliceAppend<T>(a: seq<T>, b: seq<T>, n: nat)
    requires n <= |a|
    ensures (a + b)[n..] == a[n..] + b
  {
  }

  lemma AppendAssoc<T>(a: seq<T>, b: seq<T>, c: seq<T>)
    ensures a + (b + c) == (a + b) + c
  {
  }
}
