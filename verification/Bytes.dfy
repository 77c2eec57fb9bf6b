// Bytes, little-endian words, and partial writes into a byte buffer.
module Bytes {

  type byte = x: int | 0 <= x < 256

  // What a writer does with one byte of its range: store b, or skip it.
  datatype Cell = Keep | Put(b: byte)

  // ---------------------------------------------------------------- words

  function Pow256(width: nat): (r: nat)
    ensures r > 0
  {
    if width == 0 then 1 else 256 * Pow256(width - 1)
  }

  // The low bytes of n in two's complement, least significant byte first.
  function LittleEndian(n: int, width: nat): (s: seq<byte>)
    ensures |s| == width
    decreases width
  {
    if width == 0 then [] else [n % 256] + LittleEndian(n / 256, width - 1)
  }

  function Unsigned(s: seq<byte>): (n: nat)
    ensures n < Pow256(|s|)
  {
    if s == [] then 0 else s[0] + 256 * Unsigned(s[1..])
  }

  // Two's complement reading of the unsigned word n.
  function AsSigned(n: int, width: nat): int
  {
    if 2 * n >= Pow256(width) then n - Pow256(width) else n
  }

  function Signed(s: seq<byte>): int
  {
    AsSigned(Unsigned(s), |s|)
  }

  function WrapUnsigned(n: int, width: nat): nat
  {
    n % Pow256(width)
  }

  function WrapSigned(n: int, width: nat): int
  {
    AsSigned(n % Pow256(width), width)
  }

  lemma {:induction false} UnsignedOfLittleEndian(n: int, width: nat)
    ensures Unsigned(LittleEndian(n, width)) == WrapUnsigned(n, width)
    decreases width
  {
    if width > 0 {
      var s := LittleEndian(n, width);
      assert s[1..] == LittleEndian(n / 256, width - 1);
      UnsignedOfLittleEndian(n / 256, width - 1);
      SplitModulo(n, Pow256(width - 1));
    }
  }

  lemma SplitModulo(n: int, p: nat)
    requires p > 0
    ensures n % (256 * p) == n % 256 + 256 * ((n / 256) % p)
  {
    var q, r := n / 256, n % 256;
    var a, b := q / p, q % p;
    assert q == p * a + b;
    assert n == (256 * p) * a + (256 * b + r) by {
      assert 256 * q == 256 * (p * a) + 256 * b;
      assert 256 * (p * a) == (256 * p) * a;
    }
    ModuloUnique(n, 256 * p, a, 256 * b + r);
  }

  lemma ScaledStep(d: nat, k: int)
    ensures k >= 1 ==> d * k >= d
    ensures k <= -1 ==> d * k <= -(d as int)
  {}

  // Quotient and remainder are determined by their defining equation.
  lemma ModuloUnique(n: int, d: nat, q: int, r: int)
    requires d > 0 && 0 <= r < d && n == d * q + r
    ensures n % d == r && n / d == q
  {
    var q', r' := n / d, n % d;
    assert d * (q' - q) == r - r' by {
      assert n == d * q' + r';
      assert d * (q' - q) == d * q' - d * q;
    }
    ScaledStep(d, q' - q);
  }

  lemma {:induction false} LittleEndianOfUnsigned(s: seq<byte>)
    ensures LittleEndian(Unsigned(s), |s|) == s
  {
    if s != [] {
      LittleEndianOfUnsigned(s[1..]);
      ModuloUnique(Unsigned(s), 256, Unsigned(s[1..]), s[0]);
      assert s == [s[0]] + s[1..];
    }
  }

  // Byte i of a word has the weight 256 to the power of i.
  lemma {:induction false} LittleEndianAt(n: int, width: nat, i: nat)
    requires i < width
    ensures LittleEndian(n, width)[i] == n / Pow256(i) % 256
    decreases width
  {
    if i > 0 {
      LittleEndianAt(n / 256, width - 1, i - 1);
      DivideTwice(n, Pow256(i - 1));
    }
  }

  lemma DivideTwice(n: int, p: nat)
    requires p > 0
    ensures n / 256 / p == n / (256 * p)
  {
    var q, r := n / 256, n % 256;
    var a, b := q / p, q % p;
    assert n == (256 * p) * a + (256 * b + r) by {
      assert q == p * a + b;
      assert 256 * (p * a) == (256 * p) * a;
    }
    ModuloUnique(n, 256 * p, a, 256 * b + r);
  }

  // Writing n and writing n wrapped to the width store the same bytes.
  lemma LittleEndianWraps(n: int, width: nat)
    ensures LittleEndian(WrapUnsigned(n, width), width) == LittleEndian(n, width)
  {
    UnsignedOfLittleEndian(n, width);
    LittleEndianOfUnsigned(LittleEndian(n, width));
  }

  lemma ShiftByWord(n: int, p: nat)
    requires 0 <= n < p
    ensures n % p == n && (n - p) % p == n
  {
    ModuloUnique(n, p, 0, n);
    ModuloUnique(n - p, p, -1, n);
  }

  // A signed reading differs from the unsigned one by at most a whole word.
  lemma WrapOfSigned(s: seq<byte>)
    ensures WrapUnsigned(Signed(s), |s|) == Unsigned(s)
  {
    ShiftByWord(Unsigned(s), Pow256(|s|));
  }

  lemma LittleEndianOfSigned(s: seq<byte>)
    ensures LittleEndian(Signed(s), |s|) == s
  {
    WrapOfSigned(s);
    LittleEndianWraps(Signed(s), |s|);
    LittleEndianOfUnsigned(s);
  }

  // Equal stored words mean values that agree after wrapping.
  lemma LittleEndianInjective(m: int, n: int, width: nat)
    ensures LittleEndian(m, width) == LittleEndian(n, width) <==> WrapUnsigned(m, width) == WrapUnsigned(n, width)
  {
    UnsignedOfLittleEndian(m, width);
    UnsignedOfLittleEndian(n, width);
    LittleEndianWraps(m, width);
    LittleEndianWraps(n, width);
  }

  // Wrapping is the identity on values the word can hold.
  lemma WrapInRange(n: int, width: nat)
    requires width > 0
    ensures 0 <= n < Pow256(width) ==> WrapUnsigned(n, width) == n
    ensures var p: int := Pow256(width); -p <= 2 * n < p ==> WrapSigned(n, width) == n
    ensures var p: int := Pow256(width); 0 <= WrapUnsigned(n, width) < p && -p <= 2 * WrapSigned(n, width) < p
  {
    var p: int := Pow256(width);
    assert p == 256 * Pow256(width - 1);
    if 0 <= n < p {
      ModuloUnique(n, p, 0, n);
    } else if -p <= 2 * n < 0 {
      ModuloUnique(n, p, -1, n + p);
    }
  }

  // Wrapping shifts a value by whole words.
  lemma WrapShifts(n: int, width: nat)
    ensures (n - WrapUnsigned(n, width)) % Pow256(width) == 0 && (n - WrapSigned(n, width)) % Pow256(width) == 0
  {
    var p: int := Pow256(width);
    var q, r := n / p, n % p;
    ModuloUnique(n - r, p, q, 0);
    assert p * (q + 1) == p * q + p;
    ModuloUnique(n - (r - p), p, q + 1, 0);
  }

  lemma WrapSignedAgrees(n: int, width: nat)
    ensures WrapUnsigned(WrapSigned(n, width), width) == WrapUnsigned(n, width)
  {
    WrapOfSigned(LittleEndian(n, width));
    UnsignedOfLittleEndian(n, width);
  }

  // ---------------------------------------------------------------- cells

  function Puts(s: seq<byte>): (c: seq<Cell>)
    ensures |c| == |s|
  {
    seq(|s|, i requires 0 <= i < |s| => Put(s[i]))
  }

  function Keeps(n: nat): (c: seq<Cell>)
    ensures |c| == n
  {
    seq(n, i => Keep)
  }

  // The buffer after the cells were written from addr on.
  function Overlay(buf: seq<byte>, addr: nat, cells: seq<Cell>): (r: seq<byte>)
    requires addr + |cells| <= |buf|
    ensures |r| == |buf|
  {
    seq(|buf|, i requires 0 <= i < |buf| =>
      if addr <= i < addr + |cells| && cells[i - addr].Put? then cells[i - addr].b else buf[i])
  }

  // The buffer agrees at addr with every byte the cells store.
  predicate Matches(buf: seq<byte>, addr: nat, cells: seq<Cell>)
  {
    && addr + |cells| <= |buf|
    && forall i :: 0 <= i < |cells| && cells[i].Put? ==> buf[addr + i] == cells[i].b
  }

  predicate NoGap(cells: seq<Cell>)
  {
    forall i :: 0 <= i < |cells| ==> cells[i].Put?
  }

  // Some buffer content that the cells describe.
  function Fill(cells: seq<Cell>): (s: seq<byte>)
    ensures |s| == |cells|
  {
    seq(|cells|, i requires 0 <= i < |cells| => if cells[i].Put? then cells[i].b else 0)
  }

  lemma FillMatches(cells: seq<Cell>, rest: seq<byte>)
    ensures Matches(Fill(cells) + rest, 0, cells)
  {}

  lemma OverlayMatches(buf: seq<byte>, addr: nat, cells: seq<Cell>)
    requires addr + |cells| <= |buf|
    ensures Matches(Overlay(buf, addr, cells), addr, cells)
  {}

  // Two writes in a row are one write of the concatenated cells.
  lemma OverlayConcat(buf: seq<byte>, addr: nat, c: seq<Cell>, d: seq<Cell>)
    requires addr + |c| + |d| <= |buf|
    ensures Overlay(Overlay(buf, addr, c), addr + |c|, d) == Overlay(buf, addr, c + d)
  {}

  lemma MatchesConcat(buf: seq<byte>, addr: nat, c: seq<Cell>, d: seq<Cell>)
    ensures Matches(buf, addr, c + d) <==> Matches(buf, addr, c) && Matches(buf, addr + |c|, d)
  {
    if Matches(buf, addr, c + d) {
      forall i | 0 <= i < |c| && c[i].Put?
        ensures buf[addr + i] == c[i].b
      {
        assert (c + d)[i] == c[i];
      }
      forall i | 0 <= i < |d| && d[i].Put?
        ensures buf[addr + |c| + i] == d[i].b
      {
        assert (c + d)[|c| + i] == d[i];
      }
    }
  }

  lemma MatchesPuts(buf: seq<byte>, addr: nat, s: seq<byte>)
    ensures Matches(buf, addr, Puts(s)) <==> addr + |s| <= |buf| && buf[addr..addr + |s|] == s
  {
    if Matches(buf, addr, Puts(s)) {
      forall i | 0 <= i < |s|
        ensures buf[addr + i] == s[i]
      {
        assert Puts(s)[i].Put?;
      }
    } else if addr + |s| <= |buf| {
      var i :| 0 <= i < |s| && buf[addr + i] != s[i];
      assert buf[addr..addr + |s|][i] != s[i];
    }
  }

  lemma PutsConcat(s: seq<byte>, t: seq<byte>)
    ensures Puts(s + t) == Puts(s) + Puts(t)
  {}

  lemma MatchesPair(buf: seq<byte>, addr: nat, w: seq<byte>, s: seq<byte>)
    ensures Matches(buf, addr, Puts(w + s)) <==>
            Matches(buf, addr, Puts(w)) && addr + |w| + |s| <= |buf| && buf[addr + |w|..addr + |w| + |s|] == s
  {
    PutsConcat(w, s);
    MatchesConcat(buf, addr, Puts(w), Puts(s));
    MatchesPuts(buf, addr + |w|, s);
  }

  lemma MatchesKeeps(buf: seq<byte>, addr: nat, n: nat)
    ensures Matches(buf, addr, Keeps(n)) <==> addr + n <= |buf|
  {}

  lemma NoGapConcat(c: seq<Cell>, d: seq<Cell>)
    ensures NoGap(c + d) <==> NoGap(c) && NoGap(d)
  {
    if NoGap(c + d) {
      assert forall i :: 0 <= i < |c| ==> c[i] == (c + d)[i];
      assert forall i :: 0 <= i < |d| ==> d[i] == (c + d)[|c| + i];
    }
  }

  // A gap-free write leaves nothing of the earlier content in its range.
  lemma NoGapForgets(buf: seq<byte>, other: seq<byte>, addr: nat, cells: seq<Cell>)
    requires addr + |cells| <= |buf| && addr + |cells| <= |other|
    requires NoGap(cells)
    ensures Overlay(buf, addr, cells)[addr..addr + |cells|] == Overlay(other, addr, cells)[addr..addr + |cells|] ==
        Fill(cells)
  {}
}
