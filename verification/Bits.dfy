/** Big-endian bit strings, and the shift registers that stand in for them. */
module Bits {
  import opened Arithmetic

  type bit = n: nat | n < 2
  type bits = seq<bit>

  function Pow2(k: nat): (p: nat)
    ensures p > 0
  {
    if k == 0 then 1 else 2 * Pow2(k - 1)
  }

  /** The number a bit string writes, most significant bit first. */
  function Val(s: bits): nat {
    if s == [] then 0 else 2 * Val(s[..|s| - 1]) + s[|s| - 1]
  }

  function BitsOf(n: nat, width: nat): (s: bits)
    ensures |s| == width
  {
    if width == 0 then [] else BitsOf(n / 2, width - 1) + [n % 2]
  }

  function Zeros(n: nat): (s: bits)
    ensures |s| == n
  {
    seq(n, _ => 0)
  }

  lemma {:induction false} ValOfBits(n: nat, width: nat)
    requires n < Pow2(width)
    ensures Val(BitsOf(n, width)) == n
  {
    if width > 0 {
      ValOfBits(n / 2, width - 1);
      var s := BitsOf(n, width);
      assert s[..|s| - 1] == BitsOf(n / 2, width - 1);
    }
  }

  lemma {:induction false} BitsOfVal(s: bits)
    ensures Val(s) < Pow2(|s|)
    ensures BitsOf(Val(s), |s|) == s
  {
    if s != [] { BitsOfVal(s[..|s| - 1]); }
  }

  lemma TwiceProduct(x: nat, y: nat)
    ensures 2 * (x * y) == 2 * x * y
    ensures 2 * (x * y) == x * (2 * y)
  {
  }

  lemma {:induction false} PowAdd(a: nat, b: nat)
    ensures Pow2(a + b) == Pow2(a) * Pow2(b)
  {
    if a > 0 {
      PowAdd(a - 1, b);
      TwiceProduct(Pow2(a - 1), Pow2(b));
    }
  }

  lemma ValSnoc(s: bits, l: bit)
    ensures Val(s + [l]) == 2 * Val(s) + l
  {
    assert (s + [l])[..|s|] == s;
  }

  lemma {:induction false} ValAppend(a: bits, b: bits)
    ensures Val(a + b) == Val(a) * Pow2(|b|) + Val(b)
  {
    hide Val;
    if b == [] {
      assert a + b == a;
      ValNothing();
    } else {
      var front, l := b[..|b| - 1], b[|b| - 1];
      ValAppend(a, front);
      ValSnoc(front, l);
      ValSnoc(a + front, l);
      assert b == front + [l] && a + b == a + front + [l];
      TwiceProduct(Val(a), Pow2(|front|));
    }
  }

  lemma ValNothing()
    ensures Val([]) == 0
  {
  }

  lemma {:induction false} ValZeros(n: nat)
    ensures Val(Zeros(n)) == 0
  {
    if n > 0 {
      ValZeros(n - 1);
      assert Zeros(n)[..n - 1] == Zeros(n - 1);
    }
  }

  /** Dividing by a power of two splits the bit string. */
  lemma SplitVal(top: bits, low: bits)
    ensures Val(top + low) / Pow2(|low|) == Val(top)
    ensures Val(top + low) % Pow2(|low|) == Val(low)
  {
    hide Val, Pow2, BitsOf;
    ValAppend(top, low);
    BitsOfVal(low);
    DivModUnique(Val(top + low), Pow2(|low|), Val(top), Val(low));
  }

  // ---------------------------------------------------------------- registers

  /** `(register << width) | n` in a register of `size` bits, for an `n` of at most `width` bits. */
  function Push(register: nat, size: nat, n: nat, width: nat): nat {
    (register * Pow2(width) + n) % Pow2(size)
  }

  /** `register >> count`. */
  function ShiftRight(register: nat, count: nat): nat {
    DivNat(register, Pow2(count));
    register / Pow2(count)
  }

  lemma DivNat(x: nat, p: nat)
    requires p > 0
    ensures x / p >= 0
  {
  }

  /** The low `width` bits. */
  function Low(n: nat, width: nat): (r: nat)
    ensures r < Pow2(width)
  {
    n % Pow2(width)
  }

  /** The low end of a register of `size` bits holds `s`. */
  ghost predicate Holds(register: nat, size: nat, s: bits) {
    register < Pow2(size) && |s| <= size && BitsOf(register, size)[size - |s|..] == s
  }

  lemma HoldsNothing(size: nat)
    ensures Holds(0, size, [])
  {
  }

  lemma LowOfVal(s: bits, k: nat)
    requires k <= |s|
    ensures Low(Val(s), |s| - k) == Val(s[k..])
  {
    hide Val, Pow2;
    SplitVal(s[..k], s[k..]);
    assert s == s[..k] + s[k..];
  }

  lemma ShiftRightOfVal(s: bits, k: nat)
    requires k <= |s|
    ensures ShiftRight(Val(s), |s| - k) == Val(s[..k])
  {
    hide Val, Pow2;
    SplitVal(s[..k], s[k..]);
    assert s == s[..k] + s[k..];
  }

  /** Pushing `new'` into a register: the oldest bits fall out. */
  lemma PushOfVal(old': bits, new': bits)
    ensures Push(Val(old'), |old'|, Val(new'), |new'|) == Val((old' + new')[|new'|..])
  {
    hide Val, Pow2;
    ValAppend(old', new');
    LowOfVal(old' + new', |new'|);
  }

  /** Shifting `width` new bits in from the right keeps everything that fits. */
  lemma ShiftIn(register: nat, size: nat, s: bits, n: nat, width: nat)
    requires Holds(register, size, s) && n < Pow2(width) && |s| + width <= size
    ensures Holds(Push(register, size, n, width), size, s + BitsOf(n, width))
  {
    hide Val, Pow2, BitsOf, Push;
    var old', new' := BitsOf(register, size), BitsOf(n, width);
    ValOfBits(register, size);
    ValOfBits(n, width);
    PushOfVal(old', new');
    var all := (old' + new')[width..];
    BitsOfVal(all);
    assert all[size - |s| - width..] == s + new';
  }

  /** Reading the top `width` of the held bits, and what is then still held. */
  lemma ReadTop(register: nat, size: nat, s: bits, width: nat)
    requires Holds(register, size, s) && width <= |s|
    ensures Low(ShiftRight(register, |s| - width), width) == Val(s[..width])
    ensures Holds(register, size, s[width..])
  {
    hide Val, Pow2, BitsOf, Low, ShiftRight;
    var all, cut := BitsOf(register, size), size - |s| + width;
    ValOfBits(register, size);
    ShiftRightOfVal(all, cut);
    LowOfVal(all[..cut], cut - width);
    assert all[..cut][cut - width..] == s[..width];
    assert all[cut..] == s[width..];
  }

  lemma LowHeld(register: nat, size: nat, s: bits)
    requires Holds(register, size, s)
    ensures Low(register, |s|) == Val(s)
  {
    hide Val, Pow2, BitsOf, Low;
    ValOfBits(register, size);
    LowOfVal(BitsOf(register, size), size - |s|);
  }

  lemma {:induction false} ZeroBits(n: nat)
    ensures BitsOf(0, n) == Zeros(n)
  {
    if n > 0 { ZeroBits(n - 1); }
  }

  /** The held bits with zeros shifted in up to `width`. */
  lemma ReadPadded(register: nat, size: nat, s: bits, width: nat)
    requires Holds(register, size, s) && |s| <= width <= size
    ensures Low(Push(register, size, 0, width - |s|), width) == Val(s + Zeros(width - |s|))
  {
    hide Val, Pow2, BitsOf, Low, Push, Zeros, Holds;
    var z := width - |s|;
    ShiftIn(register, size, s, 0, z);
    ZeroBits(z);
    LowHeld(Push(register, size, 0, z), size, s + BitsOf(0, z));
  }

  // ---------------------------------------------------------------- groups of bits

  /** The values of consecutive `width`-bit groups; an incomplete last group is dropped. */
  function Pack(s: bits, width: nat): (v: seq<nat>)
    requires width > 0
    decreases |s|
  {
    if |s| < width then [] else [Val(s[..width])] + Pack(s[width..], width)
  }

  /** The incomplete last group. */
  function Leftover(s: bits, width: nat): (r: bits)
    requires width > 0
    ensures |r| < width
    decreases |s|
  {
    if |s| < width then s else Leftover(s[width..], width)
  }

  function Unpack(v: seq<nat>, width: nat): bits {
    if v == [] then [] else BitsOf(v[0], width) + Unpack(v[1..], width)
  }

  lemma {:induction false} UnpackLength(v: seq<nat>, width: nat)
    ensures |Unpack(v, width)| == |v| * width
  {
    hide BitsOf;
    if v != [] {
      UnpackLength(v[1..], width);
      MulMonotone(|v| - 1, |v|, width);
    }
  }

  lemma UnpackCons(x: nat, v: seq<nat>, width: nat)
    ensures Unpack([x] + v, width) == BitsOf(x, width) + Unpack(v, width)
  {
    hide BitsOf;
    assert ([x] + v)[1..] == v;
  }

  ghost predicate Below(v: seq<nat>, bound: nat) {
    forall i :: 0 <= i < |v| ==> v[i] < bound
  }

  lemma {:induction false} PackBelow(s: bits, width: nat)
    requires width > 0
    ensures Below(Pack(s, width), Pow2(width))
    decreases |s|
  {
    hide Val, Pow2;
    if |s| >= width {
      PackBelow(s[width..], width);
      BitsOfVal(s[..width]);
    }
  }

  /** Unpacking restores the complete groups. */
  lemma {:induction false} UnpackPack(s: bits, width: nat)
    requires width > 0
    ensures Unpack(Pack(s, width), width) + Leftover(s, width) == s
    decreases |s|
  {
    hide Val, BitsOf, Unpack;
    if |s| < width {
      UnpackNone(width);
      assert [] + s == s;
    } else {
      var first, rest := s[..width], s[width..];
      var p, l := Pack(rest, width), Leftover(rest, width);
      UnpackPack(rest, width);
      BitsOfVal(first);
      UnpackCons(Val(first), p, width);
      JoinSplit(s, first, Unpack(p, width), l);
    }
  }

  lemma JoinSplit(s: bits, first: bits, packed: bits, l: bits)
    requires |first| <= |s| && first == s[..|first|] && packed + l == s[|first|..]
    ensures first + packed + l == s
  {
  }

  lemma UnpackNone(width: nat)
    ensures Unpack([], width) == []
  {
  }

  /** Packing restores the values, whatever incomplete group follows. */
  lemma {:induction false} PackUnpack(v: seq<nat>, rest: bits, width: nat)
    requires width > 0 && Below(v, Pow2(width)) && |rest| < width
    ensures Pack(Unpack(v, width) + rest, width) == v
    ensures Leftover(Unpack(v, width) + rest, width) == rest
    decreases |v|
  {
    hide Val, Pow2, BitsOf;
    if v == [] {
      assert Unpack(v, width) + rest == rest;
    } else {
      var first, more := BitsOf(v[0], width), Unpack(v[1..], width) + rest;
      var s := first + more;
      assert Unpack(v, width) + rest == s;
      assert s[..width] == first && s[width..] == more;
      ValOfBits(v[0], width);
      PackUnpack(v[1..], rest, width);
    }
  }

  lemma {:induction false} UnpackSnoc(v: seq<nat>, x: nat, width: nat)
    ensures Unpack(v + [x], width) == Unpack(v, width) + BitsOf(x, width)
  {
    hide BitsOf;
    if v == [] {
      assert [x][1..] == [] && Unpack([], width) == [];
      assert v + [x] == [x];
    } else {
      assert (v + [x])[1..] == v[1..] + [x];
      UnpackSnoc(v[1..], x, width);
    }
  }
}
