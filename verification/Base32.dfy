/**
  Base32 (section 6 of RFC 4648) as src/bin/rnid.rs computes it, with a truncating
  16-bit register when encoding and a 32-bit one when decoding.
 */
module Base32 {
  import opened Wrappers
  import opened Bytes
  import opened Arithmetic
  import opened Bits

  type digit = n: nat | n < 32
  type text = string

  const PADDING: char := '='

  function Letter(d: digit): char {
    if d < 26 then ('A' as int + d) as char else ('2' as int + (d - 26)) as char
  }

  /** Letters of either case are accepted. */
  function DigitOf(c: char): Option<digit> {
    if 'A' <= c <= 'Z' then Some(c as int - 'A' as int)
    else if 'a' <= c <= 'z' then Some(c as int - 'a' as int)
    else if '2' <= c <= '7' then Some(c as int - '2' as int + 26)
    else None
  }

  function Letters(digits: seq<digit>): (t: text)
    ensures |t| == |digits|
  {
    seq(|digits|, i requires 0 <= i < |digits| => Letter(digits[i]))
  }

  predicate AllDigits(t: text) { forall i :: 0 <= i < |t| ==> DigitOf(t[i]).Some? }

  function Digits(t: text): (d: seq<digit>)
    requires AllDigits(t)
    ensures |d| == |t|
  {
    seq(|t|, i requires 0 <= i < |t| => DigitOf(t[i]).value)
  }

  /** `trim_end_matches('=')`. */
  function TrimPadding(s: text): text {
    if s != [] && s[|s| - 1] == PADDING then TrimPadding(s[..|s| - 1]) else s
  }

  function Padding(n: nat): (s: text)
    ensures |s| == n
  {
    seq(n, _ => PADDING)
  }

  /** Fill up to a multiple of eight characters. */
  function Pad(t: text): text { t + Padding((8 - |t| % 8) % 8) }

  lemma Powers()
    ensures Pow2(0) == 1 && Pow2(5) == 32 && Pow2(8) == 256 && Pow2(16) == 0x1_0000 && Pow2(32) == 0x1_0000_0000
  {
    assert Pow2(1) == 2 && Pow2(2) == 4 && Pow2(3) == 8 && Pow2(4) == 16;
    PowAdd(8, 8);
    PowAdd(16, 16);
  }

  // ---------------------------------------------------------------- the unbounded specification

  /** All the input's bits in order, completed with zeros to whole digits. */
  function PaddedBits(data: bytes): bits {
    Unpack(data, 8) + Zeros((5 - 8 * |data| % 5) % 5)
  }

  function EncodedDigits(data: bytes): seq<digit> {
    PackBelow(PaddedBits(data), 5);
    Powers();
    Pack(PaddedBits(data), 5)
  }

  function EncodedText(data: bytes): text { Pad(Letters(EncodedDigits(data))) }

  /** The whole bytes of the digits' bits; what is left over is dropped. */
  function DecodedBytes(digits: seq<digit>): bytes {
    PackBelow(Unpack(digits, 5), 8);
    Powers();
    Pack(Unpack(digits, 5), 8)
  }

  function DecodedText(s: text): Option<bytes> {
    var t := TrimPadding(s);
    if AllDigits(t) then Some(DecodedBytes(Digits(t))) else None
  }

  // ---------------------------------------------------------------- the register loops

  /** `(buffer >> (bits - 5)) & 0x1f`. */
  function ReadDigit(buffer: nat, bitCount: nat): digit
    requires bitCount >= 5
  {
    Powers();
    Low(ShiftRight(buffer, bitCount - 5), 5)
  }

  /** `(buffer << (5 - bits)) & 0x1f`. */
  function PaddedDigit(buffer: nat, bitCount: nat): digit
    requires bitCount <= 5
  {
    Powers();
    Low(Push(buffer, 16, 0, 5 - bitCount), 5)
  }

  /** `(buffer >> (bits - 8)) & 0xff`. */
  function ReadByte(buffer: nat, bitCount: nat): byte
    requires bitCount >= 8
  {
    Powers();
    Low(ShiftRight(buffer, bitCount - 8), 8)
  }

  /** The digits written so far and the bits still in the register are the bits of the bytes read. */
  ghost predicate Encoding(read: bytes, digits: seq<digit>, buffer: nat, pending: bits) {
    Unpack(digits, 5) + pending == Unpack(read, 8) && Holds(buffer, 16, pending)
  }

  lemma EncodingStart()
    ensures Encoding([], [], 0, [])
  {
    UnpackNone(5);
    UnpackNone(8);
    HoldsNothing(16);
  }

  lemma ByteIn(read: bytes, digits: seq<digit>, buffer: nat, pending: bits, b: byte)
    requires Encoding(read, digits, buffer, pending) && |pending| <= 8
    ensures Encoding(read + [b], digits, Push(buffer, 16, b, 8), pending + BitsOf(b, 8))
  {
    hide Pow2, Val, BitsOf, Unpack, Holds, Push, ShiftRight, Low;
    Powers();
    UnpackSnoc(read, b, 8);
    ShiftIn(buffer, 16, pending, b, 8);
    assert Unpack(digits, 5) + pending + BitsOf(b, 8) == Unpack(digits, 5) + (pending + BitsOf(b, 8));
  }

  lemma DigitOut(read: bytes, digits: seq<digit>, buffer: nat, pending: bits)
    requires Encoding(read, digits, buffer, pending) && |pending| >= 5
    ensures Encoding(read, digits + [ReadDigit(buffer, |pending|)], buffer, pending[5..])
  {
    hide Pow2, Val, BitsOf, Unpack, Holds, Push, ShiftRight, Low;
    Powers();
    ReadTop(buffer, 16, pending, 5);
    var index := ReadDigit(buffer, |pending|);
    BitsOfVal(pending[..5]);
    UnpackSnoc(digits, index, 5);
    TakeGroup(Unpack(digits, 5), pending, 5, BitsOf(index, 5));
  }

  /** When the input is used up, the register's rest completed with zeros is the last digit. */
  lemma LastDigit(data: bytes, digits: seq<digit>, buffer: nat, pending: bits)
    requires Encoding(data, digits, buffer, pending) && |pending| < 5
    ensures EncodedDigits(data) ==
            if pending == [] then digits else digits + [PaddedDigit(buffer, |pending|)]
  {
    hide Pow2, Val, BitsOf, Unpack, Holds, Push, ShiftRight, Low, Pack;
    Powers();
    UnpackLength(data, 8);
    UnpackLength(digits, 5);
    var all, z := digits, 5 - |pending|;
    if pending == [] {
      assert Unpack(digits, 5) + Zeros(0) == Unpack(digits, 5) + pending;
    } else {
      ReadPadded(buffer, 16, pending, 5);
      var index := PaddedDigit(buffer, |pending|);
      BitsOfVal(pending + Zeros(z));
      UnpackSnoc(digits, index, 5);
      assert Unpack(digits, 5) + (pending + Zeros(z)) == Unpack(digits, 5) + pending + Zeros(z);
      all := digits + [index];
    }
    assert Unpack(all, 5) + [] == PaddedBits(data);
    PackUnpack(all, [], 5);
  }

  method Base32Encode(data: bytes) returns (out: text)
    ensures out == EncodedText(data)
  {
    hide Pow2, EncodedDigits, Encoding, Letter, ReadDigit, PaddedDigit, Push;
    out := [];
    var buffer: nat, bitCount: nat := 0, 0;
    ghost var digits: seq<digit>, pending: bits := [], [];
    EncodingStart();
    assert data[..0] == [];
    for i := 0 to |data|
      invariant out == Letters(digits)
      invariant |pending| == bitCount < 5 && Encoding(data[..i], digits, buffer, pending)
    {
      assert data[..i + 1] == data[..i] + [data[i]];
      ByteIn(data[..i], digits, buffer, pending, data[i]);
      buffer := Push(buffer, 16, data[i], 8);
      bitCount := bitCount + 8;
      pending := pending + BitsOf(data[i], 8);
      while bitCount >= 5
        invariant out == Letters(digits)
        invariant |pending| == bitCount && Encoding(data[..i + 1], digits, buffer, pending)
      {
        DigitOut(data[..i + 1], digits, buffer, pending);
        var index := ReadDigit(buffer, bitCount);
        out := out + [Letter(index)];
        bitCount := bitCount - 5;
        digits, pending := digits + [index], pending[5..];
      }
    }
    assert data[..|data|] == data;
    LastDigit(data, digits, buffer, pending);
    if bitCount > 0 {
      var index := PaddedDigit(buffer, bitCount);
      out := out + [Letter(index)];
    }
    out := AppendPadding(out);
  }

  method AppendPadding(t: text) returns (out: text)
    ensures out == Pad(t)
  {
    out := t;
    ghost var k := 0;
    while |out| % 8 != 0
      invariant 0 <= k <= (8 - |t| % 8) % 8 && out == t + Padding(k)
      decreases (8 - |t| % 8) % 8 - k
    {
      assert Padding(k) + [PADDING] == Padding(k + 1);
      out := out + [PADDING];
      k := k + 1;
    }
  }

  lemma TakeGroup(done: bits, pending: bits, width: nat, group: bits)
    requires width <= |pending| && group == pending[..width]
    ensures done + group + pending[width..] == done + pending
  {
  }

  method Base32Decode(input: text) returns (r: Option<bytes>)
    ensures r == DecodedText(input)
  {
    hide Pow2, Val, BitsOf, Unpack, Holds, Push, ShiftRight, Low, DigitOf, TrimPadding;
    Powers();
    var t := TrimPadding(input);
    var out: bytes := [];
    var buffer: nat, bitCount: nat := 0, 0;
    ghost var pending: bits := [];
    HoldsNothing(32);
    UnpackNone(5);
    UnpackNone(8);
    for i := 0 to |t|
      invariant AllDigits(t[..i])
      invariant Unpack(out, 8) + pending == Unpack(Digits(t[..i]), 5)
      invariant |pending| == bitCount < 8 && Holds(buffer, 32, pending)
    {
      var value := DigitOf(t[i]);
      if value.None? { return None; }
      var d := value.value;
      assert t[..i + 1] == t[..i] + [t[i]];
      assert Digits(t[..i + 1]) == Digits(t[..i]) + [d];
      UnpackSnoc(Digits(t[..i]), d, 5);
      ShiftIn(buffer, 32, pending, d, 5);
      assert Unpack(out, 8) + pending + BitsOf(d, 5) == Unpack(out, 8) + (pending + BitsOf(d, 5));
      buffer := Push(buffer, 32, d, 5);
      bitCount := bitCount + 5;
      pending := pending + BitsOf(d, 5);
      if bitCount >= 8 {
        ReadTop(buffer, 32, pending, 8);
        var b := ReadByte(buffer, bitCount);
        BitsOfVal(pending[..8]);
        UnpackSnoc(out, b, 8);
        TakeGroup(Unpack(out, 8), pending, 8, BitsOf(b, 8));
        out := out + [b];
        bitCount := bitCount - 8;
        pending := pending[8..];
      }
    }
    assert t[..|t|] == t;
    PackUnpack(out, pending, 8);
    return Some(out);
  }

  // ---------------------------------------------------------------- round trips

  lemma LetterFacts(digits: seq<digit>)
    ensures AllDigits(Letters(digits)) && Digits(Letters(digits)) == digits
    ensures TrimPadding(Pad(Letters(digits))) == Letters(digits)
  {
    var t := Letters(digits);
    TrimPadded(t, (8 - |t| % 8) % 8);
  }

  lemma {:induction false} TrimPadded(t: text, n: nat)
    requires t != [] ==> t[|t| - 1] != PADDING
    ensures TrimPadding(t + Padding(n)) == t
  {
    var s := t + Padding(n);
    if n > 0 {
      assert s[..|s| - 1] == t + Padding(n - 1);
      TrimPadded(t, n - 1);
    } else {
      assert s == t;
    }
  }

  /** The digits write the input's bits, and fewer than five zeros after them. */
  lemma DigitsHoldTheBits(data: bytes)
    ensures Unpack(EncodedDigits(data), 5) == PaddedBits(data)
  {
    hide Pow2, Val, BitsOf, Unpack, Pack;
    var b := PaddedBits(data);
    UnpackPack(b, 5);
    UnpackLength(data, 8);
    UnpackLength(EncodedDigits(data), 5);
    assert Leftover(b, 5) == [];
    assert Unpack(EncodedDigits(data), 5) + [] == Unpack(EncodedDigits(data), 5);
  }

  /** decode(encode(x)) == x for every byte string. */
  lemma EncodeDecode(data: bytes)
    ensures DecodedText(EncodedText(data)) == Some(data)
  {
    hide Pow2, Val, BitsOf, Unpack, Pack, TrimPadding, DigitOf, Letter;
    LetterFacts(EncodedDigits(data));
    DigitsHoldTheBits(data);
    Powers();
    PackUnpack(data, Zeros((5 - 8 * |data| % 5) % 5), 8);
  }

  /** Eight characters for every five bytes begun. */
  lemma EncodedLength(data: bytes)
    ensures |EncodedText(data)| == 8 * ((|data| + 4) / 5)
  {
    hide EncodedDigits, PaddedBits;
    DigitsHoldTheBits(data);
    PaddedLength(data);
    UnpackLength(EncodedDigits(data), 5);
    DigitCount(|data|, |EncodedDigits(data)|);
  }

  lemma PaddedLength(data: bytes)
    ensures |PaddedBits(data)| == 8 * |data| + (5 - 8 * |data| % 5) % 5
  {
    hide Unpack;
    UnpackLength(data, 8);
  }

  /** Five bytes make eight digits; `r` bytes more make `k`, the last of which has 5 - `d` bits of padding. */
  lemma DigitsOfRest(q: nat, r: nat, c: nat, d: nat, k: nat, m: nat)
    requires r < 5 && d < 5 && 8 * r == 5 * c + d && k == (if d == 0 then c else c + 1)
    requires m * 5 == 8 * (5 * q + r) + (5 - 8 * (5 * q + r) % 5) % 5
    ensures m == 8 * q + k && k < 8
  {
    DivModUnique(8 * (5 * q + r), 5, 8 * q + c, d);
    assert (5 - d) % 5 == if d == 0 then 0 else 5 - d;
  }

  lemma RoundedUp(q: nat, r: nat, k: nat)
    requires r < 5 && k < 8 && (r == 0 <==> k == 0)
    ensures 8 * q + k + (8 - (8 * q + k) % 8) % 8 == 8 * ((5 * q + r + 4) / 5)
  {
    DivModUnique(8 * q + k, 8, q, k);
    if r == 0 { DivModUnique(5 * q + 4, 5, q, 4); } else { DivModUnique(5 * q + r + 4, 5, q + 1, r - 1); }
  }

  lemma DigitCount(n: nat, m: nat)
    requires m * 5 == 8 * n + (5 - 8 * n % 5) % 5
    ensures m + (8 - m % 8) % 8 == 8 * ((n + 4) / 5)
  {
    var q, r := n / 5, n % 5;
    assert n == 5 * q + r;
    var c, d := 8 * r / 5, 8 * r % 5;
    var k := if d == 0 then c else c + 1;
    DigitsOfRest(q, r, c, d, k, m);
    RoundedUp(q, r, k);
  }

  /** Five bits for every character kept. */
  lemma DecodedLength(s: text)
    requires DecodedText(s).Some?
    ensures |DecodedText(s).value| == 5 * |TrimPadding(s)| / 8
  {
    hide Pow2, Val, BitsOf, Unpack, Pack, TrimPadding, DigitOf;
    var digits := Digits(TrimPadding(s));
    UnpackPack(Unpack(digits, 5), 8);
    UnpackLength(digits, 5);
    UnpackLength(DecodedBytes(digits), 8);
  }

  /** Upper case, exactly padded, and fewer than five bits, all zero, after the last whole byte. */
  predicate Canonical(s: text) {
    var t := TrimPadding(s);
    && s == Pad(t)
    && (forall i :: 0 <= i < |t| ==> 'A' <= t[i] <= 'Z' || '2' <= t[i] <= '7')
    && AllDigits(t)
    && var spare := Leftover(Unpack(Digits(t), 5), 8);
       |spare| < 5 && spare == Zeros(|spare|)
  }

  lemma EncodedIsCanonical(data: bytes)
    ensures Canonical(EncodedText(data))
  {
    hide Pow2, Val, BitsOf, Unpack, Pack, TrimPadding, DigitOf, Leftover;
    LetterFacts(EncodedDigits(data));
    DigitsHoldTheBits(data);
    Powers();
    PackUnpack(data, Zeros((5 - 8 * |data| % 5) % 5), 8);
  }

  /** encode(decode(s)) == s exactly for canonical text. */
  lemma DecodeEncodeIff(s: text)
    ensures Canonical(s) <==> DecodedText(s).Some? && EncodedText(DecodedText(s).value) == s
  {
    hide Pow2, Val, BitsOf, Unpack, Pack, TrimPadding, Leftover;
    if DecodedText(s).Some? && EncodedText(DecodedText(s).value) == s {
      EncodedIsCanonical(DecodedText(s).value);
    }
    if Canonical(s) {
      var t := TrimPadding(s);
      var d := Digits(t);
      var b := Unpack(d, 5);
      var data := DecodedBytes(d);
      UnpackPack(b, 8);
      UnpackLength(d, 5);
      UnpackLength(data, 8);
      var spare := Leftover(b, 8);
      assert b == Unpack(data, 8) + spare;
      assert (5 - 8 * |data| % 5) % 5 == |spare| by { SpareIsPadding(|data|, |d|, |spare|); }
      assert PaddedBits(data) == b;
      Powers();
      assert b + [] == b;
      PackUnpack(d, [], 5);
      assert Letters(d) == t;
    }
  }

  lemma SpareIsPadding(n: nat, m: nat, r: nat)
    requires 5 * m == 8 * n + r && r < 5
    ensures (5 - 8 * n % 5) % 5 == r
  {
    if r == 0 { DivModUnique(8 * n, 5, m, 0); } else { DivModUnique(8 * n, 5, m - 1, 5 - r); }
  }

  // ---------------------------------------------------------------- the alphabet

  /** The alphabet of the standard. */
  lemma Alphabet(d: digit)
    ensures Letter(d) == "ABCDEFGHIJKLMNOPQRSTUVWXYZ234567"[d]
  {
  }

  /** It decodes in either letter case, and nothing else is a digit. */
  lemma AlphabetDecodes(c: char, d: digit)
    ensures DigitOf(c) == Some(d) <==> c == Letter(d) || ('A' <= Letter(d) && c as int == Letter(d) as int + 32)
  {
  }

  /** Padding is "=" up to a multiple of eight. */
  lemma PaddingIsEquals(t: text)
    ensures var s := Pad(t); |s| % 8 == 0 && |s| < |t| + 8 && t <= s && forall i :: |t| <= i < |s| ==> s[i] == '='
  {
  }

  /** A test vector of the standard (section 10 of RFC 4648): "f" is "MY======". */
  lemma TestVector()
    ensures EncodedText([102]) == "MY======"
  {
    hide Pad, BitsOf, Val, Unpack, Pack;
    BitsOf102();
    FirstAndLast();
    assert Letters([12, 24]) == "MY";
    PadTwo("MY");
  }

  lemma BitsOf102()
    ensures PaddedBits([102]) == [0, 1, 1, 0, 0, 1, 1, 0, 0, 0]
  {
    assert BitsOf(0, 0) == [] && BitsOf(0, 1) == [0] && BitsOf(1, 2) == [0, 1] && BitsOf(3, 3) == [0, 1, 1];
    assert BitsOf(6, 4) == [0, 1, 1, 0] && BitsOf(12, 5) == [0, 1, 1, 0, 0];
    assert BitsOf(25, 6) == [0, 1, 1, 0, 0, 1] && BitsOf(51, 7) == [0, 1, 1, 0, 0, 1, 1];
    assert BitsOf(102, 8) == [0, 1, 1, 0, 0, 1, 1, 0];
    assert [102][1..] == [];
    assert Unpack([102], 8) == BitsOf(102, 8) + Unpack([], 8);
  }

  lemma FirstAndLast()
    ensures Pack([0, 1, 1, 0, 0, 1, 1, 0, 0, 0], 5) == [12, 24]
  {
    var s: bits := [0, 1, 1, 0, 0, 1, 1, 0, 0, 0];
    assert s[..5] == [0, 1, 1, 0, 0] && s[5..] == [1, 1, 0, 0, 0] && s[5..][..5] == [1, 1, 0, 0, 0] &&
      s[5..][5..] == [];
    FiveBits(0, 1, 1, 0, 0);
    FiveBits(1, 1, 0, 0, 0);
    assert Pack(s[5..], 5) == [Val([1, 1, 0, 0, 0])] + Pack([], 5);
    assert Pack(s, 5) == [Val([0, 1, 1, 0, 0])] + Pack(s[5..], 5);
  }

  lemma FiveBits(a: bit, b: bit, c: bit, d: bit, e: bit)
    ensures Val([a, b, c, d, e]) == 16 * a + 8 * b + 4 * c + 2 * d + e
  {
    hide Val;
    ValSnoc([], a);
    ValSnoc([a], b);
    ValSnoc([a, b], c);
    ValSnoc([a, b, c], d);
    ValSnoc([a, b, c, d], e);
    assert [] + [a] == [a] && [a] + [b] == [a, b] && [a, b] + [c] == [a, b, c] && [a, b, c] + [d] == [a, b, c, d];
    assert [a, b, c, d] + [e] == [a, b, c, d, e];
    ValNothing();
  }

  lemma PadTwo(t: text)
    requires |t| == 2
    ensures Pad(t) == t + "======"
  {
    assert Padding(6) == "======";
  }
}
