/**
  The string operations of Rust's standard library that the git server's text
  formats rely on: `trim`, `lines`, `split_once`, ASCII lower case, and hex.
 */
module Text {
  import opened Wrappers
  import opened Bytes

  /** `char::is_whitespace`: the Unicode White_Space property. */
  predicate IsSpace(c: char) {
    var n := c as int;
    || 0x09 <= n <= 0x0D || n == 0x20 || n == 0x85 || n == 0xA0 || n == 0x1680
    || 0x2000 <= n <= 0x200A || n == 0x2028 || n == 0x2029 || n == 0x202F || n == 0x205F || n == 0x3000
  }

  function TrimStart(s: string): string {
    if s != [] && IsSpace(s[0]) then TrimStart(s[1..]) else s
  }

  function TrimEnd(s: string): string {
    if s != [] && IsSpace(s[|s| - 1]) then TrimEnd(s[..|s| - 1]) else s
  }

  function Trim(s: string): string { TrimEnd(TrimStart(s)) }

  /** Nothing to trim at either end. */
  predicate Trimmed(s: string) {
    s == [] || (!IsSpace(s[0]) && !IsSpace(s[|s| - 1]))
  }

  lemma TrimOfTrimmed(s: string)
    requires Trimmed(s)
    ensures Trim(s) == s
  {
  }

  ghost predicate AllSpace(s: string) { forall i :: 0 <= i < |s| ==> IsSpace(s[i]) }

  /** Trimming takes white space off both ends, all of it, and nothing else. */
  lemma TrimIff(s: string, t: string)
    ensures Trim(s) == t <==> Trimmed(t) && exists a, b :: AllSpace(a) && AllSpace(b) && s == a + t + b
  {
    var a, b := TrimParts(s);
    if Trimmed(t) && exists a, b :: AllSpace(a) && AllSpace(b) && s == a + t + b {
      var a, b :| AllSpace(a) && AllSpace(b) && s == a + t + b;
      TrimPadded(a, t, b);
    }
  }

  lemma {:induction false} TrimPadded(a: string, t: string, b: string)
    requires AllSpace(a) && AllSpace(b) && Trimmed(t)
    ensures Trim(a + t + b) == t
    decreases |a| + |b|
  {
    var s := a + t + b;
    if a != [] {
      assert s[0] == a[0] && s[1..] == a[1..] + t + b;
      TrimPadded(a[1..], t, b);
    } else if b != [] {
      assert s == t + b;
      if t == [] {
        assert s[1..] == [] + t + b[1..];
        TrimPadded([], t, b[1..]);
      } else {
        assert s[..|s| - 1] == [] + t + b[..|b| - 1];
        TrimPadded([], t, b[..|b| - 1]);
      }
    } else {
      assert s == t;
      TrimOfTrimmed(t);
    }
  }

  lemma {:induction false} TrimParts(s: string) returns (a: string, b: string)
    ensures AllSpace(a) && AllSpace(b) && s == a + Trim(s) + b && Trimmed(Trim(s))
    decreases |s|
  {
    if Trimmed(s) {
      a, b := [], [];
      TrimOfTrimmed(s);
    } else if IsSpace(s[0]) {
      var a1;
      a1, b := TrimParts(s[1..]);
      a := [s[0]] + a1;
      assert s == [s[0]] + s[1..];
      assert s == a + Trim(s) + b;
    } else {
      var front, b1 := s[..|s| - 1], "";
      a, b1 := TrimParts(front);
      b := b1 + [s[|s| - 1]];
      assert s == front + [s[|s| - 1]];
      assert Trim(s) == Trim(front);
    }
  }

  /** Which ASCII characters are white space: the blank, and tab to carriage return. */
  lemma AsciiSpaces(c: char)
    requires c as int < 128
    ensures IsSpace(c) <==> c == ' ' || '\t' <= c <= '\r'
  {
  }

  /** The first position of `c`, or the length. */
  function IndexOf(s: string, c: char): (n: nat)
    ensures n <= |s| && (forall i :: 0 <= i < n ==> s[i] != c) && (n < |s| ==> s[n] == c)
  {
    if s == [] || s[0] == c then 0 else 1 + IndexOf(s[1..], c)
  }

  lemma {:induction false} IndexIs(s: string, c: char, n: nat)
    requires n <= |s| && (forall i :: 0 <= i < n ==> s[i] != c) && (n < |s| ==> s[n] == c)
    ensures IndexOf(s, c) == n
    decreases n
  {
    if n > 0 { IndexIs(s[1..], c, n - 1); }
  }

  /** `split_once`. */
  function SplitOnce(s: string, c: char): Option<(string, string)> {
    var n := IndexOf(s, c);
    if n == |s| then None else Some((s[..n], s[n + 1..]))
  }

  lemma SplitOnceAt(a: string, c: char, b: string)
    requires c !in a
    ensures SplitOnce(a + [c] + b, c) == Some((a, b))
  {
    var s := a + [c] + b;
    IndexIs(s, c, |a|);
    assert s[..|a|] == a && s[|a| + 1..] == b;
  }

  function StripCr(s: string): string {
    if s != [] && s[|s| - 1] == '\r' then s[..|s| - 1] else s
  }

  /** `str::lines`: a final newline opens no line, and only a CR before a newline is dropped. */
  function Lines(s: string): seq<string>
    decreases |s|
  {
    if s == [] then []
    else
      var n := IndexOf(s, '\n');
      if n == |s| then [s] else [StripCr(s[..n])] + Lines(s[n + 1..])
  }

  lemma LinesCons(line: string, rest: string)
    requires '\n' !in line
    ensures Lines(line + "\n" + rest) == [StripCr(line)] + Lines(rest)
  {
    var s := line + "\n" + rest;
    IndexIs(s, '\n', |line|);
    assert s[..|line|] == line && s[|line| + 1..] == rest;
  }

  lemma LinesOfOne(line: string)
    requires '\n' !in line
    ensures Lines(line) == if line == "" then [] else [line]
    ensures Lines(line + "\n") == [StripCr(line)]
  {
    IndexIs(line, '\n', |line|);
    LinesCons(line, "");
    assert line + "\n" + "" == line + "\n";
  }

  /** A line may end in CR LF or in LF. */
  lemma LinesEndings(line: string, rest: string)
    requires '\n' !in line && (line != "" ==> line[|line| - 1] != '\r')
    ensures Lines(line + "\r\n" + rest) == [line] + Lines(rest) == Lines(line + "\n" + rest)
  {
    assert line + "\r\n" + rest == (line + "\r") + "\n" + rest;
    LinesCons(line + "\r", rest);
    LinesCons(line, rest);
    assert StripCr(line + "\r") == line && StripCr(line) == line;
  }

  lemma FirstLine(a: string) returns (first: string, rest: string)
    requires '\n' in a
    ensures '\n' !in first && a == first + "\n" + rest && |rest| < |a|
  {
    var n := IndexOf(a, '\n');
    first, rest := a[..n], a[n + 1..];
  }

  /** Text that ends in a newline contributes its lines on their own. */
  lemma {:induction false} LinesAppend(a: string, b: string)
    ensures Lines(a + "\n" + b) == Lines(a + "\n") + Lines(b)
    decreases |a|
  {
    hide Lines, IndexOf, StripCr;
    if '\n' !in a {
      LinesCons(a, b);
      LinesOfOne(a);
    } else {
      var first, rest := FirstLine(a);
      LinesCons(first, rest + "\n" + b);
      LinesCons(first, rest + "\n");
      LinesAppend(rest, b);
      assert a + "\n" + b == first + "\n" + (rest + "\n" + b);
      assert a + "\n" == first + "\n" + (rest + "\n");
    }
  }

  /** Adding a final newline adds an empty line or drops a final CR, and nothing else. */
  ghost predicate SameUpToLastCr(x: seq<string>, y: seq<string>) {
    y == x + [""] || (x != [] && y == x[..|x| - 1] + [StripCr(x[|x| - 1])])
  }

  lemma {:induction false} FinalNewline(a: string)
    ensures SameUpToLastCr(Lines(a), Lines(a + "\n"))
    decreases |a|
  {
    hide Lines, IndexOf, StripCr;
    if '\n' !in a {
      LinesOfOne(a);
      if a == "" { assert StripCr("") == "" by { StripNothing(); } }
    } else {
      var first, rest := FirstLine(a);
      LinesCons(first, rest);
      LinesCons(first, rest + "\n");
      FinalNewline(rest);
      assert a + "\n" == first + "\n" + (rest + "\n");
      var here, x := [StripCr(first)], Lines(rest);
      if x != [] { assert (here + x)[..|here + x| - 1] == here + x[..|x| - 1]; }
    }
  }

  lemma StripNothing()
    ensures StripCr("") == ""
  {
  }

  // ---------------------------------------------------------------- ASCII lower case

  function LowerChar(c: char): char {
    if 'A' <= c <= 'Z' then (c as int + 32) as char else c
  }

  /** `to_ascii_lowercase`.  For matching against ASCII keywords it decides as
      `to_lowercase` does: no other character's lower case is a letter of a keyword. */
  function Lower(s: string): (t: string)
    ensures |t| == |s|
  {
    seq(|s|, i requires 0 <= i < |s| => LowerChar(s[i]))
  }

  /** `s` spells the lower-case word `w` in any letter case. */
  predicate AnyCase(s: string, w: string) {
    |s| == |w| &&
    forall i :: 0 <= i < |s| ==> s[i] == w[i] || ('a' <= w[i] <= 'z' && s[i] as int + 32 == w[i] as int)
  }

  predicate LowerWord(w: string) { forall i :: 0 <= i < |w| ==> 'a' <= w[i] <= 'z' }

  /** Lower case forgets exactly the letter case. */
  lemma LowerIff(s: string, w: string)
    requires LowerWord(w)
    ensures Lower(s) == w <==> AnyCase(s, w)
  {
    if AnyCase(s, w) {
      forall i | 0 <= i < |s| ensures Lower(s)[i] == w[i] { }
    }
    if Lower(s) == w {
      forall i | 0 <= i < |s| ensures s[i] == w[i] || s[i] as int + 32 == w[i] as int { assert Lower(s)[i] == w[i]; }
    }
  }

  // ---------------------------------------------------------------- hexadecimal

  /** The length of an identity's hash as text. */
  const HASH_TEXT: nat := 32

  function HexDigit(n: nat): char
    requires n < 16
  {
    if n < 10 then ('0' as int + n) as char else ('a' as int + (n - 10)) as char
  }

  function HexValue(c: char): Option<nat> {
    if '0' <= c <= '9' then Some(c as int - '0' as int)
    else if 'a' <= c <= 'f' then Some(c as int - 'a' as int + 10)
    else if 'A' <= c <= 'F' then Some(c as int - 'A' as int + 10)
    else None
  }

  function HexEncode(b: bytes): (s: string)
    ensures |s| == 2 * |b|
  {
    if b == [] then "" else [HexDigit(b[0] / 16), HexDigit(b[0] % 16)] + HexEncode(b[1..])
  }

  function HexDecode(s: string): Option<bytes>
    decreases |s|
  {
    if s == "" then Some([])
    else if |s| == 1 then None
    else
      var hi, lo, rest := HexValue(s[0]), HexValue(s[1]), HexDecode(s[2..]);
      if hi.None? || lo.None? || rest.None? || hi.value > 15 || lo.value > 15 then None
      else Some([16 * hi.value + lo.value] + rest.value)
  }

  lemma {:induction false} HexDecodeLength(s: string)
    ensures HexDecode(s).Some? ==> 2 * |HexDecode(s).value| == |s|
    decreases |s|
  {
    if |s| > 1 { HexDecodeLength(s[2..]); }
  }

  lemma HexDigitRoundTrip(n: nat)
    requires n < 16
    ensures HexValue(HexDigit(n)) == Some(n) && LowerChar(HexDigit(n)) == HexDigit(n)
    ensures !IsSpace(HexDigit(n)) && HexDigit(n) !in {':', '#', '\n', '\r'}
  {
  }

  lemma {:induction false} HexRoundTrip(b: bytes)
    ensures HexDecode(HexEncode(b)) == Some(b)
    ensures Lower(HexEncode(b)) == HexEncode(b)
    ensures forall i :: 0 <= i < |HexEncode(b)| ==>
              !IsSpace(HexEncode(b)[i]) && HexEncode(b)[i] !in {':', '#', '\n', '\r'}
  {
    hide IsSpace;
    if b != [] {
      HexRoundTrip(b[1..]);
      HexDigitRoundTrip(b[0] / 16);
      HexDigitRoundTrip(b[0] % 16);
      var s := HexEncode(b);
      assert s[2..] == HexEncode(b[1..]);
      assert [b[0]] + b[1..] == b;
      forall i | 0 <= i < |s| ensures !IsSpace(s[i]) && s[i] !in {':', '#', '\n', '\r'} && LowerChar(s[i]) == s[i] {
        if i >= 2 { assert s[i] == HexEncode(b[1..])[i - 2] && Lower(HexEncode(b[1..]))[i - 2] == LowerChar(s[i]); }
      }
    }
  }

  /** Hex decodes the same in either letter case. */
  lemma {:induction false} HexAnyCase(s: string)
    ensures HexDecode(Lower(s)) == HexDecode(s)
    decreases |s|
  {
    if |s| > 1 {
      HexAnyCase(s[2..]);
      assert Lower(s)[2..] == Lower(s[2..]);
      assert HexValue(Lower(s)[0]) == HexValue(s[0]) && HexValue(Lower(s)[1]) == HexValue(s[1]);
    }
  }

  /** Text decodes to these bytes exactly when it is their hex, in whatever letter case. */
  lemma HexDecodeIff(s: string, b: bytes)
    ensures HexDecode(s) == Some(b) <==> Lower(s) == HexEncode(b)
  {
    hide HexDecode, HexEncode, Lower;
    HexRoundTrip(b);
    HexAnyCase(s);
    if HexDecode(s) == Some(b) { DecodedIsHex(s); }
  }

  lemma {:induction false} DecodedIsHex(s: string)
    ensures HexDecode(s).Some? ==> HexEncode(HexDecode(s).value) == Lower(s)
    decreases |s|
  {
    if HexDecode(s).Some? && |s| > 1 {
      var b := HexDecode(s).value;
      DecodedIsHex(s[2..]);
      DecodedByte(s, b);
      assert Lower(s) == [LowerChar(s[0]), LowerChar(s[1])] + Lower(s[2..]);
    }
  }

  lemma DecodedByte(s: string, b: bytes)
    requires |s| > 1 && HexDecode(s) == Some(b)
    ensures b != [] && HexDecode(s[2..]) == Some(b[1..])
    ensures HexDigit(b[0] / 16) == LowerChar(s[0]) && HexDigit(b[0] % 16) == LowerChar(s[1])
  {
    HexValueDigit(s[0]);
    HexValueDigit(s[1]);
  }

  lemma HexValueDigit(c: char)
    ensures HexValue(c).Some? ==> HexValue(c).value < 16 && HexDigit(HexValue(c).value) == LowerChar(c)
  {
  }

  /** The sixteen digits. */
  lemma HexDigits(n: nat)
    requires n < 16
    ensures HexDigit(n) == "0123456789abcdef"[n]
  {
  }
}
