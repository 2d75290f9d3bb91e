/**
  The git tools' wire formats, each with both of its ends: resource metadata
  (src/bin/rngit/transfer.rs and its two readers), bundles (`split_bundle` in
  src/bin/git-remote-rns.rs) and the ref list (`list_refs`, `parse_list_response`).
 */
module Wire {
  import opened Wrappers
  import opened Bytes
  import opened Text

  // ---------------------------------------------------------------- resource metadata

  const METADATA_MAX: nat := 0xFF_FFFF

  /** Three length bytes, then the packed metadata; too much of it is an error. */
  method PackMetadata(packed: bytes) returns (r: Option<bytes>)
    ensures r.None? <==> |packed| > METADATA_MAX
    ensures r.Some? ==> r.value == ToBigEndian(|packed|, 3) + packed
  {
    if |packed| > METADATA_MAX { return None; }
    var n := |packed|;
    ThreeBytes(n);
    var out: bytes := [];
    out := out + [n / 0x1_0000 % 0x100];
    out := out + [n / 0x100 % 0x100];
    out := out + [n % 0x100];
    out := out + packed;
    return Some(out);
  }

  lemma ThreeBytes(n: nat)
    ensures ToBigEndian(n, 3) == [n / 0x1_0000 % 0x100, n / 0x100 % 0x100, n % 0x100]
  {
    assert n / 0x100 / 0x100 == n / 0x1_0000;
    assert ToBigEndian(n / 0x1_0000, 1) == [n / 0x1_0000 % 0x100];
    assert ToBigEndian(n / 0x100, 2) == ToBigEndian(n / 0x1_0000, 1) + [n / 0x100 % 0x100];
  }

  datatype StripError = TooShort | Truncated

  function MetadataLength(hi: nat, mid: nat, lo: nat): nat { hi * 0x1_0000 + mid * 0x100 + lo }

  /** What both readers do with a resource: skip the metadata, keep the bundle. */
  function StripMetadata(data: bytes): Result<bytes, StripError> {
    if |data| < 3 then Err(TooShort)
    else
      var metaLen := MetadataLength(data[0], data[1], data[2]);
      if |data| < 3 + metaLen then Err(Truncated) else Ok(data[3 + metaLen..])
  }

  /** Whatever the metadata, the bundle behind it comes out whole. */
  lemma StripAfterPack(packed: bytes, bundle: bytes)
    requires |packed| <= METADATA_MAX
    ensures StripMetadata(ToBigEndian(|packed|, 3) + packed + bundle) == Ok(bundle)
  {
    hide ToBigEndian, FromBigEndian, MetadataLength;
    var n := |packed|;
    var head := ToBigEndian(n, 3);
    PowersOf256();
    BigEndianRoundTrip(n, 3);
    LengthIsBigEndian(head);
    var data := head + packed + bundle;
    assert data[0] == head[0] && data[1] == head[1] && data[2] == head[2];
    assert data[3 + n..] == bundle;
  }

  lemma LengthIsBigEndian(head: bytes)
    requires |head| == 3
    ensures MetadataLength(head[0], head[1], head[2]) == FromBigEndian(head)
  {
    var two := head[..2];
    var one := two[..1];
    assert one[..0] == [];
    assert FromBigEndian(one) == one[0];
  }

  predicate PackedThen(data: bytes, packed: bytes, rest: bytes) {
    |packed| <= METADATA_MAX && data == ToBigEndian(|packed|, 3) + packed + rest
  }

  /** Something is left of a resource exactly when some metadata, packed, stands before it;
      otherwise it is too short for a length, or truncated. */
  lemma StripIff(data: bytes, rest: bytes)
    ensures StripMetadata(data) == Ok(rest) <==> exists packed :: PackedThen(data, packed, rest)
    ensures StripMetadata(data) == Err(TooShort) <==> |data| < 3
  {
    forall packed | PackedThen(data, packed, rest) ensures StripMetadata(data) == Ok(rest) {
      hide StripMetadata, ToBigEndian;
      StripAfterPack(packed, rest);
    }
    if StripMetadata(data) == Ok(rest) {
      WhatWasPacked(data, rest);
    }
  }

  lemma WhatWasPacked(data: bytes, rest: bytes)
    requires StripMetadata(data) == Ok(rest)
    ensures exists packed :: PackedThen(data, packed, rest)
  {
    hide ToBigEndian, FromBigEndian;
    var n := MetadataLength(data[0], data[1], data[2]);
    var packed := data[3..3 + n];
    DigitsOf(data[0], data[1], data[2]);
    ThreeBytes(n);
    assert data[..3] == ToBigEndian(n, 3);
    assert data == data[..3] + packed + rest;
    assert PackedThen(data, packed, rest);
  }

  lemma DigitsOf(hi: nat, mid: nat, lo: nat)
    requires hi < 256 && mid < 256 && lo < 256
    ensures var n := MetadataLength(hi, mid, lo);
            n <= METADATA_MAX && n / 0x1_0000 % 0x100 == hi && n / 0x100 % 0x100 == mid && n % 0x100 == lo
  {
    var n := MetadataLength(hi, mid, lo);
    assert n / 0x100 == hi * 0x100 + mid;
    assert n / 0x1_0000 == hi;
  }

  // ---------------------------------------------------------------- bundles

  /** An empty line ends at `i`. */
  predicate BlankLineAt(b: bytes, i: nat) {
    i < |b| && b[i] == LF && (i == 0 || b[i - 1] == LF)
  }

  /** The pack is everything after the first empty line. */
  method SplitBundle(bundle: bytes) returns (pack: Option<bytes>)
    ensures pack.None? <==> forall i: nat :: !BlankLineAt(bundle, i)
    ensures pack.Some? ==> exists i: nat :: BlankLineAt(bundle, i) && pack.value == bundle[i + 1..]
                                            && forall j: nat :: j < i ==> !BlankLineAt(bundle, j)
  {
    var lineStart, i := 0, 0;
    while i < |bundle|
      invariant 0 <= lineStart <= i <= |bundle|
      invariant forall j: nat :: j < i ==> !BlankLineAt(bundle, j)
      invariant lineStart == i <==> i == 0 || bundle[i - 1] == LF
    {
      if bundle[i] == LF {
        if lineStart == i {
          assert BlankLineAt(bundle, i);
          return Some(bundle[i + 1..]);
        }
        lineStart := i + 1;
      }
      i := i + 1;
    }
    return None;
  }

  function BundleHeader(lines: seq<bytes>): bytes {
    if lines == [] then [LF] else lines[0] + [LF] + BundleHeader(lines[1..])
  }

  ghost predicate HeaderLines(lines: seq<bytes>) {
    forall i :: 0 <= i < |lines| ==> lines[i] != [] && LF !in lines[i]
  }

  /** A whole non-empty line in front neither holds nor makes an empty one. */
  lemma SkipLine(line: bytes, rest: bytes, j: nat)
    requires line != [] && LF !in line
    ensures var b, k := line + [LF] + rest, |line| + 1;
            BlankLineAt(b, j) <==> j >= k && BlankLineAt(rest, j - k)
  {
    var b, k := line + [LF] + rest, |line| + 1;
    if j < |line| {
      assert b[j] == line[j];
    } else if j == |line| {
      assert b[j - 1] == line[j - 1];
    } else if j < |b| {
      assert b[j] == rest[j - k];
      assert j > k ==> b[j - 1] == rest[j - k - 1];
    }
  }

  /** The header's own empty line is the first one, whatever the pack holds. */
  lemma {:induction false} HeaderEnds(lines: seq<bytes>, pack: bytes)
    requires HeaderLines(lines)
    ensures var b, n := BundleHeader(lines) + pack, |BundleHeader(lines)| - 1;
            0 <= n < |b| && BlankLineAt(b, n) && b[n + 1..] == pack && forall j: nat :: j < n ==> !BlankLineAt(b, j)
  {
    if lines != [] {
      var line, rest := lines[0], BundleHeader(lines[1..]) + pack;
      var b, k, m := line + [LF] + rest, |line| + 1, |BundleHeader(lines[1..])| - 1;
      HeaderEnds(lines[1..], pack);
      assert BundleHeader(lines) + pack == b;
      hide BlankLineAt, BundleHeader;
      SkipLine(line, rest, k + m);
      forall j: nat | j < k + m ensures !BlankLineAt(b, j) { SkipLine(line, rest, j); }
      assert b[k + m + 1..] == rest[m + 1..];
    }
  }

  /** From the server's resource to the pack: strip the metadata, split the bundle. */
  method ReceivePack(resource: bytes) returns (pack: Option<bytes>)
    ensures forall packed: bytes, lines: seq<bytes>, p: bytes ::
              |packed| <= METADATA_MAX && HeaderLines(lines) &&
                resource == ToBigEndian(|packed|, 3) + packed + (BundleHeader(lines) + p)
              ==> pack == Some(p)
  {
    pack := None;
    var stripped := StripMetadata(resource);
    if stripped.Ok? { pack := SplitBundle(stripped.value); }
    forall packed: bytes, lines: seq<bytes>, p: bytes |
      |packed| <= METADATA_MAX && HeaderLines(lines) &&
        resource == ToBigEndian(|packed|, 3) + packed + (BundleHeader(lines) + p)
      ensures pack == Some(p)
    {
      hide StripMetadata, BundleHeader, ToBigEndian;
      StripAfterPack(packed, BundleHeader(lines) + p);
      HeaderEnds(lines, p);
      var b := stripped.value;
      var n := |BundleHeader(lines)| - 1;
      var i: nat :| BlankLineAt(b, i) && pack.value == b[i + 1..] && forall j: nat :: j < i ==> !BlankLineAt(b, j);
      assert i == n;
    }
  }

  // ---------------------------------------------------------------- the ref list

  datatype Ref = Ref(sha: string, name: string)

  function RefLine(r: Ref): string { r.sha + " " + r.name }

  /** Lines, each with its newline. */
  function Render(lines: seq<string>): string {
    if lines == [] then "" else lines[0] + "\n" + Render(lines[1..])
  }

  function HeadLine(head: string): string { "@" + head + " HEAD" }

  /** The name of a `sha name` line, when it has one. */
  function NameOf(line: string): Option<string> {
    match SplitOnce(line, ' ')
    case None => None
    case Some(parts) => Some(parts.1)
  }

  /** The lines kept of git's output: the first of each ref name. */
  function KeptLines(lines: seq<string>): seq<string> {
    if lines == [] then []
    else
      var before, line := KeptLines(lines[..|lines| - 1]), Trim(lines[|lines| - 1]);
      if line == "" || NameOf(line).None? || NameOf(line) in NamesOf(before) then before else before + [line]
  }

  function NamesOf(lines: seq<string>): seq<Option<string>> {
    seq(|lines|, i requires 0 <= i < |lines| => NameOf(lines[i]))
  }

  function ListText(output: string, head: string): string {
    Render(KeptLines(Lines(output)) + [HeadLine(head)])
  }

  method ListRefs(output: string, head: string) returns (response: string)
    ensures response == ListText(output, head)
  {
    hide Trim, NameOf, Lines, SplitOnce;
    var seen: set<string> := {};
    var kept: seq<string> := [];
    var lines := Lines(output);
    for i := 0 to |lines|
      invariant kept == KeptLines(lines[..i])
      invariant forall n :: n in seen <==> Some(n) in NamesOf(kept)
    {
      assert lines[..i + 1][..i] == lines[..i];
      var line := Trim(lines[i]);
      if line == "" { continue; }
      var name := NameOf(line);
      if name.None? { continue; }
      if name.value !in seen {
        seen := seen + {name.value};
        assert NamesOf(kept + [line]) == NamesOf(kept) + [name];
        kept := kept + [line];
      }
    }
    assert lines[..|lines|] == lines;
    response := "";
    for k := 0 to |kept|
      invariant response == Render(kept[..k])
    {
      assert kept[..k + 1] == kept[..k] + [kept[k]];
      RenderSnoc(kept[..k], kept[k]);
      response := response + kept[k];
      response := response + "\n";
    }
    assert kept[..|kept|] == kept;
    RenderSnoc(kept, HeadLine(head));
    response := response + (HeadLine(head) + "\n");
  }

  lemma {:induction false} RenderSnoc(lines: seq<string>, line: string)
    ensures Render(lines + [line]) == Render(lines) + line + "\n"
    ensures Render(lines + [line]) == Render(lines) + (line + "\n")
  {
    if lines == [] {
      assert lines + [line] == [line] && [line][1..] == [];
      assert Render([line]) == line + "\n" + "";
    } else {
      assert (lines + [line])[1..] == lines[1..] + [line];
      RenderSnoc(lines[1..], line);
    }
  }

  datatype RemoteRefs = RemoteRefs(refs: seq<Ref>, head: Option<string>)

  function StripHead(rest: string): Option<string> {
    var suffix := " HEAD";
    if |rest| >= |suffix| && rest[|rest| - |suffix|..] == suffix then Some(rest[..|rest| - |suffix|]) else None
  }

  /** What one line of the list adds. */
  function AddLine(r: RemoteRefs, raw: string): RemoteRefs {
    var line := Trim(raw);
    if line == "" then r
    else if line[0] == '@' then
      var head := StripHead(line[1..]);
      if head.Some? then r.(head := head) else r
    else match SplitOnce(line, ' ')
      case None => r
      case Some(parts) => r.(refs := r.refs + [Ref(parts.0, parts.1)])
  }

  function AddLines(r: RemoteRefs, lines: seq<string>): RemoteRefs
    decreases |lines|
  {
    if lines == [] then r else AddLines(AddLine(r, lines[0]), lines[1..])
  }

  const NO_REFS: RemoteRefs := RemoteRefs([], None)

  /** An answer's first byte and the text behind it, if it has a first byte. */
  datatype Answer = Nothing | Answer(code: byte, body: string)

  /** The source indexes past the end of an answer without bytes. */
  datatype Listing = Panics | ServerError(code: byte, message: string) | Listed(value: RemoteRefs)

  /** The client's reading of an answer. */
  method ParseListResponse(answer: Answer) returns (r: Listing)
    ensures r == match answer
                 case Nothing => Panics
                 case Answer(code, body) =>
                   if code != 0 then ServerError(code, Trim(body)) else Listed(AddLines(NO_REFS, Lines(body)))
  {
    hide Trim, SplitOnce, StripHead, Lines;
    if answer.Nothing? { return Panics; }
    var (code, body) := (answer.code, answer.body);
    if code != 0 { return ServerError(code, Trim(body)); }
    var refs: seq<Ref>, head: Option<string> := [], None;
    var lines := Lines(body);
    var i := 0;
    while i < |lines|
      invariant 0 <= i <= |lines|
      invariant AddLines(NO_REFS, lines) == AddLines(RemoteRefs(refs, head), lines[i..])
    {
      assert lines[i..][0] == lines[i] && lines[i..][1..] == lines[i + 1..];
      var line := Trim(lines[i]);
      i := i + 1;
      if line == "" { continue; }
      if line[0] == '@' {
        var name := StripHead(line[1..]);
        if name.Some? { head := name; }
      } else {
        var parts := SplitOnce(line, ' ');
        if parts.Some? { refs := refs + [Ref(parts.value.0, parts.value.1)]; }
      }
    }
    return Listed(RemoteRefs(refs, head));
  }

  /** Object names and ref names as git prints them. */
  ghost predicate Printable(r: Ref) {
    && r.sha != "" && (forall i :: 0 <= i < |r.sha| ==> !IsSpace(r.sha[i])) && r.sha[0] != '@'
    && r.name != "" && '\n' !in r.name && !IsSpace(r.name[|r.name| - 1])
  }

  ghost predicate PrintableRefs(refs: seq<Ref>) {
    && (forall i :: 0 <= i < |refs| ==> Printable(refs[i]))
    && (forall i, j :: 0 <= i < j < |refs| ==> refs[i].name != refs[j].name)
  }

  function RefLines(refs: seq<Ref>): seq<string> {
    seq(|refs|, i requires 0 <= i < |refs| => RefLine(refs[i]))
  }

  /** A line that reads back as itself. */
  ghost predicate CleanLine(line: string) {
    line != "" && '\n' !in line && Trimmed(line) && StripCr(line) == line
  }

  lemma RefLineFacts(r: Ref)
    requires Printable(r)
    ensures CleanLine(RefLine(r)) && RefLine(r)[0] != '@'
    ensures Trim(RefLine(r)) == RefLine(r)
    ensures SplitOnce(RefLine(r), ' ') == Some((r.sha, r.name)) && NameOf(RefLine(r)) == Some(r.name)
  {
    var line := RefLine(r);
    assert line[|line| - 1] == r.name[|r.name| - 1];
    assert ' ' !in r.sha && '\n' !in r.sha;
    TrimOfTrimmed(line);
    assert line == r.sha + [' '] + r.name;
    SplitOnceAt(r.sha, ' ', r.name);
  }

  lemma HeadLineFacts(head: string)
    requires '\n' !in head
    ensures CleanLine(HeadLine(head)) && Trim(HeadLine(head)) == HeadLine(head)
    ensures HeadLine(head)[0] == '@' && StripHead(HeadLine(head)[1..]) == Some(head)
  {
    var line := HeadLine(head);
    var rest := head + " HEAD";
    assert line[1..] == rest && rest[|rest| - 5..] == " HEAD" && rest[..|rest| - 5] == head;
    assert line[|line| - 1] == 'D';
    TrimOfTrimmed(line);
  }

  lemma {:induction false} LinesOfRendered(lines: seq<string>)
    requires forall i :: 0 <= i < |lines| ==> CleanLine(lines[i])
    ensures Lines(Render(lines)) == lines
  {
    hide Lines, StripCr;
    if lines == [] {
      LinesOfOne("");
    } else {
      LinesCons(lines[0], Render(lines[1..]));
      assert CleanLine(lines[0]);
      LinesOfRendered(lines[1..]);
    }
  }

  lemma {:induction false} KeptOfDistinct(refs: seq<Ref>)
    requires PrintableRefs(refs)
    ensures KeptLines(RefLines(refs)) == RefLines(refs)
  {
    hide Trim, NameOf, RefLine, Printable;
    if refs != [] {
      var front, last := refs[..|refs| - 1], refs[|refs| - 1];
      KeptOfDistinct(front);
      var lines := RefLines(refs);
      assert lines[..|lines| - 1] == RefLines(front);
      RefLineFacts(last);
      assert Some(last.name) !in NamesOf(RefLines(front)) by {
        forall i | 0 <= i < |front| ensures NamesOf(RefLines(front))[i] != Some(last.name) {
          RefLineFacts(front[i]);
          assert front[i] == refs[i];
        }
      }
      assert lines == RefLines(front) + [RefLine(last)];
    }
  }

  lemma {:induction false} ReadRefLines(r: RemoteRefs, refs: seq<Ref>, more: seq<string>)
    requires forall i :: 0 <= i < |refs| ==> Printable(refs[i])
    ensures AddLines(r, RefLines(refs) + more) == AddLines(r.(refs := r.refs + refs), more)
    decreases |refs|
  {
    hide Trim, SplitOnce, RefLine, Printable, StripHead;
    if refs == [] {
      assert RefLines(refs) + more == more && r.refs + refs == r.refs;
    } else {
      var lines := RefLines(refs) + more;
      RefLineFacts(refs[0]);
      assert lines[0] == RefLine(refs[0]) && lines[1..] == RefLines(refs[1..]) + more;
      ReadRefLines(AddLine(r, lines[0]), refs[1..], more);
      assert r.refs + [refs[0]] + refs[1..] == r.refs + refs;
    }
  }

  /** The client reads back exactly the refs the server's git listed, in order, and the head. */
  lemma RefListRoundTrip(refs: seq<Ref>, head: string)
    requires PrintableRefs(refs) && '\n' !in head
    ensures AddLines(NO_REFS, Lines(ListText(Render(RefLines(refs)), head))) == RemoteRefs(refs, Some(head))
  {
    hide Lines, Trim, SplitOnce, RefLine, Printable, StripHead, CleanLine, KeptLines, HeadLine;
    forall i | 0 <= i < |refs| ensures CleanLine(RefLines(refs)[i]) { RefLineFacts(refs[i]); }
    LinesOfRendered(RefLines(refs));
    KeptOfDistinct(refs);
    HeadLineFacts(head);
    LinesOfRendered(RefLines(refs) + [HeadLine(head)]);
    ReadRefLines(NO_REFS, refs, [HeadLine(head)]);
    assert NO_REFS.refs + refs == refs;
    var r := NO_REFS.(refs := refs);
    assert AddLines(r, [HeadLine(head)]) == AddLines(AddLine(r, HeadLine(head)), [HeadLine(head)][1..]);
    assert [HeadLine(head)][1..] == [];
  }

  /** Whatever git prints, the list names each ref at most once. */
  lemma {:induction false} NamesAreDistinct(lines: seq<string>)
    ensures forall i, j :: 0 <= i < j < |KeptLines(lines)| ==>
              NameOf(KeptLines(lines)[i]) != NameOf(KeptLines(lines)[j])
  {
    hide Trim, NameOf;
    if lines != [] {
      var before := KeptLines(lines[..|lines| - 1]);
      NamesAreDistinct(lines[..|lines| - 1]);
      assert forall i :: 0 <= i < |before| ==> NamesOf(before)[i] == NameOf(before[i]);
    }
  }

  /** The text of a list, letter for letter: a ref's object and name, then the head. */
  lemma ListOfOne(r: Ref, head: string)
    requires Printable(r) && '\n' !in head
    ensures ListText(r.sha + " " + r.name + "\n", head) == r.sha + " " + r.name + "\n" + ("@" + head + " HEAD" + "\n")
  {
    hide Lines, KeptLines, CleanLine, Printable;
    RefLineFacts(r);
    assert RefLines([r]) == [RefLine(r)];
    OneRef(r);
    assert [RefLine(r)][1..] == [] && Render([]) == "";
    assert Render([RefLine(r)]) == RefLine(r) + "\n" + "" == RefLine(r) + "\n";
    LinesOfRendered([RefLine(r)]);
    RenderSnoc([RefLine(r)], HeadLine(head));
  }

  lemma OneRef(r: Ref)
    requires Printable(r)
    ensures KeptLines([RefLine(r)]) == [RefLine(r)]
  {
    KeptOfDistinct([r]);
    assert RefLines([r]) == [RefLine(r)];
  }

  /** What each line of an answer adds, white space around it aside: "@name HEAD" the head, other
      text with a blank in it a ref, the rest nothing. */
  lemma LineAdds(r: RemoteRefs, raw: string, a: string, b: string)
    ensures Trim(raw) == "@" + a + " HEAD" ==> AddLine(r, raw) == r.(head := Some(a))
    ensures Trim(raw) == a + " " + b && ' ' !in a && a != "" && a[0] != '@' ==>
              AddLine(r, raw) == r.(refs := r.refs + [Ref(a, b)])
    ensures Trim(raw) != "" && Trim(raw)[0] == '@' && !EndsInHead(Trim(raw)) ==> AddLine(r, raw) == r
    ensures ' ' !in Trim(raw) ==> AddLine(r, raw) == r
  {
    hide Trim, SplitOnce, StripHead, EndsInHead;
    var line := Trim(raw);
    HeadLineParts(a);
    if line == a + " " + b && ' ' !in a && a != "" { RefParts(a, b); }
    if ' ' !in line {
      SplitNothing(line);
      if line != "" { NoBlankNoHead(line[1..]); }
    }
    if line != "" { EndsIff(line); }
  }

  predicate EndsInHead(line: string) { |line| >= 6 && line[|line| - 5..] == " HEAD" }

  lemma EndsIff(line: string)
    requires line != ""
    ensures EndsInHead(line) <==> StripHead(line[1..]).Some?
  {
    if |line| >= 6 { assert line[1..][|line[1..]| - 5..] == line[|line| - 5..]; }
  }

  lemma RefParts(a: string, b: string)
    requires ' ' !in a && a != ""
    ensures var line := a + " " + b; line[0] == a[0] && SplitOnce(line, ' ') == Some((a, b))
  {
    assert a + [' '] + b == a + " " + b;
    SplitOnceAt(a, ' ', b);
  }

  lemma HeadLineParts(a: string)
    ensures var line := "@" + a + " HEAD"; line[0] == '@' && StripHead(line[1..]) == Some(a)
  {
    var line := "@" + a + " HEAD";
    assert line[1..] == a + " HEAD" && line[1..][|a|..] == " HEAD" && line[1..][..|a|] == a;
  }

  lemma SplitNothing(s: string)
    ensures ' ' !in s ==> SplitOnce(s, ' ').None?
  {
    if ' ' !in s { IndexIs(s, ' ', |s|); }
  }

  lemma NoBlankNoHead(rest: string)
    ensures ' ' !in rest ==> StripHead(rest).None?
  {
    if |rest| >= 5 && rest[|rest| - 5..] == " HEAD" { assert rest[|rest| - 5] == " HEAD"[0]; }
  }

  /** Of git's lines, a proper one is kept exactly when no earlier proper one names the same ref. */
  lemma {:induction false} KeptIff(lines: seq<string>, i: nat)
    requires i < |lines|
    ensures var line := Trim(lines[i]);
            line != "" && NameOf(line).Some? && (forall j :: 0 <= j < i ==> NameOf(Trim(lines[j])) != NameOf(line)) ==>
              line in KeptLines(lines)
    ensures forall kept :: kept in KeptLines(lines) ==> exists j ::
              0 <= j < |lines| && Trim(lines[j]) == kept && NameOf(kept).Some?
  {
    hide Trim, NameOf;
    var n := |lines| - 1;
    var front := lines[..n];
    assert forall j :: 0 <= j < n ==> front[j] == lines[j];
    KeptFrom(front);
    if i < n { KeptIff(front, i); }
  }

  lemma {:induction false} KeptFrom(lines: seq<string>)
    ensures forall kept :: kept in KeptLines(lines) ==> exists j ::
              0 <= j < |lines| && Trim(lines[j]) == kept && NameOf(kept).Some?
    ensures forall k :: 0 <= k < |KeptLines(lines)| ==> NamesOf(KeptLines(lines))[k] == NameOf(KeptLines(lines)[k])
  {
    hide Trim, NameOf;
    if lines != [] {
      var front := lines[..|lines| - 1];
      KeptFrom(front);
      assert forall j :: 0 <= j < |front| ==> lines[j] == front[j];
    }
  }
}
