/**
  The git server's access lists (src/bin/rngit/perms.rs): parsing the lines of an
  `.allowed` file and deciding who may do what.
 */
module Acl {
  import opened Wrappers
  import opened Bytes
  import opened Text

  type Aliases = map<string, string>

  datatype Target = Nobody | Everyone | Only(id: Identity)

  datatype Perm = Read | Write | ReadWrite | Create | Stats | Release | Interact | Propose | Admin

  datatype AccessLists = AccessLists(
    read: seq<Target>, write: seq<Target>, create: seq<Target>, stats: seq<Target>,
    release: seq<Target>, interact: seq<Target>, propose: seq<Target>, admin: seq<Target>)

  const NO_LISTS: AccessLists := AccessLists([], [], [], [], [], [], [], [])

  function ListFor(l: AccessLists, p: Perm): seq<Target> {
    match p
    case Read => l.read
    case ReadWrite => l.read
    case Write => l.write
    case Create => l.create
    case Stats => l.stats
    case Release => l.release
    case Interact => l.interact
    case Propose => l.propose
    case Admin => l.admin
  }

  // ---------------------------------------------------------------- parsing

  function PermOf(s: string): Option<Perm> {
    if s in {"r", "read"} then Some(Read)
    else if s in {"w", "write"} then Some(Write)
    else if s in {"rw", "readwrite"} then Some(ReadWrite)
    else if s in {"c", "create"} then Some(Create)
    else if s in {"s", "stats"} then Some(Stats)
    else if s in {"rel", "release"} then Some(Release)
    else if s in {"i", "interact"} then Some(Interact)
    else if s in {"p", "propose"} then Some(Propose)
    else if s in {"adm", "admin"} then Some(Admin)
    else None
  }

  function DecodeIdentityHash(h: string): Option<Identity> {
    var t := Trim(h);
    if |t| != HASH_TEXT then None else HexDecode(t)
  }

  function ParseTarget(target: string, aliases: Aliases): Option<Target> {
    var t := Trim(target);
    var lower := Lower(t);
    if lower in {"n", "none", "nobody"} then Some(Nobody)
    else if lower in {"a", "all", "everyone"} then Some(Everyone)
    else
      var id := DecodeIdentityHash(if t in aliases then aliases[t] else t);
      if id.Some? then Some(Only(id.value)) else None
  }

  datatype Entry = Entry(perm: Perm, target: Target)

  function ParsePermission(line: string, aliases: Aliases): Option<Entry> {
    match SplitOnce(Trim(line), ':')
    case None => None
    case Some(parts) =>
      match PermOf(Lower(parts.0))
      case None => None
      case Some(perm) =>
        match ParseTarget(parts.1, aliases)
        case None => None
        case Some(target) => Some(Entry(perm, target))
  }

  /** One line of an `.allowed` file; blanks, comments and invalid entries are skipped. */
  function ParseLine(line: string, aliases: Aliases): Option<Entry> {
    var entry := Trim(line);
    if entry == "" || entry[0] == '#' then None else ParsePermission(entry, aliases)
  }

  function Pushed(list: seq<Target>, t: Target): seq<Target> {
    if t in list then list else list + [t]
  }

  function AddEntry(l: AccessLists, e: Entry): AccessLists {
    var t := e.target;
    match e.perm
    case Read => l.(read := Pushed(l.read, t))
    case Write => l.(write := Pushed(l.write, t))
    case ReadWrite => l.(read := Pushed(l.read, t), write := Pushed(l.write, t))
    case Create => l.(create := Pushed(l.create, t))
    case Stats => l.(stats := Pushed(l.stats, t))
    case Release => l.(release := Pushed(l.release, t))
    case Interact => l.(interact := Pushed(l.interact, t))
    case Propose => l.(propose := Pushed(l.propose, t))
    case Admin => l.(admin := Pushed(l.admin, t))
  }

  function BuildLists(lines: seq<string>, aliases: Aliases): AccessLists {
    if lines == [] then NO_LISTS
    else
      var before := BuildLists(lines[..|lines| - 1], aliases);
      match ParseLine(lines[|lines| - 1], aliases)
      case None => before
      case Some(e) => AddEntry(before, e)
  }

  function ListsOf(input: string, aliases: Aliases): AccessLists {
    BuildLists(Lines(input), aliases)
  }

  method PermissionsFromAllowedInput(input: string, aliases: Aliases) returns (lists: AccessLists)
    ensures lists == ListsOf(input, aliases)
  {
    hide ParsePermission, AddEntry, Lines;
    lists := NO_LISTS;
    var lines := Lines(input);
    for i := 0 to |lines|
      invariant lists == BuildLists(lines[..i], aliases)
    {
      assert lines[..i + 1][..i] == lines[..i];
      var entry := Trim(lines[i]);
      if entry == "" || entry[0] == '#' { continue; }
      var parsed := ParsePermission(entry, aliases);
      if parsed.Some? {
        lists := AddEntry(lists, parsed.value);
      }
    }
    assert lines[..|lines|] == lines;
  }

  /** Every identity an entry can name is a whole 16-byte hash. */
  lemma IdentitiesAreWhole(line: string, aliases: Aliases)
    ensures var e := ParseLine(line, aliases); e.Some? && e.value.target.Only? ==> |e.value.target.id| == 16
  {
    hide Trim, SplitOnce, Lower, PermOf;
    forall h: string | DecodeIdentityHash(h).Some? ensures |DecodeIdentityHash(h).value| == 16 {
      HexDecodeLength(Trim(h));
    }
  }

  // ---------------------------------------------------------------- writing entries

  /** The short and the long name of a permission. */
  function PermName(p: Perm, long: bool): string {
    match p
    case Read => if long then "read" else "r"
    case Write => if long then "write" else "w"
    case ReadWrite => if long then "readwrite" else "rw"
    case Create => if long then "create" else "c"
    case Stats => if long then "stats" else "s"
    case Release => if long then "release" else "rel"
    case Interact => if long then "interact" else "i"
    case Propose => if long then "propose" else "p"
    case Admin => if long then "admin" else "adm"
  }

  function TargetName(t: Target): string {
    match t
    case Nobody => "nobody"
    case Everyone => "all"
    case Only(id) => HexEncode(id)
  }

  /** The identity's hex is no alias, or an alias of itself. */
  predicate PlainIdentity(id: Identity, aliases: Aliases) {
    |id| == 16 && (HexEncode(id) !in aliases || DecodeIdentityHash(aliases[HexEncode(id)]) == Some(id))
  }

  /** Every permission and target, written either way, reads back as itself. */
  lemma EntryRoundTrip(p: Perm, long: bool, t: Target, aliases: Aliases)
    requires t.Only? ==> PlainIdentity(t.id, aliases)
    ensures ParseLine(PermName(p, long) + ":" + TargetName(t), aliases) == Some(Entry(p, t))
  {
    hide Trim, SplitOnce, PermOf, Lower, ParseTarget, PermName, TargetName, IsSpace;
    var name, target := PermName(p, long), TargetName(t);
    var line := name + ":" + target;
    PermNameFacts(p, long);
    TargetNameFacts(t, aliases);
    assert line[|line| - 1] == target[|target| - 1] && line[0] == name[0];
    TrimOfTrimmed(line);
    assert line == name + [':'] + target;
    SplitOnceAt(name, ':', target);
  }

  lemma PermNameFacts(p: Perm, long: bool)
    ensures var n := PermName(p, long);
            n != "" && ':' !in n && n[0] != '#' && !IsSpace(n[0]) && PermOf(Lower(n)) == Some(p)
  {
    hide PermName, PermOf, Lower, IsSpace;
    PermNameIsPlain(p, long);
    PermNameReads(p, long);
    LowerIsSame(PermName(p, long));
  }

  lemma PermNameReads(p: Perm, long: bool)
    ensures PermOf(PermName(p, long)) == Some(p)
  {
  }

  lemma PermNameIsPlain(p: Perm, long: bool)
    ensures var n := PermName(p, long);
            n != "" && ':' !in n && n[0] != '#' && !IsSpace(n[0]) && forall i :: 0 <= i < |n| ==> !('A' <= n[i] <= 'Z')
  {
  }

  lemma LowerIsSame(s: string)
    ensures (forall i :: 0 <= i < |s| ==> !('A' <= s[i] <= 'Z')) ==> Lower(s) == s
  {
  }

  lemma TargetNameFacts(t: Target, aliases: Aliases)
    requires t.Only? ==> PlainIdentity(t.id, aliases)
    ensures var n := TargetName(t); n != "" && !IsSpace(n[|n| - 1]) && ParseTarget(n, aliases) == Some(t)
  {
    var n := TargetName(t);
    if t.Only? {
      hide IsSpace, HexEncode;
      CreatorTarget(t.id, aliases);
      HexRoundTrip(t.id);
    } else {
      TrimOfTrimmed(n);
      LowerIsSame(n);
    }
  }

  // ---------------------------------------------------------------- which text means what

  const NOBODY_WORDS: seq<string> := ["n", "none", "nobody"]
  const EVERYONE_WORDS: seq<string> := ["a", "all", "everyone"]

  /** The text, white space around it aside, spells one of the words in some letter case. */
  ghost predicate Spells(text: string, words: seq<string>) {
    exists i :: 0 <= i < |words| && AnyCase(Trim(text), words[i])
  }

  lemma SpelledIff(text: string, words: seq<string>)
    requires forall i :: 0 <= i < |words| ==> LowerWord(words[i])
    ensures Lower(Trim(text)) in words <==> Spells(text, words)
  {
    hide Trim, Lower, AnyCase;
    forall i | 0 <= i < |words| ensures Lower(Trim(text)) == words[i] <==> AnyCase(Trim(text), words[i]) {
      LowerIff(Trim(text), words[i]);
    }
  }

  /** The whole meaning of a target: the three words for nobody and the three for everyone, in
      any letter case, and otherwise the identity whose hex the text, or what it is an alias
      of, writes; nothing else means anything. */
  lemma TargetIff(text: string, aliases: Aliases, t: Target)
    ensures ParseTarget(text, aliases) == Some(t) <==>
            if Spells(text, NOBODY_WORDS) then t == Nobody
            else if Spells(text, EVERYONE_WORDS) then t == Everyone
            else
              var hash := if Trim(text) in aliases then aliases[Trim(text)] else Trim(text);
              t.Only? && |Trim(hash)| == 32 && Lower(Trim(hash)) == HexEncode(t.id)
  {
    hide Trim, Lower, Spells, HexEncode, HexDecode;
    SpelledIff(text, NOBODY_WORDS);
    SpelledIff(text, EVERYONE_WORDS);
    if t.Only? {
      HexDecodeIff(Trim(if Trim(text) in aliases then aliases[Trim(text)] else Trim(text)), t.id);
    }
  }

  /** A permission's name is one of its two names, in any letter case and with nothing around it. */
  lemma PermIff(name: string, p: Perm)
    ensures PermOf(Lower(name)) == Some(p) <==> AnyCase(name, PermName(p, false)) || AnyCase(name, PermName(p, true))
  {
    hide Lower, AnyCase, PermOf, PermName;
    PermNameFacts(p, false);
    PermNameFacts(p, true);
    PermNameIsPlain(p, false);
    PermNameIsPlain(p, true);
    PermWords(p, false);
    PermWords(p, true);
    LowerIff(name, PermName(p, false));
    LowerIff(name, PermName(p, true));
    PermOfIff(Lower(name), p);
  }

  lemma PermWords(p: Perm, long: bool)
    ensures LowerWord(PermName(p, long))
  {
  }

  lemma PermOfIff(s: string, p: Perm)
    ensures PermOf(s) == Some(p) <==> s == PermName(p, false) || s == PermName(p, true)
  {
  }

  /** The text reads `name ':' target` when trimmed, is no comment, and has these parts. */
  ghost predicate HasParts(line: string, name: string, target: string) {
    Trim(line) == name + ":" + target && ':' !in name && Trim(line)[0] != '#'
  }

  /** The whole meaning of a line: a permission's name, a colon and a target. */
  lemma LineIff(line: string, aliases: Aliases, e: Entry)
    ensures ParseLine(line, aliases) == Some(e) <==>
            exists name, target ::
              && HasParts(line, name, target)
              && (AnyCase(name, PermName(e.perm, false)) || AnyCase(name, PermName(e.perm, true)))
              && ParseTarget(target, aliases) == Some(e.target)
  {
    hide Trim, PermOf, Lower, ParseTarget, AnyCase, PermName, SplitOnce;
    TrimTwice(line);
    forall name, target | HasParts(line, name, target)
      ensures SplitOnce(Trim(line), ':') == Some((name, target))
    {
      assert name + [':'] + target == name + ":" + target;
      SplitOnceAt(name, ':', target);
    }
    var parts := SplitOnce(Trim(line), ':');
    if parts.Some? {
      SplitOnceParts(Trim(line), ':');
      PermIff(parts.value.0, e.perm);
    }
    if ParseLine(line, aliases) == Some(e) { assert HasParts(line, parts.value.0, parts.value.1); }
  }

  lemma TrimTwice(s: string)
    ensures Trim(Trim(s)) == Trim(s)
  {
    hide Trim;
    var a, b := TrimParts(s);
    TrimOfTrimmed(Trim(s));
  }

  lemma SplitOnceParts(s: string, c: char)
    ensures SplitOnce(s, c).Some? ==> var (a, b) := SplitOnce(s, c).value; s == a + [c] + b && c !in a
  {
  }

  // ---------------------------------------------------------------- deciding

  predicate ContainsIdentity(list: seq<Target>, who: Identity) { Only(who) in list }

  function ResolvePermission(repo: AccessLists, group: AccessLists, who: Identity, perm: Perm): bool {
    var repoList, groupList := ListFor(repo, perm), ListFor(group, perm);
    if Nobody in repoList then false
    else if Everyone in repoList then true
    else if ContainsIdentity(repoList, who) then true
    else if ContainsIdentity(repo.admin, who) then true
    else if repoList != [] then false
    else if Nobody in groupList then false
    else if Everyone in groupList then true
    else if ContainsIdentity(groupList, who) then true
    else if ContainsIdentity(group.admin, who) then true
    else false
  }

  function ResolveGroupPermission(group: AccessLists, who: Identity, perm: Perm): bool {
    var list := ListFor(group, perm);
    if Nobody in list then false
    else if Everyone in list then true
    else if ContainsIdentity(list, who) then true
    else if ContainsIdentity(group.admin, who) then true
    else false
  }

  /** One tier on its own: denial first, then everyone, the identity, the admins. */
  ghost predicate Grants(lists: AccessLists, who: Identity, perm: Perm) {
    Nobody !in ListFor(lists, perm) &&
    (Everyone in ListFor(lists, perm) || Only(who) in ListFor(lists, perm) || Only(who) in lists.admin)
  }

  /** The cascade as a rule: the repository's tier decides when it has entries for the
      permission or names the peer as admin; otherwise the group's tier does. */
  lemma CascadeIsRule(repo: AccessLists, group: AccessLists, who: Identity, perm: Perm)
    ensures ResolvePermission(repo, group, who, perm) <==>
            if ListFor(repo, perm) != [] || Only(who) in repo.admin
            then Grants(repo, who, perm) else Grants(group, who, perm)
    ensures ResolveGroupPermission(group, who, perm) <==> Grants(group, who, perm)
  {
  }

  /** Which lists one entry goes on: its own, and for "rw" both read and write. */
  lemma WhereEntriesGo(l: AccessLists, t: Target)
    requires l == NO_LISTS
    ensures AddEntry(l, Entry(Read, t)) == l.(read := [t]) && AddEntry(l, Entry(Write, t)) == l.(write := [t])
    ensures AddEntry(l, Entry(ReadWrite, t)) == l.(read := [t], write := [t])
    ensures AddEntry(l, Entry(Create, t)) == l.(create := [t]) && AddEntry(l, Entry(Stats, t)) == l.(stats := [t])
    ensures AddEntry(l, Entry(Release, t)) == l.(release := [t]) &&
            AddEntry(l, Entry(Interact, t)) == l.(interact := [t])
    ensures AddEntry(l, Entry(Propose, t)) == l.(propose := [t]) && AddEntry(l, Entry(Admin, t)) == l.(admin := [t])
    ensures ListFor(AddEntry(l, Entry(ReadWrite, t)), Read) == ListFor(AddEntry(l, Entry(ReadWrite, t)), Write) == [t]
  {
  }

  // ---------------------------------------------------------------- set semantics

  /** Whether an entry for `from` puts its target on the list for `to`. */
  predicate Covers(from: Perm, to: Perm) {
    from == to || (from == ReadWrite && to in {Read, Write}) || (to == ReadWrite && from == Read)
  }

  lemma {:induction false} ListedIff(lines: seq<string>, aliases: Aliases, perm: Perm, t: Target)
    ensures t in ListFor(BuildLists(lines, aliases), perm) <==>
            exists i :: 0 <= i < |lines| && ParseLine(lines[i], aliases).Some? &&
                        ParseLine(lines[i], aliases).value.target == t &&
                          Covers(ParseLine(lines[i], aliases).value.perm, perm)
  {
    hide ParseLine;
    if lines != [] {
      var front, last := lines[..|lines| - 1], lines[|lines| - 1];
      ListedIff(front, aliases, perm, t);
      assert lines == front + [last];
      if ParseLine(last, aliases).Some? {
        AddEntryLists(BuildLists(front, aliases), ParseLine(last, aliases).value, perm, t);
      }
      assert forall i :: 0 <= i < |front| ==> lines[i] == front[i];
    }
  }

  lemma AddEntryLists(l: AccessLists, e: Entry, perm: Perm, t: Target)
    ensures t in ListFor(AddEntry(l, e), perm) <==> t in ListFor(l, perm) || (e.target == t && Covers(e.perm, perm))
  {
    hide Pushed;
    PushedIff(ListFor(l, perm), e.target, t);
    PushedIff(l.write, e.target, t);
  }

  lemma PushedIff(list: seq<Target>, x: Target, t: Target)
    ensures t in Pushed(list, x) <==> t in list || t == x
  {
  }

  /** Every effective line of `a` also stands in `b`. */
  ghost predicate LinesWithin(a: seq<string>, b: seq<string>, aliases: Aliases) {
    forall i :: 0 <= i < |a| && ParseLine(a[i], aliases).Some? ==>
      exists j :: 0 <= j < |b| && ParseLine(b[j], aliases) == ParseLine(a[i], aliases)
  }

  /** Same targets on every list, in whatever order and number. */
  ghost predicate SameSets(a: AccessLists, b: AccessLists) {
    forall p: Perm, t: Target :: t in ListFor(a, p) <==> t in ListFor(b, p)
  }

  lemma WithinLists(a: seq<string>, b: seq<string>, aliases: Aliases, p: Perm, t: Target)
    requires LinesWithin(a, b, aliases) && t in ListFor(BuildLists(a, aliases), p)
    ensures t in ListFor(BuildLists(b, aliases), p)
  {
    hide ParseLine, BuildLists, ListFor, Covers;
    ListedIff(a, aliases, p, t);
    ListedIff(b, aliases, p, t);
    var i :| 0 <= i < |a| && ParseLine(a[i], aliases).Some? &&
             ParseLine(a[i], aliases).value.target == t && Covers(ParseLine(a[i], aliases).value.perm, p);
    var j :| 0 <= j < |b| && ParseLine(b[j], aliases) == ParseLine(a[i], aliases);
  }

  lemma SameSetsDecide(a: AccessLists, b: AccessLists, g: AccessLists, h: AccessLists, who: Identity, perm: Perm)
    requires SameSets(a, b) && SameSets(g, h)
    ensures ResolvePermission(a, g, who, perm) == ResolvePermission(b, h, who, perm)
    ensures ResolveGroupPermission(g, who, perm) == ResolveGroupPermission(h, who, perm)
  {
    hide ResolvePermission, ResolveGroupPermission, Grants;
    CascadeIsRule(a, g, who, perm);
    CascadeIsRule(b, h, who, perm);
    SameEmptiness(a, b, perm);
    assert Only(who) in ListFor(a, Admin) <==> Only(who) in ListFor(b, Admin);
    SameGrants(a, b, who, perm);
    SameGrants(g, h, who, perm);
  }

  lemma SameGrants(a: AccessLists, b: AccessLists, who: Identity, perm: Perm)
    requires SameSets(a, b)
    ensures Grants(a, who, perm) == Grants(b, who, perm)
  {
    assert Only(who) in ListFor(a, Admin) <==> Only(who) in ListFor(b, Admin);
  }

  lemma SameEmptiness(a: AccessLists, b: AccessLists, perm: Perm)
    requires SameSets(a, b)
    ensures ListFor(a, perm) == [] <==> ListFor(b, perm) == []
  {
    var x, y := ListFor(a, perm), ListFor(b, perm);
    if x != [] { assert x[0] in ListFor(b, perm); }
    if y != [] { assert y[0] in ListFor(a, perm); }
  }

  /** Permuting, repeating, commenting out invalid lines or adding comments changes no
      decision: only the set of effective lines matters. */
  lemma OnlyTheSetOfLinesMatters(a: string, b: string, g: string, h: string, aliases: Aliases, who: Identity,
                                 perm: Perm)
    requires LinesWithin(Lines(a), Lines(b), aliases) && LinesWithin(Lines(b), Lines(a), aliases)
    requires LinesWithin(Lines(g), Lines(h), aliases) && LinesWithin(Lines(h), Lines(g), aliases)
    ensures ResolvePermission(ListsOf(a, aliases), ListsOf(g, aliases), who, perm)
         == ResolvePermission(ListsOf(b, aliases), ListsOf(h, aliases), who, perm)
    ensures ResolveGroupPermission(ListsOf(g, aliases), who, perm) ==
            ResolveGroupPermission(ListsOf(h, aliases), who, perm)
  {
    hide ParseLine, BuildLists, ResolvePermission, ResolveGroupPermission, Lines;
    SetsFromLines(Lines(a), Lines(b), aliases);
    SetsFromLines(Lines(g), Lines(h), aliases);
    SameSetsDecide(ListsOf(a, aliases), ListsOf(b, aliases), ListsOf(g, aliases), ListsOf(h, aliases), who, perm);
  }

  lemma SetsFromLines(a: seq<string>, b: seq<string>, aliases: Aliases)
    requires LinesWithin(a, b, aliases) && LinesWithin(b, a, aliases)
    ensures SameSets(BuildLists(a, aliases), BuildLists(b, aliases))
  {
    hide LinesWithin, BuildLists, ListFor;
    forall p: Perm, t: Target
      ensures t in ListFor(BuildLists(a, aliases), p) <==> t in ListFor(BuildLists(b, aliases), p)
    {
      if t in ListFor(BuildLists(a, aliases), p) { WithinLists(a, b, aliases, p, t); }
      if t in ListFor(BuildLists(b, aliases), p) { WithinLists(b, a, aliases, p, t); }
    }
  }

  lemma PermutedLines(a: seq<string>, b: seq<string>, aliases: Aliases)
    requires multiset(a) == multiset(b)
    ensures LinesWithin(a, b, aliases)
  {
    hide ParseLine;
    forall i | 0 <= i < |a| && ParseLine(a[i], aliases).Some?
      ensures exists j :: 0 <= j < |b| && ParseLine(b[j], aliases) == ParseLine(a[i], aliases)
    {
      assert a[i] in multiset(a);
      assert a[i] in multiset(b);
      var j :| 0 <= j < |b| && b[j] == a[i];
    }
  }

  /** Trimming decides whether a CR matters: it never does. */
  lemma CrIsTrimmed(line: string, aliases: Aliases)
    ensures ParseLine(StripCr(line), aliases) == ParseLine(line, aliases)
  {
    hide ParsePermission;
    if line != "" && line[|line| - 1] == '\r' {
      TrimCr(line[..|line| - 1]);
      assert line == line[..|line| - 1] + "\r";
    }
  }

  lemma {:induction false} TrimCr(s: string)
    ensures Trim(s + "\r") == Trim(s)
    decreases |s|
  {
    var r := s + "\r";
    if s == "" {
      assert r == "\r" && r[1..] == "";
    } else if IsSpace(s[0]) {
      assert r[1..] == s[1..] + "\r";
      TrimCr(s[1..]);
    } else {
      assert TrimStart(r) == r && r[..|r| - 1] == s;
    }
  }

  /** One line that denies a permission to nobody in particular denies it to everybody, admins
      and creators included, whatever else the repository's and the group's files say. */
  lemma NoneDeniesAll(content: string, group: AccessLists, aliases: Aliases, who: Identity, perm: Perm, i: nat)
    requires i < |Lines(content)| && ParseLine(Lines(content)[i], aliases).Some?
    requires var e := ParseLine(Lines(content)[i], aliases).value; e.target == Nobody && Covers(e.perm, perm)
    ensures !ResolvePermission(ListsOf(content, aliases), group, who, perm)
  {
    hide ParseLine, Covers, BuildLists, ListFor;
    ListedIff(Lines(content), aliases, perm, Nobody);
  }

  /** So a file with the line "r:none" lets nobody read. */
  lemma ReadNone(content: string, group: AccessLists, aliases: Aliases, who: Identity, i: nat)
    requires i < |Lines(content)| && Lines(content)[i] == "r:none"
    ensures !ResolvePermission(ListsOf(content, aliases), group, who, Read)
  {
    hide ParseLine, ParseTarget, ResolvePermission, ListsOf;
    var line, word := "r:none", "none";
    assert line[0] == 'r' && line[5] == 'e' && word[0] == 'n' && word[3] == 'e';
    TrimOfTrimmed(line);
    TrimOfTrimmed(word);
    assert AnyCase(Trim(word), NOBODY_WORDS[1]);
    TargetIff(word, aliases, Nobody);
    assert HasParts(line, "r", "none") && AnyCase("r", PermName(Read, false));
    LineIff(line, aliases, Entry(Read, Nobody));
    NoneDeniesAll(content, group, aliases, who, Read, i);
  }

  // ---------------------------------------------------------------- the group's two sources

  function JoinEntries(entries: seq<string>): string {
    if entries == [] then "" else entries[0] + "\n" + JoinEntries(entries[1..])
  }

  /** The group's input: its file, when readable, followed by its config entries. */
  function GroupInput(file: Option<string>, entries: seq<string>): string {
    (if file.Some? then file.value + "\n" else "") + JoinEntries(entries)
  }

  /** Lists the targets of both. */
  ghost predicate IsUnion(u: AccessLists, a: AccessLists, b: AccessLists) {
    forall p: Perm, t: Target :: t in ListFor(u, p) <==> t in ListFor(a, p) || t in ListFor(b, p)
  }

  lemma UnionOfLines(a: seq<string>, b: seq<string>, aliases: Aliases)
    ensures IsUnion(BuildLists(a + b, aliases), BuildLists(a, aliases), BuildLists(b, aliases))
  {
    hide ParseLine, BuildLists, ListFor, Covers;
    forall p: Perm, t: Target
      ensures t in ListFor(BuildLists(a + b, aliases), p) <==>
              t in ListFor(BuildLists(a, aliases), p) || t in ListFor(BuildLists(b, aliases), p)
    {
      ListedIff(a, aliases, p, t);
      ListedIff(b, aliases, p, t);
      ListedIff(a + b, aliases, p, t);
      assert forall i :: 0 <= i < |a| ==> (a + b)[i] == a[i];
      assert forall i :: 0 <= i < |b| ==> (a + b)[|a| + i] == b[i];
      if t in ListFor(BuildLists(a + b, aliases), p) {
        var i :| 0 <= i < |a + b| && ParseLine((a + b)[i], aliases).Some? &&
                 ParseLine((a + b)[i], aliases).value.target == t &&
                   Covers(ParseLine((a + b)[i], aliases).value.perm, p);
        if i >= |a| { assert (a + b)[i] == b[i - |a|]; }
      }
    }
  }

  /** The group file followed by the config entries decides as the union of the two. */
  lemma GroupIsUnion(file: string, entries: seq<string>, aliases: Aliases)
    ensures IsUnion(ListsOf(GroupInput(Some(file), entries), aliases),
                    ListsOf(file, aliases), ListsOf(JoinEntries(entries), aliases))
  {
    hide ParseLine, BuildLists, ListFor, Lines, JoinEntries, IsUnion;
    var more := JoinEntries(entries);
    LinesAppend(file, more);
    UnionOfLines(Lines(file + "\n"), Lines(more), aliases);
    FinalNewline(file);
    SameListsUpToLastCr(Lines(file), Lines(file + "\n"), aliases);
    UnionCongruent(ListsOf(GroupInput(Some(file), entries), aliases), ListsOf(file + "\n", aliases),
      ListsOf(file, aliases), ListsOf(more, aliases));
  }

  lemma UnionCongruent(u: AccessLists, a: AccessLists, a': AccessLists, b: AccessLists)
    requires IsUnion(u, a, b) && SameSets(a, a')
    ensures IsUnion(u, a', b)
  {
    hide ListFor;
  }

  lemma SameListsUpToLastCr(x: seq<string>, y: seq<string>, aliases: Aliases)
    requires SameUpToLastCr(x, y)
    ensures SameSets(BuildLists(y, aliases), BuildLists(x, aliases))
  {
    hide ParseLine, StripCr;
    EmptyLine(aliases);
    if y == x + [""] {
      assert y[..|y| - 1] == x;
    } else {
      CrIsTrimmed(x[|x| - 1], aliases);
      assert y[..|y| - 1] == x[..|x| - 1];
    }
  }

  lemma EmptyLine(aliases: Aliases)
    ensures ParseLine("", aliases) == None
  {
  }

  lemma {:induction false} JoinedLines(entries: seq<string>)
    requires forall i :: 0 <= i < |entries| ==> '\n' !in entries[i]
    ensures |Lines(JoinEntries(entries))| == |entries|
    ensures forall i :: 0 <= i < |entries| ==> Lines(JoinEntries(entries))[i] == StripCr(entries[i])
  {
    hide Lines, StripCr;
    if entries == [] {
      LinesOfOne("");
    } else {
      LinesCons(entries[0], JoinEntries(entries[1..]));
      JoinedLines(entries[1..]);
    }
  }

  /** Config entries, one to a line, list exactly what each of them says. */
  lemma EntriesListedIff(entries: seq<string>, aliases: Aliases, perm: Perm, t: Target)
    requires forall i :: 0 <= i < |entries| ==> '\n' !in entries[i]
    ensures t in ListFor(ListsOf(JoinEntries(entries), aliases), perm) <==>
            exists i :: 0 <= i < |entries| && ParseLine(entries[i], aliases).Some? &&
                        ParseLine(entries[i], aliases).value.target == t &&
                          Covers(ParseLine(entries[i], aliases).value.perm, perm)
  {
    hide ParseLine, BuildLists, ListFor, Covers, StripCr, Lines, JoinEntries;
    var lines := Lines(JoinEntries(entries));
    JoinedLines(entries);
    ListedIff(lines, aliases, perm, t);
    forall i | 0 <= i < |entries| ensures ParseLine(lines[i], aliases) == ParseLine(entries[i], aliases) {
      CrIsTrimmed(entries[i], aliases);
    }
    if i :| 0 <= i < |entries| && ParseLine(entries[i], aliases).Some? &&
            ParseLine(entries[i], aliases).value.target == t &&
              Covers(ParseLine(entries[i], aliases).value.perm, perm) {
      assert ParseLine(lines[i], aliases).Some?;
    }
  }

  // ---------------------------------------------------------------- the ACL a creator is given

  function CreatorAcl(creator: Identity): string { "adm:" + HexEncode(creator) + "\n" }

  /** Whom the creator's ACL really names: an alias for the creator's hex is followed. */
  function OwnerOf(creator: Identity, aliases: Aliases): Option<Identity> {
    var h := HexEncode(creator);
    DecodeIdentityHash(if h in aliases then aliases[h] else h)
  }

  /** Re-reading the creator's ACL lists its owner as the only admin, or nobody at all. */
  lemma CreatorAclLists(creator: Identity, aliases: Aliases)
    requires |creator| == 16
    ensures var owner := OwnerOf(creator, aliases);
            ListsOf(CreatorAcl(creator), aliases) ==
            if owner.Some? then NO_LISTS.(admin := [Only(owner.value)]) else NO_LISTS
    ensures PlainIdentity(creator, aliases) <==> OwnerOf(creator, aliases) == Some(creator)
  {
    hide ParseLine, BuildLists, HexEncode, DecodeIdentityHash, Lines, StripCr, OwnerOf, PlainIdentity;
    var line := "adm:" + HexEncode(creator);
    CreatorEntry(creator, aliases);
    CreatorLine(creator);
    LinesOfOne(line);
    assert line + "\n" == CreatorAcl(creator);
    NoCr(line);
    OneLineLists(line, aliases);
    PlainIff(creator, aliases);
  }

  lemma PlainIff(creator: Identity, aliases: Aliases)
    requires |creator| == 16
    ensures PlainIdentity(creator, aliases) <==> OwnerOf(creator, aliases) == Some(creator)
  {
    hide HexEncode, DecodeIdentityHash;
    CreatorTarget(creator, aliases);
  }

  lemma NoCr(line: string)
    requires line != "" && line[|line| - 1] != '\r'
    ensures StripCr(line) == line
  {
  }

  lemma CreatorEntry(creator: Identity, aliases: Aliases)
    requires |creator| == 16
    ensures var owner := OwnerOf(creator, aliases);
            ParseLine("adm:" + HexEncode(creator), aliases) ==
            if owner.Some? then Some(Entry(Admin, Only(owner.value))) else None
  {
    hide ParseTarget, PermOf, HexEncode, DecodeIdentityHash, Trim, Lower, SplitOnce, OwnerOf;
    CreatorLine(creator);
    CreatorTarget(creator, aliases);
  }

  lemma OneLineLists(line: string, aliases: Aliases)
    ensures var e := ParseLine(line, aliases);
            BuildLists([line], aliases) == if e.Some? then AddEntry(NO_LISTS, e.value) else NO_LISTS
  {
    hide ParseLine, AddEntry;
    assert [line][..0] == [];
    assert BuildLists([], aliases) == NO_LISTS;
  }

  /** The creator is the only admin, and nothing else is listed, exactly when the creator's
      hex is not an alias of something else. */
  lemma CreatorAclIff(creator: Identity, aliases: Aliases)
    requires |creator| == 16
    ensures ListsOf(CreatorAcl(creator), aliases) == NO_LISTS.(admin := [Only(creator)]) <==>
              PlainIdentity(creator, aliases)
  {
    hide ListsOf, CreatorAcl, OwnerOf, PlainIdentity;
    CreatorAclLists(creator, aliases);
  }

  lemma CreatorLine(creator: Identity)
    requires |creator| == 16
    ensures var line := "adm:" + HexEncode(creator);
            && Trim(line) == line && SplitOnce(line, ':') == Some(("adm", HexEncode(creator)))
            && PermOf(Lower("adm")) == Some(Admin)
            && '\n' !in line && line[|line| - 1] != '\r'
  {
    hide HexEncode, Trim, SplitOnce, IsSpace;
    var h := HexEncode(creator);
    HexRoundTrip(creator);
    var line := "adm:" + h;
    assert line[|line| - 1] == h[|h| - 1];
    LetterIsNoSpace();
    TrimOfTrimmed(line);
    assert line == "adm" + [':'] + h;
    SplitOnceAt("adm", ':', h);
    assert Lower("adm") == "adm";
    NoNewlineIn("adm:", h);
  }

  lemma LetterIsNoSpace()
    ensures !IsSpace('a')
  {
  }

  lemma NoNewlineIn(a: string, b: string)
    requires '\n' !in a && forall i :: 0 <= i < |b| ==> b[i] != '\n'
    ensures '\n' !in a + b
  {
  }

  lemma CreatorTarget(creator: Identity, aliases: Aliases)
    requires |creator| == 16
    ensures ParseTarget(HexEncode(creator), aliases) ==
            if OwnerOf(creator, aliases).Some? then Some(Only(OwnerOf(creator, aliases).value)) else None
    ensures DecodeIdentityHash(HexEncode(creator)) == Some(creator)
  {
    var h := HexEncode(creator);
    HexRoundTrip(creator);
    TrimOfTrimmed(h);
    assert |Lower(h)| == 32;
  }

  /** The decisions under such an ACL: its owner may do everything, nobody else is admin,
      and every other decision is the group's; without an owner all decisions are. */
  lemma OwnedDecisions(owner: Option<Identity>, group: AccessLists, who: Identity, perm: Perm)
    ensures var repo := if owner.Some? then NO_LISTS.(admin := [Only(owner.value)]) else NO_LISTS;
            ResolvePermission(repo, group, who, perm) <==>
            owner == Some(who) || ((perm == Admin ==> owner.None?) && ResolveGroupPermission(group, who, perm))
  {
  }
}
