/**
  What the git server answers, and what it does to the filesystem, request by request:
  for whom each request succeeds, with what content, and what every other case gets.
 */
module GitServerAnswers {
  import opened Wrappers
  import opened Text
  import opened Acl
  import opened Repositories
  import opened BundleFetch
  import opened GitServer
  import opened GitServerRuns

  // ---------------------------------------------------------------- names

  /** A peer is blocked exactly when some entry writes its hash in hex, in either letter case. */
  lemma BlockedIff(cfg: Cfg, peer: Peer)
    ensures Blocked(cfg, peer) <==> exists i :: 0 <= i < |cfg.blocked| && HexDecode(cfg.blocked[i]) == Some(peer)
  {
    hide Lower, HexEncode, HexDecode;
    forall i | 0 <= i < |cfg.blocked|
      ensures HexDecode(cfg.blocked[i]) == Some(peer) <==> Lower(cfg.blocked[i]) == HexEncode(peer)
    {
      HexDecodeIff(cfg.blocked[i], peer);
    }
  }

  /** A group's lists hold exactly what its access file lists, when that is readable text, and
      what its config entries list. */
  lemma GroupListsIff(cfg: Cfg, fs: Fs, group: string, perm: Perm, t: Target)
    requires group in cfg.repositories
    ensures var path := AclPath(cfg.repositories[group]);
            var entries := if group in cfg.access then cfg.access[group] else [];
            t in ListFor(GroupAccess(cfg, fs, group, cfg.repositories[group]), perm) <==>
            (path in fs && fs[path].File? && fs[path].content.Some? &&
             t in ListFor(ListsOf(fs[path].content.value, cfg.aliases), perm)) ||
            t in ListFor(ListsOf(JoinEntries(entries), cfg.aliases), perm)
  {
    hide ListsOf, ListFor, JoinEntries;
    var text := ReadText(fs, AclPath(cfg.repositories[group]));
    var entries := if group in cfg.access then cfg.access[group] else [];
    if text.Some? {
      GroupIsUnion(text.value, entries, cfg.aliases);
      assert IsUnion(ListsOf(GroupInput(Some(text.value), entries), cfg.aliases), ListsOf(text.value, cfg.aliases),
          ListsOf(JoinEntries(entries), cfg.aliases));
    } else {
      NoFile(entries);
    }
  }

  /** Who may do what in a group: an unblocked peer whom the group's lists grant it. */
  lemma GroupMayIff(cfg: Cfg, fs: Fs, peer: Peer, group: string, perm: Perm)
    ensures ResolveGroupPerm(cfg, fs, peer, group, perm) <==>
            && !Blocked(cfg, peer) && group in cfg.repositories && IsDir(fs, cfg.repositories[group])
            && Grants(GroupAccess(cfg, fs, group, cfg.repositories[group]), peer, perm)
  {
    hide GroupAccess, Blocked;
    if group in cfg.repositories {
      CascadeIsRule(NO_LISTS, GroupAccess(cfg, fs, group, cfg.repositories[group]), peer, perm);
    }
  }

  /** Who may do what with a repository: an unblocked peer whom the repository's own access file
      grants it, where that file says anything about it or names the peer as admin, and whom the
      group grants it otherwise. */
  lemma RepoMayIff(cfg: Cfg, fs: Fs, peer: Peer, group: string, repo: string, perm: Perm)
    requires group in cfg.repositories && IsPlainComponent(repo)
    ensures var g, p := cfg.repositories[group], RepoPath(cfg, group, repo);
            var own := if AclPath(p) in fs && fs[AclPath(p)].File? && fs[AclPath(p)].content.Some?
                       then ListsOf(fs[AclPath(p)].content.value, cfg.aliases) else NO_LISTS;
            ResolvePerm(cfg, fs, peer, group, repo, perm) <==>
            && !Blocked(cfg, peer) && IsDir(fs, g) && IsDir(fs, p)
            && if ListFor(own, perm) != [] || Only(peer) in own.admin then Grants(own, peer, perm)
               else Grants(GroupAccess(cfg, fs, group, g), peer, perm)
  {
    hide GroupAccess, Blocked, ListsOf, ListFor, Grants, ResolvePermission;
    var g, p := cfg.repositories[group], RepoPath(cfg, group, repo);
    CascadeIsRule(RepoAccess(cfg, fs, p), GroupAccess(cfg, fs, group, g), peer, perm);
  }

  /** One step of a path that stays where it is put. */
  predicate PlainName(name: string) {
    name != "" && name != "." && name != ".." && |name| <= 256 && forall i :: 0 <= i < |name| ==> name[i] != '/'
  }

  /** A request's repository is a group and a name with one slash between, and nothing else. */
  lemma RequestPathIff(path: string, group: string, repo: string)
    ensures ParseRequestPath(path) == Some((group, repo)) <==>
            path == group + "/" + repo && PlainName(group) && PlainName(repo)
  {
    hide SplitOnce;
    if path == group + "/" + repo && PlainName(group) && PlainName(repo) { PathOf(group, repo); }
    if ParseRequestPath(path) == Some((group, repo)) {
      SplitOnceParts(path, '/');
      assert path == group + "/" + repo;
    }
  }

  /** A part of the name that starts no later than `i` ends in ".lock". */
  predicate LockedAt(name: string, i: int) {
    0 <= i <= |name| - 5 && name[i..i + 5] == ".lock" && (i + 5 == |name| || name[i + 5] == '/')
  }

  ghost predicate ProperSlashes(name: string) {
    && (exists i :: 0 <= i < |name| && name[i] == '/')
    && forall i :: 0 <= i < |name| && name[i] == '/' ==> 0 < i < |name| - 1 && name[i + 1] != '/' && name[i + 1] != '.'
  }

  ghost predicate ProperDots(name: string) {
    && (forall i :: 0 <= i < |name| && name[i] == '.' ==> i < |name| - 1 && name[i + 1] != '.')
    && forall i :: !LockedAt(name, i)
  }

  predicate ProperChar(c: char) {
    '(' <= c && c != 127 as char && c != '~' && c != '^' && c != ':' && c != '?' && c != '*' && c != '[' && c != '@' &&
      c != '\\'
  }

  /** A ref name, character by character: slashes only between other characters and never before
      a dot or a slash, dots only before something else than a dot, no ".lock" at the end of a
      part, no leading dash, and none of the characters git gives a meaning. */
  lemma SanRefIff(name: string)
    ensures SanRef(name) <==>
            && ProperSlashes(name) && ProperDots(name) && name[0] != '-'
            && forall i :: 0 <= i < |name| ==> ProperChar(name[i])
  {
    hide Contains, StartsWith, EndsWith, LockedAt, ProperChar;
    TwoInARow(name, "..");
    TwoInARow(name, "/.");
    TwoInARow(name, "//");
    LockedPart(name);
    Edges(name);
    CharsIff(name);
  }

  lemma Edges(name: string)
    ensures name != "" ==> (StartsWith(name, "-") <==> name[0] == '-') && (StartsWith(name, "/") <==> name[0] == '/')
    ensures name != "" ==>
              (EndsWith(name, "/") <==> name[|name| - 1] == '/') && (EndsWith(name, ".") <==> name[|name| - 1] == '.')
  {
    if name != "" {
      assert name[..1] == [name[0]] && name[|name| - 1..] == [name[|name| - 1]];
    }
  }

  lemma CharsIff(name: string)
    ensures (forall i :: 0 <= i < |name| ==> ProperChar(name[i])) <==>
            && ' ' !in name && '\\' !in name
            && (forall i :: 0 <= i < |name| ==> name[i] as int >= 40 && name[i] as int != 0x7f)
            && (forall i :: 0 <= i < |name| ==> name[i] !in {'~', '^', ':', '?', '*', '[', '@'})
  {
  }

  lemma TwoInARow(s: string, part: string)
    requires |part| == 2
    ensures Contains(s, part) <==> exists i :: 0 <= i < |s| - 1 && s[i] == part[0] && s[i + 1] == part[1]
  {
    if Contains(s, part) {
      var i :| 0 <= i <= |s| && StartsWith(s[i..], part);
      FirstTwo(s[i..], part);
      assert s[i] == part[0] && s[i + 1] == part[1];
    }
    if i :| 0 <= i < |s| - 1 && s[i] == part[0] && s[i + 1] == part[1] {
      assert s[i..][..2] == part;
      assert StartsWith(s[i..], part);
    }
  }

  lemma LockedPart(s: string)
    ensures Contains(s + "/", ".lock/") <==>
            exists i :: LockedAt(s, i)
  {
    var t := s + "/";
    if Contains(t, ".lock/") {
      var i :| 0 <= i <= |t| && StartsWith(t[i..], ".lock/");
      assert t[i..][..6] == ".lock/";
      assert t[i..i + 6] == ".lock/" && s[i..i + 5] == t[i..i + 6][..5] && t[i + 5] == t[i..i + 6][5];
      assert LockedAt(s, i);
    }
    if i :| LockedAt(s, i) {
      assert t[i..][..6] == s[i..i + 5] + [t[i + 5]] == ".lock/";
      assert StartsWith(t[i..], ".lock/");
    }
  }

  /** An object name: forty hex digits or more, of either letter case. */
  lemma SanShaIff(sha: string)
    ensures SanSha(sha) <==> |sha| >= 40 && forall i :: 0 <= i < |sha| ==> sha[i] in "0123456789abcdefABCDEF"
  {
    forall c: char ensures HexValue(c).Some? <==> c in "0123456789abcdefABCDEF" { HexDigitChar(c); }
  }

  lemma HexDigitChar(c: char)
    ensures HexValue(c).Some? <==> c in "0123456789abcdefABCDEF"
  {
    var digits := "0123456789abcdefABCDEF";
    if '0' <= c <= '9' { assert digits[c as int - '0' as int] == c; }
    if 'a' <= c <= 'f' { assert digits[10 + (c as int - 'a' as int)] == c; }
    if 'A' <= c <= 'F' { assert digits[16 + (c as int - 'A' as int)] == c; }
  }

  /** The full names git tries for a name, in order. */
  function FullNames(name: string): seq<string> {
    [name, "refs/" + name, "refs/tags/" + name, "refs/heads/" + name, "refs/remotes/" + name,
      "refs/remotes/" + name + "/HEAD"]
  }

  /** A name stands for the first of its full names that there is. */
  lemma TipIsOfFirst(refs: Refs, name: string, k: nat)
    requires k < 6 && FullNames(name)[k] in refs && forall j :: 0 <= j < k ==> FullNames(name)[j] !in refs
    ensures TipFor(refs, name) == Some(refs[FullNames(name)[k]])
  {
    NamesTried(name);
  }

  lemma NamesTried(name: string)
    ensures var names := FullNames(name);
            && names[0] == name && names[1] == REFS_PREFIX + name && names[2] == TAGS_PREFIX + name &&
              names[3] == HEADS_PREFIX + name
            && names[4] == "refs/remotes/" + name && names[5] == "refs/remotes/" + name + "/HEAD"
  {
  }

  /** A name stands for nothing exactly when none of its full names is there. */
  lemma NoTipIff(refs: Refs, name: string)
    ensures TipFor(refs, name).None? <==> forall k :: 0 <= k < 6 ==> FullNames(name)[k] !in refs
  {
    hide FullNames;
    NamesTried(name);
  }

  /** What a peer without the permission is told: that it may not, or, when it may not even
      read, that there is nothing. */
  function Refused(mayRead: bool): Response {
    if mayRead then Message(1, "Not allowed") else Message(3, "Not found")
  }

  // ---------------------------------------------------------------- before any handler

  /** The request names this repository. */
  predicate AsksFor(req: Request, group: string, repo: string) {
    !req.Repos? && req.repository.Some? && ParseRequestPath(req.repository.value) == Some((group, repo))
  }

  /** Who does not identify itself, names no repository or names it wrongly is told so, and
      nothing happens: code 1, code 2, and code 3, which for a creation is code 2. */
  lemma BadRequests(cfg: Cfg, fs: Fs, peer: Option<Peer>, req: Request, env: Env)
    ensures var (fs', r) := Handle(cfg, fs, peer, req, env);
            && (peer.None? ==> fs' == fs && r == Message(1, "Not identified"))
            && (peer.Some? && !req.Repos? && req.repository.None? ==> fs' == fs && r == Message(2, "Invalid request"))
            && (peer.Some? && !req.Repos? && req.repository.Some? && ParseRequestPath(req.repository.value).None? ==>
                  fs' == fs && r == if req.Create? then Message(2, "Invalid request") else Message(3, "Not found"))
  {
    hide HandleRepos, HandleFetch, HandleList, HandlePush, HandleDelete, HandleCreate, ParseRequestPath;
  }

  // ---------------------------------------------------------------- list

  /** A list answers with exactly the repository's refs to those who may read it, or, for a push,
      write it; a Create-holder's list for a push to a missing repository is empty; everybody
      else gets code 3. */
  lemma ListAnswers(cfg: Cfg, fs: Fs, peer: Peer, group: string, repo: string, req: Request, env: Env)
    requires req.ListRefs? && AsksFor(req, group, repo)
    ensures var (fs', r) := Handle(cfg, fs, Some(peer), req, env);
            var may := ResolvePerm(cfg, fs, peer, group, repo, if req.forPush then Perm.Write else Perm.Read);
            && fs' == fs && (r.RefList? <==> may && env.listOk) &&
              (may && !env.listOk ==> r == Message(255, "Could not list refs"))
            && (r.RefList? ==>
                  group in cfg.repositories && IsDir(fs, RepoPath(cfg, group, repo)) &&
                    r.refs == fs[RepoPath(cfg, group, repo)].refs)
            && (!may ==>
                  r ==
                  if req.forPush && RepoMissing(cfg, fs, group, repo) &&
                    ResolveGroupPerm(cfg, fs, peer, group, Perm.Create)
                  then Message(0, "")
                  else
                    var mayRead := ResolvePerm(cfg, fs, peer, group, repo, Perm.Read);
                    Message(3, if mayRead then "Not allowed" else "Not found"))
  {
    hide ResolvePerm, ResolveGroupPerm, ParseRequestPath, RepoMissing, ResolveRepoAccess;
    var perm := if req.forPush then Perm.Write else Perm.Read;
    if ResolvePerm(cfg, fs, peer, group, repo, perm) { WriteNeedsRepo(cfg, fs, peer, group, repo, perm); }
  }

  // ---------------------------------------------------------------- fetch

  ghost predicate SaneWants(wants: seq<FetchRef>) {
    forall i :: 0 <= i < |wants| ==>
      wants[i].FetchRef? && wants[i].name.Some? && SanRef(wants[i].name.value) &&
      (wants[i].have.Some? ==> SanSha(wants[i].have.value))
  }

  lemma {:induction false} ReadWantsIff(wants: seq<FetchRef>, k: nat)
    requires k <= |wants|
    ensures ReadWants(wants, k).Ok? <==> SaneWants(wants[k..])
    ensures ReadWants(wants, k).Ok? ==>
              var read := ReadWants(wants, k).value;
              |read| == |wants| - k &&
              forall i :: 0 <= i < |read| ==>
                  wants[k + i].FetchRef? && Some(read[i].0) == wants[k + i].name && read[i].1 == wants[k + i].have
    decreases |wants| - k
  {
    hide SanRef, SanSha;
    if k < |wants| {
      ReadWantsIff(wants, k + 1);
      assert wants[k..][0] == wants[k] && wants[k..][1..] == wants[k + 1..];
      assert forall i :: 0 < i < |wants[k..]| ==> wants[k..][i] == wants[k + 1..][i - 1];
      if ReadWants(wants, k).Ok? {
        var read, rest := ReadWants(wants, k).value, ReadWants(wants, k + 1).value;
        forall i | 0 <= i < |read|
          ensures wants[k + i].FetchRef? && Some(read[i].0) == wants[k + i].name && read[i].1 == wants[k + i].have
        {
          if i > 0 { assert read[i] == rest[i - 1] && wants[k + i] == wants[k + 1 + (i - 1)]; }
        }
      }
    }
  }

  /** The client wants a ref that resolves, and has this object of it. */
  predicate HasOf(refs: Refs, w: FetchRef, o: string) {
    && w.FetchRef? && w.name.Some? && TipFor(refs, w.name.value).Some?
    && w.have.Some? && Lower(w.have.value) == o
  }

  /** The client has this object of a wanted ref that resolves, or says that it has it. */
  ghost predicate ClientHas(refs: Refs, wants: seq<FetchRef>, haves: seq<Option<string>>, o: string) {
    || (exists i :: 0 <= i < |wants| && HasOf(refs, wants[i], o))
    || (exists i :: 0 <= i < |haves| && haves[i].Some? && Lower(haves[i].value) == o)
  }

  /** A fetch offers a reader exactly the tips of the wanted refs that resolve, without the held
      objects the client has.  A reader whose request is sound gets a plain OK when nothing
      wanted resolves or git has nothing new; everybody else gets code 3. */
  lemma FetchAnswers(cfg: Cfg, fs: Fs, peer: Peer, group: string, repo: string, req: Request, env: Env)
    requires req.Fetch? && AsksFor(req, group, repo)
    ensures var (fs', r) := Handle(cfg, fs, Some(peer), req, env);
            var may := ResolvePerm(cfg, fs, peer, group, repo, Perm.Read);
            && fs' == fs && (!may ==> r == Message(3, "Not found"))
            && (may ==>
                  var sound := req.wants.Some? && SaneWants(req.wants.value) && HavesAreShas(req.haves);
                  && group in cfg.repositories && IsDir(fs, RepoPath(cfg, group, repo))
                  && (!sound ==> r.Message? && r.code == 2)
                  && (sound ==> Offers(fs[RepoPath(cfg, group, repo)], req.wants.value, req.haves, env, r)))
  {
    hide ResolvePerm, ResolveRepoAccess, ParseRequestPath, OfferBundle, ReadWants, SanRef, SanSha, Offers;
    if ResolvePerm(cfg, fs, peer, group, repo, Perm.Read) {
      WriteNeedsRepo(cfg, fs, peer, group, repo, Perm.Read);
      if req.wants.Some? {
        var wants := req.wants.value;
        assert wants[0..] == wants;
        ReadWantsIff(wants, 0);
        WantsErrors(wants, 0);
        if SaneWants(wants) {
          OfferOf(fs[RepoPath(cfg, group, repo)], wants, ReadWants(wants, 0).value, req.haves, env);
        }
      }
    }
  }

  lemma {:induction false} WantsErrors(wants: seq<FetchRef>, k: nat)
    requires k <= |wants|
    ensures ReadWants(wants, k).Err? ==> ReadWants(wants, k).error.Message? && ReadWants(wants, k).error.code == 2
    decreases |wants| - k
  {
    hide SanRef, SanSha;
    if k < |wants| { WantsErrors(wants, k + 1); }
  }

  ghost predicate Resolves(refs: Refs, wants: seq<FetchRef>, n: string) {
    TipFor(refs, n).Some? && exists i :: 0 <= i < |wants| && wants[i].FetchRef? && wants[i].name == Some(n)
  }

  ghost predicate Offers(dir: Node, wants: seq<FetchRef>, haves: seq<Option<string>>, env: Env, r: Response)
    requires dir.Directory?
  {
    var some := exists n :: Resolves(dir.refs, wants, n);
    && (r.Pack? <==> some && env.offer.Offered?)
    && (r.Pack? ==>
          && (forall n :: n in r.tips <==> Resolves(dir.refs, wants, n))
          && (forall n :: n in r.tips ==> Some(r.tips[n]) == TipFor(dir.refs, n))
          && (forall o :: o in r.without <==> o in dir.objects && ClientHas(dir.refs, wants, haves, o)))
    && (!some || env.offer.NothingNew? ==> r == Message(0, ""))
    && (some && env.offer.OfferFailed? ==> r.Message? && r.code == 255)
  }

  lemma OfferOf(dir: Node, wants: seq<FetchRef>, read: seq<(string, Option<string>)>, haves: seq<Option<string>>,
                env: Env)
    requires dir.Directory? && |read| == |wants|
    requires forall i :: 0 <= i < |read| ==>
               wants[i].FetchRef? && Some(read[i].0) == wants[i].name && read[i].1 == wants[i].have
    ensures Offers(dir, wants, haves, env, OfferBundle(dir, read, haves, env))
  {
    hide TipFor, Lower, Resolves, ClientHas;
    var tips := WantedTips(dir.refs, read);
    forall n ensures n in tips <==> Resolves(dir.refs, wants, n) { WantedIff(dir.refs, wants, read, n); }
    forall o ensures o in Excluded(dir, read, haves) <==> o in dir.objects && ClientHas(dir.refs, wants, haves, o) {
      ExcludedIff(dir, wants, read, haves, o);
    }
    forall n | n in tips ensures Some(tips[n]) == TipFor(dir.refs, n) { TipsAreTips(dir.refs, read, n); }
    if tips != map[] {
      var n :| n in tips;
      assert Resolves(dir.refs, wants, n);
    }
  }

  lemma TipsAreTips(refs: Refs, read: seq<(string, Option<string>)>, n: string)
    ensures n in WantedTips(refs, read) ==> Some(WantedTips(refs, read)[n]) == TipFor(refs, n)
  {
    hide TipFor;
  }

  lemma WantedIff(refs: Refs, wants: seq<FetchRef>, read: seq<(string, Option<string>)>, n: string)
    requires |read| == |wants|
    requires forall i :: 0 <= i < |read| ==>
               wants[i].FetchRef? && Some(read[i].0) == wants[i].name && read[i].1 == wants[i].have
    ensures n in WantedTips(refs, read) <==> Resolves(refs, wants, n)
  {
    hide TipFor;
    if Resolves(refs, wants, n) {
      var i :| 0 <= i < |wants| && wants[i].FetchRef? && wants[i].name == Some(n);
      assert read[i] in read && read[i].0 == n;
    }
  }

  lemma ExcludedIff(dir: Node, wants: seq<FetchRef>, read: seq<(string, Option<string>)>, haves: seq<Option<string>>,
                    o: string)
    requires dir.Directory? && |read| == |wants|
    requires forall i :: 0 <= i < |read| ==>
               wants[i].FetchRef? && Some(read[i].0) == wants[i].name && read[i].1 == wants[i].have
    ensures o in Excluded(dir, read, haves) <==> o in dir.objects && ClientHas(dir.refs, wants, haves, o)
  {
    hide TipFor, Lower;
    if o in dir.objects && ClientHas(dir.refs, wants, haves, o) {
      if i :| 0 <= i < |wants| && HasOf(dir.refs, wants[i], o) {
        assert read[i] in read;
      } else {
        var i :| 0 <= i < |haves| && haves[i].Some? && Lower(haves[i].value) == o;
        assert haves[i] in haves;
      }
    }
  }

  // ---------------------------------------------------------------- repos

  /** A listing names exactly the bare repositories in the directories of the groups asked for
      that the peer may read; a group that is not configured gets code 3. */
  lemma ReposAnswers(cfg: Cfg, fs: Fs, peer: Peer, filter: Option<string>, env: Env)
    ensures var (fs', r) := Handle(cfg, fs, Some(peer), Repos(filter), env);
            var every := filter.None? || filter.value == "";
            && fs' == fs
            && (!every && filter.value !in cfg.repositories ==> r == Message(3, "Not found"))
            && (every || filter.value in cfg.repositories ==>
                  r.Listing? && forall n :: n in r.names <==>
                      exists group, repo :: ListedAs(cfg, fs, peer, group, repo, n) &&
                                                                                  (every || group == filter.value))
  {
    hide ResolvePerm;
    var every := filter.None? || filter.value == "";
    if every || filter.value in cfg.repositories {
      var groups := if every then cfg.repositories.Keys else {filter.value};
      forall n
        ensures n in ReadableNames(cfg, fs, peer, groups) <==>
                exists group, repo :: ListedAs(cfg, fs, peer, group, repo, n) && group in groups
      {
        NamesIff(cfg, fs, peer, groups, n);
      }
    }
  }

  /** A bare repository of the group that the peer may read, and the name it is listed under. */
  ghost predicate ListedAs(cfg: Cfg, fs: Fs, peer: Peer, group: string, repo: string, n: string) {
    && group in cfg.repositories && IsDir(fs, cfg.repositories[group])
    && IsDir(fs, RepoPath(cfg, group, repo)) && fs[RepoPath(cfg, group, repo)].bare
    && ResolvePerm(cfg, fs, peer, group, repo, Perm.Read) && n == group + "/" + repo
  }

  lemma NamesIff(cfg: Cfg, fs: Fs, peer: Peer, groups: set<string>, n: string)
    ensures n in ReadableNames(cfg, fs, peer, groups) <==>
            exists group, repo :: ListedAs(cfg, fs, peer, group, repo, n) && group in groups
  {
    hide ResolvePerm;
    if n in ReadableNames(cfg, fs, peer, groups) {
      var group :| group in groups && n in NamesIn(cfg, fs, peer, group);
      var p: Path :| p in fs && Readable(cfg, fs, peer, group, p) && n == group + "/" + Base(p);
      assert group in cfg.repositories;
      assert RepoPath(cfg, group, Base(p)) == p;
      assert ListedAs(cfg, fs, peer, group, Base(p), n);
    }
    if group, repo :| ListedAs(cfg, fs, peer, group, repo, n) && group in groups {
      var p := RepoPath(cfg, group, repo);
      assert p[..|p| - 1] == cfg.repositories[group] && Base(p) == repo;
      assert Readable(cfg, fs, peer, group, p) && n in NamesIn(cfg, fs, peer, group);
    }
  }

  // ---------------------------------------------------------------- delete

  /** After a deletion the one ref is gone; every other ref, and every object and path, is as it was. */
  ghost predicate OnlyRefGone(fs: Fs, fs': Fs, p: Path, name: string) {
    && IsDir(fs, p) && IsDir(fs', p) && fs'.Keys == fs.Keys
    && (forall q :: q in fs && q != p ==> fs'[q] == fs[q])
    && fs'[p].objects == fs[p].objects && fs'[p].bare == fs[p].bare
    && (forall n :: n in fs'[p].refs <==> n in fs[p].refs && n != name)
    && (forall n :: n in fs'[p].refs ==> fs'[p].refs[n] == fs[p].refs[n])
  }

  /** A deletion succeeds exactly for a writer that names, properly and in full, a ref that
      stands for something, git permitting; it then removes that ref and nothing else.  Any
      other answer leaves everything as it was: code 1 or 3 for who may not write, as the
      peer may read or not, 2 for a bad name, 3 for a missing ref and 255 when git fails. */
  lemma DeleteAnswers(cfg: Cfg, fs: Fs, peer: Peer, group: string, repo: string, req: Request, env: Env)
    requires req.Delete? && AsksFor(req, group, repo)
    ensures var (fs', r) := Handle(cfg, fs, Some(peer), req, env);
            var may := ResolvePerm(cfg, fs, peer, group, repo, Perm.Write);
            && r.Message? && (!IsOk(r) ==> fs' == fs)
            && (!may ==> r == Refused(ResolvePerm(cfg, fs, peer, group, repo, Perm.Read)))
            && (may ==>
                  && group in cfg.repositories && IsDir(fs, RepoPath(cfg, group, repo))
                  && var p := RepoPath(cfg, group, repo);
                     var named := req.name.Some? && SanRef(req.name.value) && "refs/" <= req.name.value;
                     && (!named ==> r == Message(2, "Invalid request"))
                     && (named && TipFor(fs[p].refs, req.name.value).None? ==> r == Message(3, "Not found"))
                     && (named && TipFor(fs[p].refs, req.name.value).Some? && !env.deleteOk ==>
                         r == Message(255, "Could not delete ref"))
                     && (named && TipFor(fs[p].refs, req.name.value).Some? && env.deleteOk ==>
                           r == Message(0, "") && OnlyRefGone(fs, fs', p, req.name.value)))
  {
    hide ResolvePerm, ResolveRepoAccess, ParseRequestPath, SanRef, TipFor;
    if ResolvePerm(cfg, fs, peer, group, repo, Perm.Write) { WriteNeedsRepo(cfg, fs, peer, group, repo, Perm.Write); }
  }

  // ---------------------------------------------------------------- create

  /** Only the new repository, empty, and its access file are added. */
  ghost predicate OnlyRepoMade(fs: Fs, fs': Fs, p: Path, creator: Peer) {
    && p !in fs && !IsDir(fs, AclPath(p)) && AclPath(p) != p
    && fs'.Keys == fs.Keys + {p, AclPath(p)}
    && fs'[p] == Directory(true, map[], {}) && fs'[AclPath(p)] == File(Some("adm:" + HexEncode(creator) + "\n"))
    && forall q :: q in fs && q != AclPath(p) ==> fs'[q] == fs[q]
  }

  lemma CreatedAlone(cfg: Cfg, fs: Fs, peer: Peer, group: string, repo: string, env: Env)
    requires group in cfg.repositories && IsPlainComponent(repo)
    ensures var p, made := RepoPath(cfg, group, repo),
            Repositories.CreateRepository(fs, cfg.repositories[group], repo, peer, env);
            && (made.Some? <==> p !in fs && env.initOk && env.aclWriteOk && !IsDir(fs, AclPath(p)))
            && (made.Some? ==> OnlyRepoMade(fs, made.value, p, peer))
  {
    hide HexEncode;
    AclPathDiffers(RepoPath(cfg, group, repo));
  }

  /** A creation succeeds exactly for a Create-holder of an existing group, where nothing is yet,
      the system permitting; it adds the repository and its access file and nothing else.  Any
      other answer leaves everything as it was: code 1 or 3, as the peer may read or not, for
      who may not create and for what exists, and 255 for a failure. */
  lemma CreateAnswers(cfg: Cfg, fs: Fs, peer: Peer, group: string, repo: string, req: Request, env: Env)
    requires req.Create? && AsksFor(req, group, repo)
    ensures var (fs', r) := Handle(cfg, fs, Some(peer), req, env);
            var may := ResolveGroupPerm(cfg, fs, peer, group, Perm.Create);
            && r.Message? && (!IsOk(r) ==> fs' == fs)
            && (!may ==> r == Refused(ResolveGroupPerm(cfg, fs, peer, group, Perm.Read)))
            && (may ==>
                  && group in cfg.repositories
                  && var p := RepoPath(cfg, group, repo);
                     && (p in fs ==>
                           r == if ResolvePerm(cfg, fs, peer, group, repo, Perm.Read)
                                then Message(1, "Repository already exists") else Message(3, "Not found"))
                     && (p !in fs ==> (IsOk(r) <==> env.initOk && env.aclWriteOk && !IsDir(fs, AclPath(p))))
                     && (p !in fs && !IsOk(r) ==> r == Message(255, "Could not initialize repository"))
                     && (IsOk(r) ==> OnlyRepoMade(fs, fs', p, peer)))
  {
    hide ResolvePerm, ParseRequestPath, Repositories.CreateRepository, IsPlainComponent, OnlyRepoMade, ResolveGroupPerm;
    PathParts(req.repository.value);
    MayInGroup(cfg, fs, peer, group, Perm.Create);
    MayInGroup(cfg, fs, peer, group, Perm.Read);
    if group in cfg.repositories { CreatedAlone(cfg, fs, peer, group, repo, env); }
  }

  lemma MayInGroup(cfg: Cfg, fs: Fs, peer: Peer, group: string, perm: Perm)
    ensures ResolveGroupPerm(cfg, fs, peer, group, perm) ==>
              group in cfg.repositories && IsDir(fs, cfg.repositories[group])
  {
  }

  // ---------------------------------------------------------------- push

  /** Who may push, and into what: a writer into the repository as it is; else a Create-holder
      into a repository that is missing and can be made, which then is empty. */
  lemma PushAuthorizedIff(cfg: Cfg, fs: Fs, peer: Peer, group: string, repo: string, env: Env)
    requires IsPlainComponent(repo)
    ensures var a := AuthorizePush(cfg, fs, peer, group, repo, env);
            var may := ResolvePerm(cfg, fs, peer, group, repo, Perm.Write);
            var makes := !may && RepoMissing(cfg, fs, group, repo) &&
              ResolveGroupPerm(cfg, fs, peer, group, Perm.Create) &&
                         env.initOk && env.aclWriteOk && !Obstructed(cfg, fs, group, repo);
            && (a.Ok? <==> may || makes)
            && (may || makes ==> group in cfg.repositories && a.value.1 == RepoPath(cfg, group, repo))
            && (may ==> a.value.0 == fs && IsDir(fs, a.value.1))
            && (makes ==> OnlyRepoMade(fs, a.value.0, a.value.1, peer))
            && (a.Err? ==> a.error == Refused(ResolvePerm(cfg, fs, peer, group, repo, Perm.Read)))
  {
    hide ResolvePerm, ResolveGroupPerm, Repositories.CreateRepository, ResolveRepoAccess, IsPlainComponent,
      OnlyRepoMade;
    if ResolvePerm(cfg, fs, peer, group, repo, Perm.Write) {
      WriteNeedsRepo(cfg, fs, peer, group, repo, Perm.Write);
    } else if RepoMissing(cfg, fs, group, repo) {
      CreatedResolves(cfg, fs, peer, group, repo, env);
      CreatedAlone(cfg, fs, peer, group, repo, env);
    }
  }

  /** A push that is not authorized changes nothing; one that is changes at most its repository,
      into what the bundle or the operations make of it, and is answered accordingly: code 2 for
      a request without either, or with missing or improper names, 255 for a bundle git refuses. */
  lemma PushAnswers(cfg: Cfg, fs: Fs, peer: Peer, group: string, repo: string, req: Request, env: Env)
    requires req.Push? && AsksFor(req, group, repo)
    ensures var (fs', r) := Handle(cfg, fs, Some(peer), req, env);
            var a := AuthorizePush(cfg, fs, peer, group, repo, env);
            && (a.Err? ==> fs' == fs && r == a.error)
            && (a.Ok? ==>
                  var (fs1, p) := a.value;
                  && IsDir(fs1, p) && fs'.Keys == fs1.Keys && (forall q :: q in fs1 && q != p ==> fs'[q] == fs1[q])
                  && (fs'[p], r) == ApplyPush(fs1[p], req, env))
  {
    hide ResolvePerm, ResolveGroupPerm, Repositories.CreateRepository, ResolveRepoAccess, IsPlainComponent,
      ParseRequestPath,
         OnlyRepoMade, ApplyPush, AuthorizePush;
    PathParts(req.repository.value);
    PushAuthorizedIff(cfg, fs, peer, group, repo, env);
    var a := AuthorizePush(cfg, fs, peer, group, repo, env);
    assert a.Ok? ==> IsDir(a.value.0, a.value.1) by { if a.Ok? { MadeIsDir(fs, a.value.0, a.value.1, peer); } }
  }

  lemma MadeIsDir(fs: Fs, fs1: Fs, p: Path, peer: Peer)
    ensures OnlyRepoMade(fs, fs1, p, peer) ==> IsDir(fs1, p)
  {
  }

  lemma BundleAnswers(dir: Node, req: Request, env: Env)
    requires dir.Directory? && req.Push?
    ensures var (dir', r) := ApplyPush(dir, req, env);
            && r.Message?
            && (req.bundle.Some? ==>
                  var named := req.local.Some? && req.remote.Some? && SanRef(req.local.value) &&
                    SanRef(req.remote.value);
                  && (!named ==> dir' == dir && r.code == 2)
                  && (named ==>
                        var bundle, local, remote := req.bundle.value, req.local.value, req.remote.value;
                        var f := ApplyPushBundle(dir, bundle, local, remote, req.force, env);
                        dir' == f.dir && r == if f.ok then Message(0, "") else Message(255, "Could not verify bundle")))
            && (req.bundle.None? && req.operations.None? ==> dir' == dir && r.code == 2)
  {
    hide SanRef, ApplyPushBundle, ApplyOps;
    if req.bundle.None? && req.operations.Some? { OpsAnswer(dir, req.operations.value, 0, env); }
  }

  lemma {:induction false} OpsAnswer(dir: Node, ops: seq<Op>, k: nat, env: Env)
    requires dir.Directory? && k <= |ops|
    ensures ApplyOps(dir, ops, k, env).1.Message? && ApplyOps(dir, ops, k, env).1.code in {0, 2, 255}
    decreases |ops| - k
  {
    hide SanRef, SanSha, UpdateRef;
    if k < |ops| && ops[k].Op? && ops[k].name.Some? && ops[k].sha.Some? {
      var op := ops[k];
      var dir1 := UpdateRef(dir, op.name.value, op.sha.value, op.force, env.updateOk(k), env.history);
      UpdateRefDir(dir, op.name.value, op.sha.value, op.force, env.updateOk(k), env.history);
      if dir1.Some? { OpsAnswer(dir1.value, ops, k + 1, env); }
    }
  }

  // ---------------------------------------------------------------- ref operations

  /** An update succeeds exactly for a proper full name, an object that is there and that the
      name may hold, when the name stands for nothing yet, for that very text, or force is on;
      it then sets that one ref, to the object's name as git writes it. */
  lemma UpdateRefIff(dir: Node, name: string, sha: string, force: bool, ok: bool, history: History)
    requires dir.Directory?
    ensures var r, object' := UpdateRef(dir, name, sha, force, ok, history), Lower(sha);
            && (r.Some? <==>
                  && SanRef(name) && "refs/" <= name && SanSha(sha) && object' in dir.objects && ok
                  && ("refs/heads/" <= name ==> history.kind(object') == Commit)
                  && (force || TipFor(dir.refs, name) in {None, Some(sha)}))
            && (r.Some? ==>
                  && r.value.Directory? && r.value.objects == dir.objects && r.value.bare == dir.bare
                  && (forall n :: n in r.value.refs <==> n in dir.refs || n == name)
                  && (forall n :: n in r.value.refs ==> r.value.refs[n] == if n == name then object' else dir.refs[n]))
  {
    hide SanRef, SanSha, TipFor;
  }

  /** The operation is an update that its repository accepts. */
  predicate OpAccepted(dir: Node, op: Op, ok: bool, history: History)
    requires dir.Directory?
  {
    && op.Op? && op.action == "update_ref" && op.name.Some? && op.sha.Some?
    && UpdateRef(dir, op.name.value, op.sha.value, op.force, ok, history).Some?
  }

  /** An update, whether or not the repository accepts it. */
  predicate OpWellFormed(op: Op) {
    && op.Op? && op.action == "update_ref" && op.name.Some? && SanRef(op.name.value) && "refs/" <= op.name.value
    && op.sha.Some? && SanSha(op.sha.value)
  }

  /** The answer to the operations from the `k`-th on: OK when there is none; code 2 when the
      `k`-th is no proper update and 255 when it is not accepted, nothing more being done;
      otherwise that to the rest, on what it makes of the repository. */
  lemma OpsOkStep(dir: Node, ops: seq<Op>, k: nat, env: Env)
    requires dir.Directory? && k <= |ops|
    ensures var r := ApplyOps(dir, ops, k, env);
            && (k == |ops| ==> r == (dir, Message(0, "")))
            && (k < |ops| && !OpWellFormed(ops[k]) ==> r.0 == dir && r.1.Message? && r.1.code == 2)
            && (k < |ops| && OpWellFormed(ops[k]) && !OpAccepted(dir, ops[k], env.updateOk(k), env.history) ==>
                  r.0 == dir && r.1.Message? && r.1.code == 255)
            && (k < |ops| && OpAccepted(dir, ops[k], env.updateOk(k), env.history) ==>
                  var op := ops[k];
                  var dir1 := UpdateRef(dir, op.name.value, op.sha.value, op.force, env.updateOk(k), env.history).value;
                  dir1.Directory? && r == ApplyOps(dir1, ops, k + 1, env))
  {
    hide SanRef, SanSha, TipFor;
  }
}
