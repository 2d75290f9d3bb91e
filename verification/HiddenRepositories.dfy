/**
  What a peer can tell about a repository that is hidden from it: the answers over whole
  runs, compared with those of a server on which the repository was never made.
 */
module HiddenRepositories {
  import opened Wrappers
  import opened Acl
  import opened Repositories
  import opened GitServer
  import opened GitServerRuns

  /** The filesystem without the repository at `p` and its access file. */
  function Unmade(fs: Fs, p: Path): Fs {
    map q | q in fs && q != p && !(q == AclPath(p) && fs[q].File?) :: fs[q]
  }

  /** `p` stands in this group's directory. */
  predicate InGroup(cfg: Cfg, h: string, p: Path) {
    h in cfg.repositories && |p| > 1 && p[..|p| - 1] == cfg.repositories[h]
  }

  /** `p` is no group's own directory, and its parent is one that exists. */
  ghost predicate PlainRepository(cfg: Cfg, fs: Fs, p: Path, group: string) {
    && InGroup(cfg, group, p) && IsDir(fs, cfg.repositories[group])
    && forall h :: h in cfg.repositories ==> cfg.repositories[h] != p
  }

  /** Through no group may the peer read or write the repository at `p`. */
  ghost predicate HiddenFrom(cfg: Cfg, fs: Fs, peer: Peer, p: Path) {
    IsDir(fs, p) &&
    forall h: string :: InGroup(cfg, h, p) ==>
      !ResolvePerm(cfg, fs, peer, h, Base(p), Perm.Read) && !ResolvePerm(cfg, fs, peer, h, Base(p), Perm.Write)
  }

  ghost predicate MayNotCreateBeside(cfg: Cfg, fs: Fs, peer: Peer, p: Path) {
    forall h: string :: Holds(cfg, h, p) ==> !ResolveGroupPerm(cfg, fs, peer, h, Perm.Create)
  }

  /** The server's answers to the requests of a run. */
  function Answers(cfg: Cfg, fs: Fs, calls: seq<Call>): seq<Response> {
    if calls == [] then []
    else
      var before, c := calls[..|calls| - 1], calls[|calls| - 1];
      Answers(cfg, fs, before) + [Handle(cfg, After(cfg, fs, before), c.peer, c.req, c.env).1]
  }

  // ---------------------------------------------------------------- what stays the same

  lemma GroupsAlike(cfg: Cfg, fs: Fs, p: Path, h: string)
    requires IsDir(fs, p) && (h in cfg.repositories ==> cfg.repositories[h] != p)
    ensures SameGroup(cfg, fs, Unmade(fs, p), h)
  {
    if h in cfg.repositories { ReposAlike(fs, p, cfg.repositories[h]); }
  }

  lemma ReposAlike(fs: Fs, p: Path, q: Path)
    requires IsDir(fs, p) && q != p
    ensures var fs' := Unmade(fs, p);
            && (IsDir(fs', q) <==> IsDir(fs, q)) && (IsDir(fs, q) ==> fs'[q] == fs[q])
            && ReadText(fs', AclPath(q)) == ReadText(fs, AclPath(q))
  {
    if AclPath(q) == AclPath(p) { AclPathInjective(q, p); }
  }

  lemma AccessAlike(cfg: Cfg, fs: Fs, p: Path, group: string, h: string, r: string)
    requires PlainRepository(cfg, fs, p, group) && IsDir(fs, p)
    ensures SameGroup(cfg, fs, Unmade(fs, p), h)
    ensures h in cfg.repositories && RepoPath(cfg, h, r) != p ==>
              ResolveRepoAccess(cfg, Unmade(fs, p), h, r) == ResolveRepoAccess(cfg, fs, h, r)
    ensures h in cfg.repositories && RepoPath(cfg, h, r) == p ==> ResolveRepoAccess(cfg, Unmade(fs, p), h, r).None?
  {
    hide Unmade, ListsOf, GroupInput, AclPath;
    GroupsAlike(cfg, fs, p, h);
    if h in cfg.repositories && RepoPath(cfg, h, r) != p { ReposAlike(fs, p, RepoPath(cfg, h, r)); }
    Gone(fs, p);
  }

  lemma Gone(fs: Fs, p: Path)
    ensures p !in Unmade(fs, p)
  {
  }

  /** All that the handlers ask about a repository the peer may name: the same in both worlds. */
  ghost predicate Alike(cfg: Cfg, fs: Fs, fs': Fs, peer: Peer, h: string, r: string) {
    && (forall perm: Perm :: ResolveGroupPerm(cfg, fs', peer, h, perm) == ResolveGroupPerm(cfg, fs, peer, h, perm))
    && ResolvePerm(cfg, fs', peer, h, r, Perm.Read) == ResolvePerm(cfg, fs, peer, h, r, Perm.Read)
    && ResolvePerm(cfg, fs', peer, h, r, Perm.Write) == ResolvePerm(cfg, fs, peer, h, r, Perm.Write)
    && (ResolvePerm(cfg, fs, peer, h, r, Perm.Read) || ResolvePerm(cfg, fs, peer, h, r, Perm.Write) ==>
          ResolveRepoAccess(cfg, fs', h, r) == ResolveRepoAccess(cfg, fs, h, r))
    && (ResolveGroupPerm(cfg, fs, peer, h, Perm.Create) ==> RepoMissing(cfg, fs', h, r) == RepoMissing(cfg, fs, h, r))
  }

  lemma AllAlike(cfg: Cfg, fs: Fs, peer: Peer, p: Path, group: string, h: string, r: string)
    requires PlainRepository(cfg, fs, p, group)
    requires HiddenFrom(cfg, fs, peer, p) && MayNotCreateBeside(cfg, fs, peer, p)
    requires IsPlainComponent(h) && |h| <= NAME_MAX && IsPlainComponent(r)
    ensures Alike(cfg, fs, Unmade(fs, p), peer, h, r)
  {
    hide GroupAccess, RepoAccess, ResolvePermission, ResolveGroupPermission, Blocked, IsPlainComponent;
    var fs' := Unmade(fs, p);
    AccessAlike(cfg, fs, p, group, h, r);
    forall perm: Perm ensures ResolveGroupPerm(cfg, fs', peer, h, perm) == ResolveGroupPerm(cfg, fs, peer, h, perm) {
      SameGroupDecides(cfg, fs, fs', h, peer, perm);
    }
    if h in cfg.repositories {
      SameGroupDecides(cfg, fs, fs', h, peer, Perm.Read);
      var q := RepoPath(cfg, h, r);
      assert q[..|q| - 1] == cfg.repositories[h] && Base(q) == r;
      if q == p { assert Holds(cfg, h, p); }
      AclPathFront(p);
      if q == AclPath(p) { assert Holds(cfg, h, p); }
    }
  }

  // ---------------------------------------------------------------- one request

  /** What a handler did in each of the two worlds. */
  ghost predicate SameStep(p: Path, made: (Fs, Response), unmade: (Fs, Response)) {
    made.1 == unmade.1 && unmade.0 == Unmade(made.0, p)
  }

  lemma UpdateUnmade(fs: Fs, p: Path, q: Path, dir: Node)
    requires q != p && IsDir(fs, q) && dir.Directory?
    ensures Unmade(fs, p)[q := dir] == Unmade(fs[q := dir], p) && IsDir(Unmade(fs, p), q) && Unmade(fs, p)[q] == fs[q]
  {
  }

  lemma CreateUnmade(fs: Fs, p: Path, g: Path, r: string, creator: Peer, env: Env)
    requires |p| > 1 && p[..|p| - 1] != g
    ensures var made := Repositories.CreateRepository(fs, g, r, creator, env);
            Repositories.CreateRepository(Unmade(fs, p), g, r, creator, env) ==
            if made.Some? then Some(Unmade(made.value, p)) else None
  {
    hide IsPlainComponent, Acl.CreatorAcl;
    var q: Path := g + [r];
    assert q[..|q| - 1] == g;
    AclPathFront(p);
    AclPathFront(q);
    var fs' := Unmade(fs, p);
    assert q != p && q != AclPath(p) && AclPath(q) != p && AclPath(q) != AclPath(p);
    var acl := File(Some(CreatorAcl(creator)));
    var made: Fs, unmade: Fs := fs[q := EMPTY_REPOSITORY], fs'[q := EMPTY_REPOSITORY];
    assert Unmade(made[AclPath(q) := acl], p) == unmade[AclPath(q) := acl];
  }

  lemma ListUnmade(cfg: Cfg, fs: Fs, peer: Peer, p: Path, h: string, r: string, forPush: bool, env: Env)
    requires Alike(cfg, fs, Unmade(fs, p), peer, h, r) && IsDir(fs, p)
    ensures HandleList(cfg, Unmade(fs, p), peer, h, r, forPush, env) == HandleList(cfg, fs, peer, h, r, forPush, env)
  {
    hide ResolvePerm, ResolveGroupPerm, RepoMissing;
    AccessIsDir(cfg, fs, h, r);
    AccessIsDir(cfg, Unmade(fs, p), h, r);
  }

  lemma FetchUnmade(cfg: Cfg, fs: Fs, peer: Peer, p: Path, h: string, r: string, req: Request, env: Env)
    requires req.Fetch? && Alike(cfg, fs, Unmade(fs, p), peer, h, r) && IsDir(fs, p)
    ensures HandleFetch(cfg, Unmade(fs, p), peer, h, r, req, env) == HandleFetch(cfg, fs, peer, h, r, req, env)
  {
    hide ResolvePerm, ResolveGroupPerm, RepoMissing, ReadWants, HavesAreShas, OfferBundle;
    AccessIsDir(cfg, fs, h, r);
    AccessIsDir(cfg, Unmade(fs, p), h, r);
  }

  lemma ReadableAlike(cfg: Cfg, fs: Fs, peer: Peer, p: Path, group: string, h: string, q: Path)
    requires PlainRepository(cfg, fs, p, group) && HiddenFrom(cfg, fs, peer, p)
    ensures Readable(cfg, Unmade(fs, p), peer, h, q) == Readable(cfg, fs, peer, h, q)
  {
    hide Unmade, GroupAccess, RepoAccess, ResolvePermission, Blocked, IsPlainComponent;
    Gone(fs, p);
    if q != p {
      ReposAlike(fs, p, q);
      if InGroup(cfg, h, q) {
        AccessAlike(cfg, fs, p, group, h, Base(q));
        assert RepoPath(cfg, h, Base(q)) == q;
      }
    }
  }

  lemma ReposUnmade(cfg: Cfg, fs: Fs, peer: Peer, p: Path, group: string, filter: Option<string>)
    requires PlainRepository(cfg, fs, p, group) && HiddenFrom(cfg, fs, peer, p)
    ensures HandleRepos(cfg, Unmade(fs, p), peer, filter) == HandleRepos(cfg, fs, peer, filter)
  {
    hide Unmade, Readable, HiddenFrom, PlainRepository;
    forall h: string ensures NamesIn(cfg, Unmade(fs, p), peer, h) == NamesIn(cfg, fs, peer, h) {
      forall q: Path ensures Readable(cfg, Unmade(fs, p), peer, h, q) == Readable(cfg, fs, peer, h, q)
      {
        ReadableAlike(cfg, fs, peer, p, group, h, q);
      }
      SameNames(cfg, fs, Unmade(fs, p), peer, h);
    }
  }

  lemma SameNames(cfg: Cfg, fs: Fs, fs': Fs, peer: Peer, h: string)
    requires forall q: Path :: Readable(cfg, fs', peer, h, q) == Readable(cfg, fs, peer, h, q)
    ensures NamesIn(cfg, fs', peer, h) == NamesIn(cfg, fs, peer, h)
  {
    hide Readable;
    ReadableIsThere(cfg, fs, peer, h);
    ReadableIsThere(cfg, fs', peer, h);
  }

  lemma ReadableIsThere(cfg: Cfg, fs: Fs, peer: Peer, h: string)
    ensures forall q: Path :: Readable(cfg, fs, peer, h, q) ==> q in fs
  {
  }

  lemma DeleteUnmade(cfg: Cfg, fs: Fs, peer: Peer, p: Path, h: string, r: string, name: Option<string>, env: Env)
    requires Alike(cfg, fs, Unmade(fs, p), peer, h, r) && IsDir(fs, p)
    ensures SameStep(p, HandleDelete(cfg, fs, peer, h, r, name, env),
            HandleDelete(cfg, Unmade(fs, p), peer, h, r, name, env))
  {
    hide ResolvePerm, RepoMissing, SanRef, Unmade, ResolveGroupPerm, ResolveRepoAccess;
    AccessIsDir(cfg, fs, h, r);
    AccessIsDir(cfg, Unmade(fs, p), h, r);
    Gone(fs, p);
    if ResolvePerm(cfg, fs, peer, h, r, Perm.Write) && ResolveRepoAccess(cfg, fs, h, r).Some? {
      var q := ResolveRepoAccess(cfg, fs, h, r).value.path;
      var done := HandleDelete(cfg, fs, peer, h, r, name, env).0;
      UpdateUnmade(fs, p, q, done[q]);
    }
  }

  /** A Create-holder of this group creates elsewhere: the hidden repository is not in its directory. */
  predicate Elsewhere(cfg: Cfg, fs: Fs, peer: Peer, p: Path, h: string) {
    |p| > 1 && (ResolveGroupPerm(cfg, fs, peer, h, Perm.Create) ==>
        h in cfg.repositories && p[..|p| - 1] != cfg.repositories[h])
  }

  lemma PushUnmade(cfg: Cfg, fs: Fs, peer: Peer, p: Path, h: string, r: string, req: Request, env: Env)
    requires req.Push? && Alike(cfg, fs, Unmade(fs, p), peer, h, r) && IsDir(fs, p) && Elsewhere(cfg, fs, peer, p, h)
    ensures SameStep(p, HandlePush(cfg, fs, peer, h, r, req, env), HandlePush(cfg, Unmade(fs, p), peer, h, r, req, env))
  {
    hide ResolvePerm, RepoMissing, Unmade, ResolveGroupPerm, ResolveRepoAccess, ApplyPush,
      Repositories.CreateRepository;
    var fs' := Unmade(fs, p);
    Gone(fs, p);
    if ResolvePerm(cfg, fs, peer, h, r, Perm.Write) {
      AccessIsDir(cfg, fs, h, r);
      AccessIsDir(cfg, fs', h, r);
      if ResolveRepoAccess(cfg, fs, h, r).Some? {
        var q := ResolveRepoAccess(cfg, fs, h, r).value.path;
        UpdateUnmade(fs, p, q, ApplyPush(fs[q], req, env).0);
      }
    } else if RepoMissing(cfg, fs, h, r) && ResolveGroupPerm(cfg, fs, peer, h, Perm.Create) {
      var g := cfg.repositories[h];
      CreateUnmade(fs, p, g, r, peer, env);
      CreatedResolves(cfg, fs, peer, h, r, env);
      CreatedResolves(cfg, fs', peer, h, r, env);
      var made := Repositories.CreateRepository(fs, g, r, peer, env);
      if made.Some? {
        var q := g + [r];
        CreateShape(cfg, fs, peer, h, r, env);
        assert q[..|q| - 1] == g;
        UpdateUnmade(made.value, p, q, ApplyPush(made.value[q], req, env).0);
      }
    }
  }

  lemma CreateRequestUnmade(cfg: Cfg, fs: Fs, peer: Peer, p: Path, h: string, r: string, env: Env)
    requires Alike(cfg, fs, Unmade(fs, p), peer, h, r) && IsDir(fs, p) && Elsewhere(cfg, fs, peer, p, h)
    requires h in cfg.repositories ==> (IsDir(Unmade(fs, p), cfg.repositories[h]) <==> IsDir(fs, cfg.repositories[h]))
    ensures SameStep(p, HandleCreate(cfg, fs, peer, h, r, env), HandleCreate(cfg, Unmade(fs, p), peer, h, r, env))
  {
    hide ResolvePerm, Unmade, ResolveGroupPerm, ResolveRepoAccess, Repositories.CreateRepository;
    if ResolveGroupPerm(cfg, fs, peer, h, Perm.Create) {
      CreateUnmade(fs, p, cfg.repositories[h], r, peer, env);
    }
  }

  /** One request of the peer: the same answer in both worlds, and the same change. */
  lemma StepUnmade(cfg: Cfg, fs: Fs, peer: Peer, p: Path, group: string, req: Request, env: Env)
    requires PlainRepository(cfg, fs, p, group)
    requires HiddenFrom(cfg, fs, peer, p) && MayNotCreateBeside(cfg, fs, peer, p)
    ensures SameStep(p, Handle(cfg, fs, Some(peer), req, env), Handle(cfg, Unmade(fs, p), Some(peer), req, env))
  {
    hide HandleRepos, HandleFetch, HandleList, HandlePush, HandleDelete, HandleCreate, ParseRequestPath, Alike, Unmade,
      ResolvePerm, ResolveGroupPerm, IsPlainComponent;
    if req.Repos? {
      ReposUnmade(cfg, fs, peer, p, group, req.filter);
    } else if req.repository.Some? && ParseRequestPath(req.repository.value).Some? {
      var (h, r) := ParseRequestPath(req.repository.value).value;
      PathParts(req.repository.value);
      AllAlike(cfg, fs, peer, p, group, h, r);
      GroupsAlike(cfg, fs, p, h);
      HeldGroupExists(cfg, fs, peer, h);
      assert Elsewhere(cfg, fs, peer, p, h) by {
        assert Holds(cfg, h, p) ==> !ResolveGroupPerm(cfg, fs, peer, h, Perm.Create);
      }
      if req.Fetch? { FetchUnmade(cfg, fs, peer, p, h, r, req, env); }
      if req.ListRefs? { ListUnmade(cfg, fs, peer, p, h, r, req.forPush, env); }
      if req.Push? { PushUnmade(cfg, fs, peer, p, h, r, req, env); }
      if req.Delete? { DeleteUnmade(cfg, fs, peer, p, h, r, req.name, env); }
      if req.Create? { CreateRequestUnmade(cfg, fs, peer, p, h, r, env); }
    }
  }

  // ---------------------------------------------------------------- whole runs

  ghost predicate AllBy(peer: Peer, calls: seq<Call>) {
    forall i :: 0 <= i < |calls| ==> calls[i].peer == Some(peer)
  }

  lemma StaysHidden(cfg: Cfg, fs: Fs, c: Call, peer: Peer, p: Path, group: string)
    requires PlainRepository(cfg, fs, p, group) && HiddenFrom(cfg, fs, peer, p) && MayNotCreateBeside(cfg, fs, peer, p)
    ensures var fs' := Handle(cfg, fs, c.peer, c.req, c.env).0;
            PlainRepository(cfg, fs', p, group) && HiddenFrom(cfg, fs', peer, p) &&
              MayNotCreateBeside(cfg, fs', peer, p)
  {
    hide Handle, IsPlainComponent, ResolveGroupPerm, ResolvePerm, CreatableBy, ListsOf, RepoAccess;
    var fs' := Handle(cfg, fs, c.peer, c.req, c.env).0;
    StepGoverned(cfg, fs, c, p);
    StepKeepsKeys(cfg, fs, c);
    forall h: string | InGroup(cfg, h, p) ensures SameGroup(cfg, fs, fs', h) {
      assert cfg.repositories[h] in fs;
      StepKeepsGroup(cfg, fs, c, h);
    }
    forall h: string | InGroup(cfg, h, p)
      ensures !ResolvePerm(cfg, fs', peer, h, Base(p), Perm.Read) &&
              !ResolvePerm(cfg, fs', peer, h, Base(p), Perm.Write)
      ensures ResolveGroupPerm(cfg, fs', peer, h, Perm.Create) == ResolveGroupPerm(cfg, fs, peer, h, Perm.Create)
    {
      SameGroupDecides(cfg, fs, fs', h, peer, Perm.Create);
      SameRepoDecides(cfg, fs, fs', peer, p, h, Perm.Read);
      SameRepoDecides(cfg, fs, fs', peer, p, h, Perm.Write);
    }
    assert SameGroup(cfg, fs, fs', group);
  }

  lemma SameRepoDecides(cfg: Cfg, fs: Fs, fs': Fs, peer: Peer, p: Path, h: string, perm: Perm)
    requires InGroup(cfg, h, p) && SameGroup(cfg, fs, fs', h)
    requires IsDir(fs, p) && IsDir(fs', p) && RepoAccess(cfg, fs', p) == RepoAccess(cfg, fs, p)
    ensures ResolvePerm(cfg, fs', peer, h, Base(p), perm) == ResolvePerm(cfg, fs, peer, h, Base(p), perm)
  {
    hide ListsOf, GroupInput, ResolvePermission, Blocked, RepoAccess, IsPlainComponent;
    assert p == cfg.repositories[h] + [Base(p)];
  }

  lemma {:induction false} RunUnmade(cfg: Cfg, fs: Fs, peer: Peer, p: Path, group: string, calls: seq<Call>)
    requires PlainRepository(cfg, fs, p, group)
    requires HiddenFrom(cfg, fs, peer, p) && MayNotCreateBeside(cfg, fs, peer, p) && AllBy(peer, calls)
    ensures Answers(cfg, Unmade(fs, p), calls) == Answers(cfg, fs, calls)
    ensures After(cfg, Unmade(fs, p), calls) == Unmade(After(cfg, fs, calls), p)
    ensures PlainRepository(cfg, After(cfg, fs, calls), p, group)
    ensures HiddenFrom(cfg, After(cfg, fs, calls), peer, p) && MayNotCreateBeside(cfg, After(cfg, fs, calls), peer, p)
    decreases |calls|
  {
    hide Handle, Unmade, HiddenFrom, MayNotCreateBeside, PlainRepository;
    if calls != [] {
      var before, c := calls[..|calls| - 1], calls[|calls| - 1];
      RunUnmade(cfg, fs, peer, p, group, before);
      var mid := After(cfg, fs, before);
      StepUnmade(cfg, mid, peer, p, group, c.req, c.env);
      StaysHidden(cfg, mid, c, peer, p, group);
    }
  }

  /** A Create-holder can tell: a list for push promises a creation only where nothing stands. */
  lemma CreatorCanTell(cfg: Cfg, fs: Fs, peer: Peer, p: Path, h: string, env: Env) returns (call: Call)
    requires Holds(cfg, h, p) && IsPlainComponent(Base(p)) && |Base(p)| <= NAME_MAX && HiddenFrom(cfg, fs, peer, p)
    requires ResolveGroupPerm(cfg, fs, peer, h, Perm.Create) &&
             ResolveGroupPerm(cfg, Unmade(fs, p), peer, h, Perm.Create)
    ensures call.peer == Some(peer) && Answers(cfg, Unmade(fs, p), [call]) != Answers(cfg, fs, [call])
  {
    hide ResolvePerm, ResolveGroupPerm, Unmade, IsPlainComponent;
    var r := Base(p);
    var path := h + "/" + r;
    PathOf(h, r);
    call := Call(Some(peer), ListRefs(Some(path), true), env);
    Gone(fs, p);
    assert cfg.repositories[h] + [r] == p;
    HeldGroupExists(cfg, fs, peer, h);
    HeldGroupExists(cfg, Unmade(fs, p), peer, h);
    ListPromisesCreation(cfg, Unmade(fs, p), peer, h, r, env);
    OneAnswer(cfg, fs, call);
    OneAnswer(cfg, Unmade(fs, p), call);
  }

  lemma OneAnswer(cfg: Cfg, fs: Fs, call: Call)
    ensures Answers(cfg, fs, [call]) == [Handle(cfg, fs, call.peer, call.req, call.env).1]
  {
    hide Handle;
    assert [call][..0] == [];
  }

  /** A repository hidden from a peer is indistinguishable from one that was never made: in
      every run of the peer's requests all answers are the same, exactly when the peer may
      not create repositories in its directory. */
  lemma HiddenLooksMissingIff(cfg: Cfg, fs: Fs, peer: Peer, group: string, repo: string, env: Env)
    requires ParseRequestPath(group + "/" + repo) == Some((group, repo))
    requires group in cfg.repositories && PlainRepository(cfg, fs, RepoPath(cfg, group, repo), group)
    requires HiddenFrom(cfg, fs, peer, RepoPath(cfg, group, repo))
    ensures var p := RepoPath(cfg, group, repo);
            (forall calls :: AllBy(peer, calls) ==> Answers(cfg, Unmade(fs, p), calls) == Answers(cfg, fs, calls)) <==>
            MayNotCreateBeside(cfg, fs, peer, p)
  {
    hide Unmade, Answers, IsPlainComponent, ResolveGroupPerm, ResolvePerm;
    var p := RepoPath(cfg, group, repo);
    assert p[..|p| - 1] == cfg.repositories[group] && Base(p) == repo;
    if MayNotCreateBeside(cfg, fs, peer, p) {
      forall calls | AllBy(peer, calls) ensures Answers(cfg, Unmade(fs, p), calls) == Answers(cfg, fs, calls) {
        RunUnmade(cfg, fs, peer, p, group, calls);
      }
    } else {
      var h: string :| Holds(cfg, h, p) && ResolveGroupPerm(cfg, fs, peer, h, Perm.Create);
      GroupsAlike(cfg, fs, p, h);
      SameGroupDecides(cfg, fs, Unmade(fs, p), h, peer, Perm.Create);
      var call := CreatorCanTell(cfg, fs, peer, p, h, env);
      assert AllBy(peer, [call]);
    }
  }
}
