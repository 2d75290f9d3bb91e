/**
  What the git server guarantees over whole runs: who can change a repository's refs,
  who can make one appear, and that decisions, once a repository exists, never move.
 */
module GitServerRuns {
  import opened Wrappers
  import opened Bytes
  import opened Text
  import opened Acl
  import opened Repositories
  import opened GitServer

  function RefsAt(fs: Fs, p: Path): Option<map<string, string>> {
    if IsDir(fs, p) then Some(fs[p].refs) else None
  }

  /** The request names the repository at `p` on behalf of an identified, unblocked peer. */
  ghost predicate Names(cfg: Cfg, peer: Option<Peer>, req: Request, group: string, p: Path) {
    && peer.Some? && !Blocked(cfg, peer.value)
    && !req.Repos? && req.repository.Some? && ParseRequestPath(req.repository.value).Some?
    && ParseRequestPath(req.repository.value).value.0 == group
    && group in cfg.repositories
    && p == cfg.repositories[group] + [ParseRequestPath(req.repository.value).value.1]
  }

  /** A push or delete on an existing repository by a peer that resolves Write on it. */
  ghost predicate MayWrite(cfg: Cfg, fs: Fs, peer: Option<Peer>, req: Request, group: string, p: Path) {
    && Names(cfg, peer, req, group, p) && (req.Push? || req.Delete?)
    && IsDir(fs, p) && ResolvePerm(cfg, fs, peer.value, group, Base(p), Perm.Write)
  }

  /** A push or create on a missing repository by a peer that resolves Create on its group. */
  ghost predicate MayCreate(cfg: Cfg, fs: Fs, peer: Option<Peer>, req: Request, group: string, p: Path) {
    && Names(cfg, peer, req, group, p) && (req.Push? || req.Create?)
    && p !in fs && ResolveGroupPerm(cfg, fs, peer.value, group, Perm.Create)
  }

  ghost predicate Updated(fs: Fs, fs': Fs, p: Path) {
    IsDir(fs, p) && exists dir: Node :: dir.Directory? && fs' == fs[p := dir]
  }

  ghost predicate Created(fs: Fs, fs': Fs, p: Path, creator: Peer) {
    && p !in fs && !IsDir(fs, AclPath(p))
    && exists dir: Node :: dir.Directory? && fs' == fs[p := dir][AclPath(p) := File(Some(CreatorAcl(creator)))]
  }

  /** The only three things a request can do. */
  ghost predicate StepShape(cfg: Cfg, fs: Fs, fs': Fs, peer: Option<Peer>, req: Request) {
    || fs' == fs
    || (exists group: string, p: Path :: MayWrite(cfg, fs, peer, req, group, p) && Updated(fs, fs', p))
    || (exists group: string, p: Path :: MayCreate(cfg, fs, peer, req, group, p) && Created(fs, fs', p, peer.value))
  }

  // ---------------------------------------------------------------- one step

  lemma WriteNeedsRepo(cfg: Cfg, fs: Fs, peer: Peer, group: string, repo: string, perm: Perm)
    requires ResolvePerm(cfg, fs, peer, group, repo, perm)
    ensures group in cfg.repositories && !Blocked(cfg, peer) && IsPlainComponent(repo)
    ensures ResolveRepoAccess(cfg, fs, group, repo).Some?
    ensures IsDir(fs, cfg.repositories[group] + [repo]) &&
            ResolveRepoAccess(cfg, fs, group, repo).value.path == cfg.repositories[group] + [repo]
  {
  }

  lemma CreateShape(cfg: Cfg, fs: Fs, peer: Peer, group: string, repo: string, env: Env)
    requires group in cfg.repositories
    requires Repositories.CreateRepository(fs, cfg.repositories[group], repo, peer, env).Some?
    ensures var p := cfg.repositories[group] + [repo];
            var fs1 := Repositories.CreateRepository(fs, cfg.repositories[group], repo, peer, env).value;
            && p !in fs && !IsDir(fs, AclPath(p)) && AclPath(p) != p
            && fs1 == fs[p := EMPTY_REPOSITORY][AclPath(p) := File(Some(CreatorAcl(peer)))]
            && Created(fs, fs1, p, peer)
  {
    var p, dir := cfg.repositories[group] + [repo], EMPTY_REPOSITORY;
    AclPathDiffers(p);
    var fs1 := fs[p := dir][AclPath(p) := File(Some(CreatorAcl(peer)))];
    assert dir.Directory? && fs1 == fs[p := dir][AclPath(p) := File(Some(CreatorAcl(peer)))];
  }

  lemma PushShape(cfg: Cfg, fs: Fs, peer: Peer, group: string, repo: string, req: Request, env: Env)
    requires req.Push? && req.repository.Some? && ParseRequestPath(req.repository.value) == Some((group, repo))
    ensures StepShape(cfg, fs, HandlePush(cfg, fs, peer, group, repo, req, env).0, Some(peer), req)
  {
    hide ResolveRepoAccess, Repositories.CreateRepository, ApplyPush, ParseRequestPath, Created, Blocked;
    var fs' := HandlePush(cfg, fs, peer, group, repo, req, env).0;
    if ResolvePerm(cfg, fs, peer, group, repo, Perm.Write) {
      WriteNeedsRepo(cfg, fs, peer, group, repo, Perm.Write);
      var p := cfg.repositories[group] + [repo];
      assert MayWrite(cfg, fs, Some(peer), req, group, p);
      if fs' != fs { assert Updated(fs, fs', p); }
    } else {
      var created := CreateRepoOnPush(cfg, fs, peer, group, repo, env);
      if created.Some? {
        var p := cfg.repositories[group] + [repo];
        CreateShape(cfg, fs, peer, group, repo, env);
        CreatedResolves(cfg, fs, peer, group, repo, env);
        var dir := ApplyPush(created.value[p], req, env).0;
        assert fs' == created.value[p := dir];
        RepositoryInPlace(fs, p, dir, peer);
        assert MayCreate(cfg, fs, Some(peer), req, group, p);
      }
    }
  }

  lemma RepositoryInPlace(fs: Fs, p: Path, dir: Node, creator: Peer)
    requires p !in fs && !IsDir(fs, AclPath(p)) && AclPath(p) != p && dir.Directory?
    ensures Created(fs, fs[p := EMPTY_REPOSITORY][AclPath(p) := File(Some(CreatorAcl(creator)))][p := dir], p, creator)
  {
    var acl := File(Some(CreatorAcl(creator)));
    assert fs[p := EMPTY_REPOSITORY][AclPath(p) := acl][p := dir] == fs[p := dir][AclPath(p) := acl];
  }

  lemma DeleteShape(cfg: Cfg, fs: Fs, peer: Peer, group: string, repo: string, req: Request, name: Option<string>,
                    env: Env)
    requires req.Delete? && req.repository.Some? && ParseRequestPath(req.repository.value) == Some((group, repo))
    ensures StepShape(cfg, fs, HandleDelete(cfg, fs, peer, group, repo, name, env).0, Some(peer), req)
  {
    hide ResolveRepoAccess, ParseRequestPath, SanRef, Blocked;
    var fs' := HandleDelete(cfg, fs, peer, group, repo, name, env).0;
    if ResolvePerm(cfg, fs, peer, group, repo, Perm.Write) {
      WriteNeedsRepo(cfg, fs, peer, group, repo, Perm.Write);
      var p := cfg.repositories[group] + [repo];
      assert MayWrite(cfg, fs, Some(peer), req, group, p);
      if fs' != fs {
        var dir := fs'[p];
        assert dir.Directory? && fs' == fs[p := dir];
      }
    }
  }

  lemma CreateRequestShape(cfg: Cfg, fs: Fs, peer: Peer, group: string, repo: string, req: Request, env: Env)
    requires req.Create? && req.repository.Some? && ParseRequestPath(req.repository.value) == Some((group, repo))
    ensures StepShape(cfg, fs, HandleCreate(cfg, fs, peer, group, repo, env).0, Some(peer), req)
  {
    hide ResolvePerm, Repositories.CreateRepository, ParseRequestPath, Created, Blocked;
    var fs' := HandleCreate(cfg, fs, peer, group, repo, env).0;
    if fs' != fs {
      var p := cfg.repositories[group] + [repo];
      CreateShape(cfg, fs, peer, group, repo, env);
      assert MayCreate(cfg, fs, Some(peer), req, group, p);
    }
  }

  lemma EveryStepHasShape(cfg: Cfg, fs: Fs, peer: Option<Peer>, req: Request, env: Env)
    ensures StepShape(cfg, fs, Handle(cfg, fs, peer, req, env).0, peer, req)
  {
    hide HandleRepos, HandleFetch, HandleList, HandlePush, HandleDelete, HandleCreate, ParseRequestPath, MayWrite,
      MayCreate, Updated, Created;
    if peer.Some? && !req.Repos? && req.repository.Some? && ParseRequestPath(req.repository.value).Some? {
      var (group, repo) := ParseRequestPath(req.repository.value).value;
      if req.Push? { PushShape(cfg, fs, peer.value, group, repo, req, env); }
      if req.Delete? { DeleteShape(cfg, fs, peer.value, group, repo, req, req.name, env); }
      if req.Create? { CreateRequestShape(cfg, fs, peer.value, group, repo, req, env); }
    }
  }

  /** A request changes a repository's refs only for an identified, unblocked peer that
      resolves Write on it beforehand, or resolves Create on its group while it is missing. */
  lemma StepSafety(cfg: Cfg, fs: Fs, peer: Option<Peer>, req: Request, env: Env, p: Path)
    ensures var fs' := Handle(cfg, fs, peer, req, env).0;
            RefsAt(fs', p) != RefsAt(fs, p) ==>
              && IsDir(fs', p)
              && exists group: string ::
                  MayWrite(cfg, fs, peer, req, group, p) || MayCreate(cfg, fs, peer, req, group, p)
  {
    hide Handle, ResolvePerm, ResolveGroupPerm, Blocked;
    var fs' := Handle(cfg, fs, peer, req, env).0;
    EveryStepHasShape(cfg, fs, peer, req, env);
    if RefsAt(fs', p) != RefsAt(fs, p) {
      if group: string, q: Path :| MayWrite(cfg, fs, peer, req, group, q) && Updated(fs, fs', q) {
        assert q == p;
      } else {
        var group: string, q: Path :| MayCreate(cfg, fs, peer, req, group, q) && Created(fs, fs', q, peer.value);
        assert q == p;
      }
    }
  }

  /** Unidentified and blocked peers never change anything. */
  lemma OutsidersChangeNothing(cfg: Cfg, fs: Fs, peer: Option<Peer>, req: Request, env: Env)
    requires peer.None? || Blocked(cfg, peer.value)
    ensures Handle(cfg, fs, peer, req, env).0 == fs
  {
    hide Handle, Updated, Created;
    EveryStepHasShape(cfg, fs, peer, req, env);
  }

  // ---------------------------------------------------------------- whole runs

  datatype Call = Call(peer: Option<Peer>, req: Request, env: Env)

  function After(cfg: Cfg, fs: Fs, calls: seq<Call>): Fs {
    if calls == [] then fs
    else
      var c := calls[|calls| - 1];
      Handle(cfg, After(cfg, fs, calls[..|calls| - 1]), c.peer, c.req, c.env).0
  }

  ghost predicate LegitimateAt(cfg: Cfg, fs: Fs, calls: seq<Call>, i: nat, p: Path) {
    i < |calls| &&
    exists group: string ::
      MayWrite(cfg, After(cfg, fs, calls[..i]), calls[i].peer, calls[i].req, group, p) ||
      MayCreate(cfg, After(cfg, fs, calls[..i]), calls[i].peer, calls[i].req, group, p)
  }

  /** In every run, refs that differ at the end were changed by some legitimate request. */
  lemma {:induction false} RunSafety(cfg: Cfg, fs: Fs, calls: seq<Call>, p: Path)
    ensures RefsAt(After(cfg, fs, calls), p) != RefsAt(fs, p) ==> exists i: nat :: LegitimateAt(cfg, fs, calls, i, p)
    decreases |calls|
  {
    hide Handle, MayWrite, MayCreate;
    if calls != [] && RefsAt(After(cfg, fs, calls), p) != RefsAt(fs, p) {
      var n := |calls| - 1;
      var before, c := calls[..n], calls[n];
      RunSafety(cfg, fs, before, p);
      if RefsAt(After(cfg, fs, before), p) != RefsAt(fs, p) {
        var i: nat :| LegitimateAt(cfg, fs, before, i, p);
        assert before[..i] == calls[..i];
        assert LegitimateAt(cfg, fs, calls, i, p);
      } else {
        StepSafety(cfg, After(cfg, fs, before), c.peer, c.req, c.env, p);
        assert LegitimateAt(cfg, fs, calls, n, p);
      }
    }
  }

  /** A run of nothing but unidentified and blocked peers leaves the filesystem as it was. */
  lemma {:induction false} OutsiderRuns(cfg: Cfg, fs: Fs, calls: seq<Call>)
    requires forall i :: 0 <= i < |calls| ==> calls[i].peer.None? || Blocked(cfg, calls[i].peer.value)
    ensures After(cfg, fs, calls) == fs
    decreases |calls|
  {
    hide Handle, Blocked;
    if calls != [] {
      var c := calls[|calls| - 1];
      OutsiderRuns(cfg, fs, calls[..|calls| - 1]);
      OutsidersChangeNothing(cfg, fs, c.peer, c.req, c.env);
    }
  }

  // ---------------------------------------------------------------- decisions

  /** No request can make this directory appear: it is there already, or no group's child. */
  ghost predicate Settled(cfg: Cfg, fs: Fs, d: Path) {
    d in fs || forall g :: g in cfg.repositories ==> !(|d| > 1 && d[..|d| - 1] == cfg.repositories[g])
  }

  /** The group's own decisions rest on the same facts before and after. */
  ghost predicate SameGroup(cfg: Cfg, fs: Fs, fs': Fs, group: string) {
    group in cfg.repositories ==>
      var g := cfg.repositories[group];
      (IsDir(fs', g) <==> IsDir(fs, g)) && ReadText(fs', AclPath(g)) == ReadText(fs, AclPath(g))
  }

  lemma UpdateKeepsAccess(cfg: Cfg, fs: Fs, fs': Fs, p: Path, group: string, repo: string)
    requires Updated(fs, fs', p)
    ensures SameGroup(cfg, fs, fs', group)
    ensures ResolveRepoAccess(cfg, fs', group, repo) == ResolveRepoAccess(cfg, fs, group, repo)
  {
    hide ListsOf, GroupInput, IsPlainComponent, AclPath;
    assert forall q :: (IsDir(fs', q) <==> IsDir(fs, q)) && ReadText(fs', q) == ReadText(fs, q);
  }

  lemma CreationKeepsGroups(cfg: Cfg, fs: Fs, fs': Fs, p: Path, creator: Peer, group: string)
    requires Created(fs, fs', p, creator)
    requires group in cfg.repositories ==> cfg.repositories[group] != p
    ensures SameGroup(cfg, fs, fs', group)
  {
    if group in cfg.repositories { CreationKeepsRepos(fs, fs', p, creator, cfg.repositories[group]); }
  }

  lemma AclPathFront(p: Path)
    ensures |AclPath(p)| == |p| && AclPath(p)[..|p| - 1] == p[..|p| - 1]
  {
  }

  lemma CreationKeepsRepos(fs: Fs, fs': Fs, p: Path, creator: Peer, q: Path)
    requires Created(fs, fs', p, creator) && q != p
    ensures (IsDir(fs', q) <==> IsDir(fs, q)) && ReadText(fs', AclPath(q)) == ReadText(fs, AclPath(q))
  {
    if AclPath(q) == AclPath(p) { AclPathInjective(q, p); }
  }

  lemma SameGroupDecides(cfg: Cfg, fs: Fs, fs': Fs, group: string, peer: Peer, perm: Perm)
    requires SameGroup(cfg, fs, fs', group)
    ensures ResolveGroupPerm(cfg, fs', peer, group, perm) == ResolveGroupPerm(cfg, fs, peer, group, perm)
    ensures group in cfg.repositories ==>
              GroupAccess(cfg, fs', group, cfg.repositories[group]) ==
                GroupAccess(cfg, fs, group, cfg.repositories[group])
  {
    hide Blocked, ListsOf, GroupInput, ResolveGroupPermission;
  }

  /** No request, by anyone, ever changes the decisions of a group whose directory is settled. */
  lemma {:induction false} GroupsOverRuns(cfg: Cfg, fs: Fs, calls: seq<Call>, group: string)
    requires group in cfg.repositories ==> Settled(cfg, fs, cfg.repositories[group])
    ensures SameGroup(cfg, fs, After(cfg, fs, calls), group)
    decreases |calls|
  {
    hide Handle, Settled, MayWrite, Updated, Created;
    if calls != [] {
      var before, c := calls[..|calls| - 1], calls[|calls| - 1];
      GroupsOverRuns(cfg, fs, before, group);
      if group in cfg.repositories { StaysSettled(cfg, fs, before, cfg.repositories[group]); }
      StepKeepsGroup(cfg, After(cfg, fs, before), c, group);
    }
  }

  lemma StepKeepsKeys(cfg: Cfg, fs: Fs, c: Call)
    ensures fs.Keys <= Handle(cfg, fs, c.peer, c.req, c.env).0.Keys
  {
    hide Handle, MayWrite, MayCreate;
    EveryStepHasShape(cfg, fs, c.peer, c.req, c.env);
  }

  /** Nothing ever disappears from the filesystem. */
  lemma {:induction false} KeysStay(cfg: Cfg, fs: Fs, calls: seq<Call>)
    ensures fs.Keys <= After(cfg, fs, calls).Keys
    decreases |calls|
  {
    hide Handle;
    if calls != [] {
      var before := calls[..|calls| - 1];
      KeysStay(cfg, fs, before);
      StepKeepsKeys(cfg, After(cfg, fs, before), calls[|calls| - 1]);
    }
  }

  lemma StaysSettled(cfg: Cfg, fs: Fs, calls: seq<Call>, d: Path)
    requires Settled(cfg, fs, d)
    ensures Settled(cfg, After(cfg, fs, calls), d)
  {
    hide After;
    KeysStay(cfg, fs, calls);
    assert d in fs ==> d in After(cfg, fs, calls);
  }

  lemma StepKeepsGroup(cfg: Cfg, fs: Fs, c: Call, group: string)
    requires group in cfg.repositories ==> Settled(cfg, fs, cfg.repositories[group])
    ensures SameGroup(cfg, fs, Handle(cfg, fs, c.peer, c.req, c.env).0, group)
  {
    hide Handle, MayWrite, Updated, SameGroup;
    var fs' := Handle(cfg, fs, c.peer, c.req, c.env).0;
    EveryStepHasShape(cfg, fs, c.peer, c.req, c.env);
    if fs' == fs {
      SameGroupRefl(cfg, fs, group);
    } else if g: string, p: Path :| MayWrite(cfg, fs, c.peer, c.req, g, p) && Updated(fs, fs', p) {
      UpdateKeepsAccess(cfg, fs, fs', p, group, "");
    } else {
      var g: string, p: Path :| MayCreate(cfg, fs, c.peer, c.req, g, p) && Created(fs, fs', p, c.peer.value);
      assert p[..|p| - 1] == cfg.repositories[g];
      CreationKeepsGroups(cfg, fs, fs', p, c.peer.value, group);
    }
  }

  /** A request can name this group, and `p` stands in its directory. */
  predicate Holds(cfg: Cfg, h: string, p: Path) {
    h in cfg.repositories && IsPlainComponent(h) && |h| <= NAME_MAX && |p| > 1 && p[..|p| - 1] == cfg.repositories[h]
  }

  /** Some peer's request would create a repository at `q`. */
  ghost predicate CreatableAt(cfg: Cfg, fs: Fs, q: Path) {
    && q !in fs && !IsDir(fs, AclPath(q)) && IsPlainComponent(Base(q)) && |Base(q)| <= NAME_MAX
    && exists g: string, peer: Peer :: Holds(cfg, g, q) && ResolveGroupPerm(cfg, fs, peer, g, Perm.Create)
  }

  /** One request keeps a group's decisions, whoever makes it, exactly when nobody can create
      a repository in the place of its directory. */
  lemma GroupKeptIff(cfg: Cfg, fs: Fs, group: string)
    requires group in cfg.repositories
    ensures (forall c: Call :: SameGroup(cfg, fs, Handle(cfg, fs, c.peer, c.req, c.env).0, group)) <==>
            !CreatableAt(cfg, fs, cfg.repositories[group])
  {
    hide Handle, SameGroup, CreatableAt;
    var q := cfg.repositories[group];
    if CreatableAt(cfg, fs, q) {
      var c := CreatingCall(cfg, fs, group);
    } else {
      forall c: Call ensures SameGroup(cfg, fs, Handle(cfg, fs, c.peer, c.req, c.env).0, group) {
        NotCreatedMeansKept(cfg, fs, c, group);
      }
    }
  }

  lemma NotCreatedMeansKept(cfg: Cfg, fs: Fs, c: Call, group: string)
    requires group in cfg.repositories && !CreatableAt(cfg, fs, cfg.repositories[group])
    ensures SameGroup(cfg, fs, Handle(cfg, fs, c.peer, c.req, c.env).0, group)
  {
    hide Handle, MayWrite, Updated, SameGroup, IsPlainComponent, ResolveGroupPerm;
    var fs' := Handle(cfg, fs, c.peer, c.req, c.env).0;
    EveryStepHasShape(cfg, fs, c.peer, c.req, c.env);
    if fs' == fs {
      SameGroupRefl(cfg, fs, group);
    } else if g: string, p: Path :| MayWrite(cfg, fs, c.peer, c.req, g, p) && Updated(fs, fs', p) {
      UpdateKeepsAccess(cfg, fs, fs', p, group, "");
    } else {
      var g: string, p: Path :| MayCreate(cfg, fs, c.peer, c.req, g, p) && Created(fs, fs', p, c.peer.value);
      PathParts(c.req.repository.value);
      assert p[..|p| - 1] == cfg.repositories[g];
      assert Holds(cfg, g, p);
      CreationKeepsGroups(cfg, fs, fs', p, c.peer.value, group);
    }
  }

  lemma CreatingCall(cfg: Cfg, fs: Fs, group: string) returns (c: Call)
    requires group in cfg.repositories && CreatableAt(cfg, fs, cfg.repositories[group])
    ensures !SameGroup(cfg, fs, Handle(cfg, fs, c.peer, c.req, c.env).0, group)
  {
    hide ResolveGroupPerm, IsPlainComponent, ParseRequestPath, Acl.CreatorAcl;
    var q := cfg.repositories[group];
    var g: string, peer: Peer :| Holds(cfg, g, q) && ResolveGroupPerm(cfg, fs, peer, g, Perm.Create);
    PathOf(g, Base(q));
    HeldGroupExists(cfg, fs, peer, g);
    AclPathDiffers(q);
    assert cfg.repositories[g] + [Base(q)] == q;
    c := Call(Some(peer), Request.Create(Some(g + "/" + Base(q))), AllWell(History((a, b) => a == b, _ => Commit)));
  }

  lemma HeldGroupExists(cfg: Cfg, fs: Fs, peer: Peer, h: string)
    ensures ResolveGroupPerm(cfg, fs, peer, h, Perm.Create) ==> h in cfg.repositories && IsDir(fs, cfg.repositories[h])
  {
  }

  lemma PathOf(h: string, r: string)
    requires IsPlainComponent(h) && |h| <= NAME_MAX && IsPlainComponent(r) && |r| <= NAME_MAX
    ensures ParseRequestPath(h + "/" + r) == Some((h, r))
  {
    assert h + "/" + r == h + ['/'] + r;
    SplitOnceAt(h, '/', r);
  }

  lemma PathParts(path: string)
    ensures ParseRequestPath(path).Some? ==>
              var (h, r) := ParseRequestPath(path).value;
              IsPlainComponent(h) && |h| <= NAME_MAX && IsPlainComponent(r) && |r| <= NAME_MAX
  {
  }

  lemma SameGroupRefl(cfg: Cfg, fs: Fs, group: string)
    ensures SameGroup(cfg, fs, fs, group)
  {
  }

  function RepoPath(cfg: Cfg, group: string, repo: string): Path
    requires group in cfg.repositories
  {
    cfg.repositories[group] + [repo]
  }

  /** The repository exists and its own access lists are `lists`. */
  ghost predicate Governed(cfg: Cfg, fs: Fs, p: Path, lists: AccessLists) {
    IsDir(fs, p) && RepoAccess(cfg, fs, p) == lists
  }

  /** Some peer that resolves Create on a group with this directory could have made it. */
  ghost predicate CreatableBy(cfg: Cfg, fs: Fs, creator: Peer, p: Path) {
    exists g: string :: g in cfg.repositories && |p| > 1 && p[..|p| - 1] == cfg.repositories[g]
                        && ResolveGroupPerm(cfg, fs, creator, g, Perm.Create)
  }

  /** What a repository present after a run owes its access lists to. */
  ghost predicate Origin(cfg: Cfg, fs: Fs, p: Path, lists: AccessLists) {
    if IsDir(fs, p) then lists == RepoAccess(cfg, fs, p)
    else exists creator: Peer :: CreatableBy(cfg, fs, creator, p) && lists == ListsOf(CreatorAcl(creator), cfg.aliases)
  }

  lemma StepGoverned(cfg: Cfg, fs: Fs, c: Call, p: Path)
    ensures var fs' := Handle(cfg, fs, c.peer, c.req, c.env).0;
            && (IsDir(fs, p) ==> Governed(cfg, fs', p, RepoAccess(cfg, fs, p)))
            && (!IsDir(fs, p) && IsDir(fs', p) ==>
                  c.peer.Some? && CreatableBy(cfg, fs, c.peer.value, p) &&
                    Governed(cfg, fs', p, ListsOf(CreatorAcl(c.peer.value), cfg.aliases)))
  {
    hide Handle, MayWrite, ResolveGroupPerm, ListsOf, CreatorAcl;
    var fs' := Handle(cfg, fs, c.peer, c.req, c.env).0;
    EveryStepHasShape(cfg, fs, c.peer, c.req, c.env);
    if fs' != fs {
      if g: string, q: Path :| MayWrite(cfg, fs, c.peer, c.req, g, q) && Updated(fs, fs', q) {
      } else {
        var g: string, q: Path :| MayCreate(cfg, fs, c.peer, c.req, g, q) && Created(fs, fs', q, c.peer.value);
        AclPathDiffers(q);
        if q != p {
          CreationKeepsRepos(fs, fs', q, c.peer.value, p);
        } else {
          assert q[..|q| - 1] == cfg.repositories[g];
        }
      }
    }
  }

  /** Repositories never disappear, and their access lists never change: they are the
      initial ones, or exactly those written for the Create-holder who made them. */
  lemma {:induction false} ReposOverRuns(cfg: Cfg, fs: Fs, calls: seq<Call>, p: Path)
    requires |p| > 1 ==> Settled(cfg, fs, p[..|p| - 1])
    ensures var fs' := After(cfg, fs, calls);
            && (IsDir(fs, p) ==> IsDir(fs', p))
            && (IsDir(fs', p) ==> Origin(cfg, fs, p, RepoAccess(cfg, fs', p)))
    decreases |calls|
  {
    hide Handle, Settled, RepoAccess, CreatableBy, ListsOf, CreatorAcl;
    if calls != [] {
      var before, c := calls[..|calls| - 1], calls[|calls| - 1];
      var mid := After(cfg, fs, before);
      ReposOverRuns(cfg, fs, before, p);
      StepGoverned(cfg, mid, c, p);
      if !IsDir(mid, p) && IsDir(After(cfg, fs, calls), p) {
        CreatableEarlier(cfg, fs, before, c.peer.value, p);
      }
    }
  }

  lemma CreatableEarlier(cfg: Cfg, fs: Fs, calls: seq<Call>, creator: Peer, p: Path)
    requires |p| > 1 ==> Settled(cfg, fs, p[..|p| - 1])
    ensures CreatableBy(cfg, After(cfg, fs, calls), creator, p) ==> CreatableBy(cfg, fs, creator, p)
  {
    hide After, ResolveGroupPerm, Settled;
    if CreatableBy(cfg, After(cfg, fs, calls), creator, p) {
      var g: string :| g in cfg.repositories && |p| > 1 && p[..|p| - 1] == cfg.repositories[g]
                       && ResolveGroupPerm(cfg, After(cfg, fs, calls), creator, g, Perm.Create);
      GroupsOverRuns(cfg, fs, calls, g);
      SameGroupDecides(cfg, fs, After(cfg, fs, calls), g, creator, Perm.Create);
    }
  }

  /** Whom a repository created by `creator` belongs to, once its ACL is read back. */
  function Owner(cfg: Cfg, creator: Peer): Option<Identity> { OwnerOf(creator, cfg.aliases) }

  /** In `fs'` the decision is that of a repository of the creator's owner in the group of `fs`. */
  ghost predicate DecidedFor(cfg: Cfg, fs: Fs, fs': Fs, creator: Peer, peer: Peer, group: string, repo: string,
                             perm: Perm) {
    var owner := Owner(cfg, creator);
    ResolvePerm(cfg, fs', peer, group, repo, perm) <==>
    (owner == Some(peer) && !Blocked(cfg, peer)) ||
      ((perm == Admin ==> owner.None?) && ResolveGroupPerm(cfg, fs, peer, group, perm))
  }

  /** Decisions over whole runs.  About a repository that existed at the start nothing is
      ever decided differently; about one made during the run, its owner may do everything and
      the group decides the rest, the creator having held Create on the group from the start. */
  lemma DecisionsOverRuns(cfg: Cfg, fs: Fs, calls: seq<Call>, peer: Peer, group: string, repo: string, perm: Perm)
    requires group in cfg.repositories && IsPlainComponent(repo) && Settled(cfg, fs, cfg.repositories[group])
    ensures var fs', p := After(cfg, fs, calls), RepoPath(cfg, group, repo);
            && (forall q: Perm ::
                  ResolveGroupPerm(cfg, fs', peer, group, q) == ResolveGroupPerm(cfg, fs, peer, group, q))
            && (IsDir(fs, p) ==>
                  ResolvePerm(cfg, fs', peer, group, repo, perm) == ResolvePerm(cfg, fs, peer, group, repo, perm))
            && (!IsDir(fs, p) && IsDir(fs', p) ==>
                  exists creator: Peer ::
                      CreatableBy(cfg, fs, creator, p) && DecidedFor(cfg, fs, fs', creator, peer, group, repo, perm))
  {
    hide After, Settled, RepoAccess, GroupAccess, CreatableBy, ListsOf, CreatorAcl, Blocked, ResolvePermission,
      ResolveGroupPerm;
    var fs', p := After(cfg, fs, calls), RepoPath(cfg, group, repo);
    assert p[..|p| - 1] == cfg.repositories[group];
    GroupsOverRuns(cfg, fs, calls, group);
    ReposOverRuns(cfg, fs, calls, p);
    forall q: Perm ensures ResolveGroupPerm(cfg, fs', peer, group, q) == ResolveGroupPerm(cfg, fs, peer, group, q) {
      SameGroupDecides(cfg, fs, fs', group, peer, q);
    }
    SameGroupDecides(cfg, fs, fs', group, peer, perm);
    if !IsDir(fs, p) && IsDir(fs', p) {
      var creator: Peer :| CreatableBy(cfg, fs, creator, p) &&
        RepoAccess(cfg, fs', p) == ListsOf(CreatorAcl(creator), cfg.aliases);
      CreatedAmid(cfg, fs, fs', creator, peer, group, repo, perm);
    }
  }

  lemma CreatedAmid(cfg: Cfg, fs: Fs, fs': Fs, creator: Peer, peer: Peer, group: string, repo: string, perm: Perm)
    requires group in cfg.repositories && IsPlainComponent(repo)
    ensures var p := RepoPath(cfg, group, repo);
            SameGroup(cfg, fs, fs', group) && IsDir(fs', p) && CreatableBy(cfg, fs, creator, p) &&
            RepoAccess(cfg, fs', p) == ListsOf(CreatorAcl(creator), cfg.aliases) ==>
              DecidedFor(cfg, fs, fs', creator, peer, group, repo, perm)
  {
    hide ListsOf, CreatorAcl, OwnerOf, GroupInput, ResolvePermission, ResolveGroupPermission, Blocked, RepoAccess,
      GroupAccess;
    var g, p := cfg.repositories[group], RepoPath(cfg, group, repo);
    assert p[..|p| - 1] == g;
    if SameGroup(cfg, fs, fs', group) { SameGroupDecides(cfg, fs, fs', group, peer, perm); }
    CreatorAclLists(creator, cfg.aliases);
    OwnedDecisions(Owner(cfg, creator), GroupAccess(cfg, fs, group, g), peer, perm);
  }

  // ---------------------------------------------------------------- creation grants what is meant

  /** The creator's hex is no alias, or an alias of itself. */
  predicate PlainHex(cfg: Cfg, peer: Peer) { PlainIdentity(peer, cfg.aliases) }

  /** Every decision about a new repository: its owner may do everything, nobody else
      administers it, and all else is the group's own decision. */
  lemma CreationGrants(cfg: Cfg, fs: Fs, creator: Peer, group: string, repo: string, env: Env, who: Peer, perm: Perm)
    requires RepoMissing(cfg, fs, group, repo)
    requires Repositories.CreateRepository(fs, cfg.repositories[group], repo, creator, env).Some?
    ensures var fs', owner := Repositories.CreateRepository(fs, cfg.repositories[group], repo, creator, env).value,
            Owner(cfg, creator);
            ResolvePerm(cfg, fs', who, group, repo, perm) <==>
            (owner == Some(who) && !Blocked(cfg, who)) ||
              ((perm == Admin ==> owner.None?) && ResolveGroupPerm(cfg, fs, who, group, perm))
    ensures PlainHex(cfg, creator) <==> Owner(cfg, creator) == Some(creator)
  {
    hide ListsOf, CreatorAcl, OwnerOf, HexEncode, GroupInput, ResolvePermission, ResolveGroupPermission, Blocked,
      Repositories.CreateRepository, PlainIdentity;
    var g := cfg.repositories[group];
    var p := g + [repo];
    var fs' := Repositories.CreateRepository(fs, g, repo, creator, env).value;
    CreateShape(cfg, fs, creator, group, repo, env);
    assert |AclPath(g)| == |g| && |p| == |g| + 1 && |AclPath(p)| == |g| + 1;
    CreatorAclLists(creator, cfg.aliases);
    OwnedDecisions(Owner(cfg, creator), GroupAccess(cfg, fs, group, g), who, perm);
  }

  /** In `fs'` the creator may do everything with the repository, nobody else administers
      it, and every other decision about it is the one the group makes in `fs`. */
  ghost predicate GrantsWhatIsMeant(cfg: Cfg, fs: Fs, fs': Fs, creator: Peer, group: string, repo: string) {
    forall who: Peer, perm: Perm ::
      ResolvePerm(cfg, fs', who, group, repo, perm) <==>
      who == creator || (perm != Admin && ResolveGroupPerm(cfg, fs, who, group, perm))
  }

  /** The group alone already gives the creator everything and administration to nobody else. */
  ghost predicate GroupSuffices(cfg: Cfg, fs: Fs, creator: Peer, group: string) {
    && (forall perm: Perm :: ResolveGroupPerm(cfg, fs, creator, group, perm))
    && (forall who: Peer :: ResolveGroupPerm(cfg, fs, who, group, Admin) ==> who == creator)
  }

  /** A creation grants what is meant exactly when the creator's hex is no foreign alias,
      or it is an alias of nothing readable in a group that suffices by itself. */
  lemma CreationGrantsIff(cfg: Cfg, fs: Fs, creator: Peer, group: string, repo: string, env: Env)
    requires RepoMissing(cfg, fs, group, repo) && ResolveGroupPerm(cfg, fs, creator, group, Perm.Create)
    requires Repositories.CreateRepository(fs, cfg.repositories[group], repo, creator, env).Some?
    ensures var fs' := Repositories.CreateRepository(fs, cfg.repositories[group], repo, creator, env).value;
            GrantsWhatIsMeant(cfg, fs, fs', creator, group, repo) <==>
            PlainHex(cfg, creator) || (Owner(cfg, creator).None? && GroupSuffices(cfg, fs, creator, group))
  {
    hide Repositories.CreateRepository, ResolvePerm, ResolveGroupPerm, RepoMissing, PlainHex, Owner, Blocked;
    GroupOfMissing(cfg, fs, group, repo);
    var fs', owner := Repositories.CreateRepository(fs, cfg.repositories[group], repo, creator, env).value,
      Owner(cfg, creator);
    CreatorIsUnblocked(cfg, fs, creator, group);
    forall who: Peer, perm: Perm
      ensures ResolvePerm(cfg, fs', who, group, repo, perm) <==>
              (owner == Some(who) && !Blocked(cfg, who)) ||
                ((perm == Admin ==> owner.None?) && ResolveGroupPerm(cfg, fs, who, group, perm))
    {
      CreationGrants(cfg, fs, creator, group, repo, env, who, perm);
    }
    CreationGrants(cfg, fs, creator, group, repo, env, creator, Admin);
    if GrantsWhatIsMeant(cfg, fs, fs', creator, group, repo) {
      assert ResolvePerm(cfg, fs', creator, group, repo, Admin);
    }
  }

  lemma CreatorIsUnblocked(cfg: Cfg, fs: Fs, creator: Peer, group: string)
    requires ResolveGroupPerm(cfg, fs, creator, group, Perm.Create)
    ensures !Blocked(cfg, creator)
  {
  }

  /** A creation changes no decision about any other repository, whatever its name, nor about
      any group whose directory it does not make. */
  lemma CreationChangesNothingElse(cfg: Cfg, fs: Fs, creator: Peer, group: string, repo: string, env: Env,
                                   who: Peer, otherGroup: string, otherRepo: string, perm: Perm)
    requires RepoMissing(cfg, fs, group, repo)
    requires Repositories.CreateRepository(fs, cfg.repositories[group], repo, creator, env).Some?
    requires otherGroup in cfg.repositories ==>
               cfg.repositories[otherGroup] != RepoPath(cfg, group, repo) &&
                 RepoPath(cfg, otherGroup, otherRepo) != RepoPath(cfg, group, repo)
    ensures var fs' := Repositories.CreateRepository(fs, cfg.repositories[group], repo, creator, env).value;
            && ResolvePerm(cfg, fs', who, otherGroup, otherRepo, perm) ==
              ResolvePerm(cfg, fs, who, otherGroup, otherRepo, perm)
            && ResolveGroupPerm(cfg, fs', who, otherGroup, perm) == ResolveGroupPerm(cfg, fs, who, otherGroup, perm)
  {
    hide Created, ListsOf, GroupInput, ResolvePermission, Blocked, Repositories.CreateRepository, ResolveGroupPerm;
    var p := cfg.repositories[group] + [repo];
    var fs' := Repositories.CreateRepository(fs, cfg.repositories[group], repo, creator, env).value;
    CreateShape(cfg, fs, creator, group, repo, env);
    assert p[..|p| - 1] == cfg.repositories[group];
    CreationKeepsGroups(cfg, fs, fs', p, creator, otherGroup);
    SameGroupDecides(cfg, fs, fs', otherGroup, who, perm);
    if otherGroup in cfg.repositories {
      CreationKeepsRepos(fs, fs', p, creator, RepoPath(cfg, otherGroup, otherRepo));
    }
  }

  // ---------------------------------------------------------------- list and push agree

  /** A directory sits where the new repository's access file must be written. */
  predicate Obstructed(cfg: Cfg, fs: Fs, group: string, repo: string) {
    RepoMissing(cfg, fs, group, repo) && IsDir(fs, AclPath(cfg.repositories[group] + [repo]))
  }

  /** Without command failures, a list for push answers OK exactly when the push itself is
      authorized, except for a Create-holder whose new repository is obstructed: then the
      list answers OK and the push is refused. */
  lemma ListAgreesWithPush(cfg: Cfg, fs: Fs, peer: Peer, group: string, repo: string, env: Env)
    requires env.initOk && env.aclWriteOk && env.listOk
    ensures IsOk(HandleList(cfg, fs, peer, group, repo, true, env)) <==>
              AuthorizePush(cfg, fs, peer, group, repo, env).Ok? ||
              (Obstructed(cfg, fs, group, repo) && ResolveGroupPerm(cfg, fs, peer, group, Perm.Create))
    ensures Obstructed(cfg, fs, group, repo) ==> AuthorizePush(cfg, fs, peer, group, repo, env).Err?
  {
    hide ResolveGroupPerm, Blocked, RepoAccess, GroupAccess, ResolvePermission;
    if ResolvePerm(cfg, fs, peer, group, repo, Perm.Write) {
      WriteNeedsRepo(cfg, fs, peer, group, repo, Perm.Write);
    } else if RepoMissing(cfg, fs, group, repo) {
      CreatedResolves(cfg, fs, peer, group, repo, env);
    }
  }

  /** The empty OK for a missing repository keeps its word: the push creates it.  The peer
      then resolves Write exactly when its hex is no foreign alias or the group grants Write. */
  lemma EmptyListMeansCreation(cfg: Cfg, fs: Fs, peer: Peer, group: string, repo: string, env: Env)
    requires env.initOk && env.aclWriteOk
    requires RepoMissing(cfg, fs, group, repo) && !Obstructed(cfg, fs, group, repo)
    requires IsOk(HandleList(cfg, fs, peer, group, repo, true, env))
    ensures var a := AuthorizePush(cfg, fs, peer, group, repo, env);
            && a.Ok? && a.value.1 == RepoPath(cfg, group, repo)
            && IsDir(a.value.0, a.value.1) && a.value.0[a.value.1] == EMPTY_REPOSITORY
            && (ResolvePerm(cfg, a.value.0, peer, group, repo, Perm.Write) <==>
                PlainHex(cfg, peer) || ResolveGroupPerm(cfg, fs, peer, group, Perm.Write))
  {
    hide Blocked, RepoAccess, GroupAccess, ResolvePermission, ResolveGroupPermission, PlainHex, Owner;
    assert !ResolvePerm(cfg, fs, peer, group, repo, Perm.Write);
    assert ResolveGroupPerm(cfg, fs, peer, group, Perm.Create);
    CreateShape(cfg, fs, peer, group, repo, env);
    CreatedResolves(cfg, fs, peer, group, repo, env);
    CreationGrants(cfg, fs, peer, group, repo, env, peer, Perm.Write);
  }

  // ---------------------------------------------------------------- where the laws fail

  /** One group, "g", in which everybody may create repositories and nothing else. */
  function OpenGroup(aliases: Aliases): Cfg {
    Cfg(map["g" := ["/", "g"]], map["g" := ["c:all"]], aliases, [])
  }

  lemma AnyoneMayCreate(aliases: Aliases, fs: Fs, peer: Peer)
    requires IsDir(fs, ["/", "g"]) && AclPath(["/", "g"]) !in fs
    ensures ResolveGroupPerm(OpenGroup(aliases), fs, peer, "g", Perm.Create)
    ensures !ResolveGroupPerm(OpenGroup(aliases), fs, peer, "g", Perm.Write)
  {
    hide ListsOf, GroupInput, AclPath;
    OpenGroupLists(aliases);
  }

  lemma OpenGroupLists(aliases: Aliases)
    ensures ListsOf(GroupInput(None, ["c:all"]), aliases) == NO_LISTS.(create := [Everyone])
  {
    hide ParseLine, Lines, BuildLists, StripCr, GroupInput;
    OpenGroupEntry(aliases);
    OpenGroupInput();
    LinesOfOne("c:all");
    OneLineLists("c:all", aliases);
  }

  lemma OpenGroupInput()
    ensures GroupInput(None, ["c:all"]) == "c:all" + "\n" && '\n' !in "c:all" && StripCr("c:all") == "c:all"
  {
    assert ["c:all"][1..] == [] && JoinEntries([]) == "";
    assert JoinEntries(["c:all"]) == "c:all" + "\n" + "";
    assert "" + ("c:all" + "\n" + "") == "c:all" + "\n";
  }

  lemma OpenGroupEntry(aliases: Aliases)
    ensures ParseLine("c:all", aliases) == Some(Entry(Perm.Create, Everyone))
  {
    hide ParseLine;
    EntryRoundTrip(Perm.Create, false, Everyone, aliases);
    assert PermName(Perm.Create, false) + ":" + TargetName(Everyone) == "c:all";
  }

  /** A peer whose hex is an alias of something unreadable: the list promises the creation,
      the push creates the repository, and its creator may not write to it. */
  lemma AliasedCreatorMayNotWrite(peer: Peer, env: Env)
    requires env.initOk && env.aclWriteOk
    ensures var cfg, fs := OpenGroup(map[HexEncode(peer) := "nobody special"]), map[["/", "g"] := PLAIN_DIRECTORY];
            && HandleList(cfg, fs, peer, "g", "r", true, env) == Done()
            && AuthorizePush(cfg, fs, peer, "g", "r", env).Ok?
            && !ResolvePerm(cfg, AuthorizePush(cfg, fs, peer, "g", "r", env).value.0, peer, "g", "r", Perm.Write)
  {
    hide ResolveGroupPerm, ResolvePerm, HandleList, AuthorizePush, PlainHex, AclPath, OpenGroup;
    var aliases := map[HexEncode(peer) := "nobody special"];
    var cfg, fs := OpenGroup(aliases), map[["/", "g"] := PLAIN_DIRECTORY];
    NothingThereYet(aliases, fs);
    AnyoneMayCreate(aliases, fs, peer);
    AliasIsForeign(peer);
    ListPromisesCreation(cfg, fs, peer, "g", "r", env);
    EmptyListMeansCreation(cfg, fs, peer, "g", "r", env);
  }

  lemma NothingThereYet(aliases: Aliases, fs: Fs)
    requires fs == map[["/", "g"] := PLAIN_DIRECTORY]
    ensures IsDir(fs, ["/", "g"]) && AclPath(["/", "g"]) !in fs
    ensures RepoMissing(OpenGroup(aliases), fs, "g", "r") && !Obstructed(OpenGroup(aliases), fs, "g", "r")
  {
    AclPathDiffers(["/", "g"]);
    assert |AclPath(["/", "g"] + ["r"])| == 3;
  }

  lemma AliasIsForeign(peer: Peer)
    ensures !PlainHex(OpenGroup(map[HexEncode(peer) := "nobody special"]), peer)
  {
    hide HexEncode, HexDecode;
    var target := "nobody special";
    assert target[0] == 'n' && target[13] == 'l' && Trimmed(target);
    TrimOfTrimmed(target);
  }

  lemma ListPromisesCreation(cfg: Cfg, fs: Fs, peer: Peer, group: string, repo: string, env: Env)
    requires RepoMissing(cfg, fs, group, repo) && ResolveGroupPerm(cfg, fs, peer, group, Perm.Create)
    ensures HandleList(cfg, fs, peer, group, repo, true, env) == Done()
  {
    hide ResolveGroupPerm, Blocked, ResolvePermission;
  }

  /** Once a repository's name with ".allowed" added has been taken, the list still promises
      a creation to a Create-holder, and the push is refused. */
  lemma ObstructedByAName(cfg: Cfg, fs: Fs, peer: Peer, creator: Peer, group: string, repo: string, env: Env)
    requires RepoMissing(cfg, fs, group, repo) && RepoMissing(cfg, fs, group, repo + ".allowed")
    requires ResolveGroupPerm(cfg, fs, peer, group, Perm.Create)
    requires Repositories.CreateRepository(fs, cfg.repositories[group], repo + ".allowed", creator, env).Some?
    ensures var fs' := Repositories.CreateRepository(fs, cfg.repositories[group], repo + ".allowed", creator, env)
                       .value;
            && Obstructed(cfg, fs', group, repo)
            && HandleList(cfg, fs', peer, group, repo, true, env) == Done()
            && AuthorizePush(cfg, fs', peer, group, repo, env).Err?
  {
    hide ResolveGroupPerm, Repositories.CreateRepository, HandleList, AuthorizePush;
    var g, name := cfg.repositories[group], repo + ".allowed";
    var p, q := g + [repo], g + [name];
    var fs' := Repositories.CreateRepository(fs, g, name, creator, env).value;
    CreateShape(cfg, fs, creator, group, name, env);
    assert q[..|q| - 1] == g && AclPath(p) == q;
    CreationKeepsGroups(cfg, fs, fs', q, creator, group);
    SameGroupDecides(cfg, fs, fs', group, peer, Perm.Create);
    AclPathDiffers(p);
    StillMissing(cfg, fs, fs', creator, group, repo);
    ListPromisesCreation(cfg, fs', peer, group, repo, env);
    ObstructedIsRefused(cfg, fs', peer, group, repo, env);
  }

  lemma StillMissing(cfg: Cfg, fs: Fs, fs': Fs, creator: Peer, group: string, repo: string)
    requires RepoMissing(cfg, fs, group, repo)
    requires var q := cfg.repositories[group] + [repo + ".allowed"]; Created(fs, fs', q, creator)
    ensures Obstructed(cfg, fs', group, repo)
  {
    var g := cfg.repositories[group];
    var p, q := g + [repo], g + [repo + ".allowed"];
    assert AclPath(p) == q;
    AclPathDiffers(p);
    AclPathDiffers(q);
    assert |Base(AclPath(q))| > |Base(q)| > |Base(p)|;
    assert |AclPath(q)| == |q| == |g| + 1;
  }

  lemma ObstructedIsRefused(cfg: Cfg, fs: Fs, peer: Peer, group: string, repo: string, env: Env)
    requires Obstructed(cfg, fs, group, repo)
    ensures AuthorizePush(cfg, fs, peer, group, repo, env).Err?
  {
    hide ResolveGroupPerm, Blocked, ResolvePermission;
  }

  /** Two groups, the second in a directory inside the first, not yet there. */
  function NestedGroups(aliases: Aliases): Cfg {
    Cfg(map["g" := ["/", "g"], "h" := ["/", "g", "h"]], map["h" := ["c:all"]], aliases, [])
  }

  /** Creating a repository where the other group's directory belongs decides for that group. */
  lemma NestedGroupsInterfere(aliases: Aliases, creator: Peer, who: Peer, env: Env)
    requires env.initOk && env.aclWriteOk
    ensures var cfg, fs := NestedGroups(aliases), map[["/", "g"] := PLAIN_DIRECTORY];
            var made := Repositories.CreateRepository(fs, ["/", "g"], "h", creator, env);
            && made.Some? && !Settled(cfg, fs, ["/", "g", "h"])
            && !ResolveGroupPerm(cfg, fs, who, "h", Perm.Create) &&
              ResolveGroupPerm(cfg, made.value, who, "h", Perm.Create)
  {
    hide ListsOf, GroupInput, CreatorAcl, ResolveGroupPermission, AclPath;
    var cfg, fs := NestedGroups(aliases), map[["/", "g"] := PLAIN_DIRECTORY];
    var p: Path := ["/", "g", "h"];
    assert ["/", "g"] + ["h"] == p && p[..2] == ["/", "g"];
    AclPathDiffers(p);
    AclPathFront(p);
    assert AclPath(p) !in fs;
    OpenFor(GroupInput(Some(CreatorAcl(creator)), ["c:all"]), creator, aliases, who);
    var made := Repositories.CreateRepository(fs, ["/", "g"], "h", creator, env);
    assert "g" in cfg.repositories && "h" in cfg.repositories && cfg.repositories["h"][..2] == cfg.repositories["g"];
    assert GroupAccess(cfg, made.value, "h", p) == ListsOf(GroupInput(Some(CreatorAcl(creator)), ["c:all"]), aliases);
  }

  lemma OpenFor(input: string, creator: Peer, aliases: Aliases, who: Peer)
    requires input == GroupInput(Some(CreatorAcl(creator)), ["c:all"])
    ensures ResolveGroupPermission(ListsOf(input, aliases), who, Perm.Create)
  {
    hide ListsOf, GroupInput, CreatorAcl, OwnerOf;
    GroupIsUnion(CreatorAcl(creator), ["c:all"], aliases);
    CreatorAclLists(creator, aliases);
    OpenGroupLists(aliases);
    assert GroupInput(None, ["c:all"]) == JoinEntries(["c:all"]) by { NoFile(["c:all"]); }
    var u := ListsOf(input, aliases);
    assert Everyone in ListFor(NO_LISTS.(create := [Everyone]), Perm.Create);
    assert Everyone in ListFor(u, Perm.Create) && Nobody !in ListFor(u, Perm.Create);
  }

  lemma NoFile(entries: seq<string>)
    ensures GroupInput(None, entries) == JoinEntries(entries)
  {
  }
}
