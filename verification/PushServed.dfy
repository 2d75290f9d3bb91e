/**
  `rngit push` against the modelled server: the client's loop over its plan, request by
  request through the server's push handler, is the push of PushPlan.dfy.
 */
module PushServed {
  import opened Wrappers
  import opened Acl
  import opened Repositories
  import opened BundleFetch
  import opened GitServer
  import opened GitServerRuns
  import opened PushEffects
  import opened PushPlan

  /** The request for one ref of a plan: the same name on both sides, and the one bundle made
      for the whole plan. */
  function PushRequest(repository: string, r: LocalRef, force: bool, bundle: Bundle): Request {
    Request.Push(Some(repository), Some(r.name), Some(r.name), force, Some(bundle), None)
  }

  /** For a writer, the server's handler does what the client's plan counts on. */
  lemma PushOneIsServed(cfg: Cfg, fs: Fs, peer: Peer, group: string, repo: string, r: LocalRef, force: bool,
                        bundle: Bundle, env: Env)
    requires ResolvePerm(cfg, fs, peer, group, repo, Perm.Write)
    ensures group in cfg.repositories && IsDir(fs, RepoPath(cfg, group, repo))
    ensures var p := RepoPath(cfg, group, repo);
            var done := HandlePush(cfg, fs, peer, group, repo, PushRequest(group + "/" + repo, r, force, bundle), env);
            var fetched := ApplyPushBundle(fs[p], bundle, r.name, r.name, force, env);
            && Updated(fs, done.0, p) && done.0[p] == fetched.dir && (IsOk(done.1) <==> fetched.ok)
  {
    hide SanRef, TipFor, GitFetch, ParseRefspec, ResolvePerm, ResolveRepoAccess;
    WriteNeedsRepo(cfg, fs, peer, group, repo, Perm.Write);
    var p := RepoPath(cfg, group, repo);
    var done := HandlePush(cfg, fs, peer, group, repo, PushRequest(group + "/" + repo, r, force, bundle), env);
    assert done.0[p].Directory? && done.0 == fs[p := done.0[p]];
  }

  // ---------------------------------------------------------------- the client's loop

  /** The plan from the `k`-th ref on, pushed until the server refuses one. */
  function ServeFrom(cfg: Cfg, fs: Fs, peer: Peer, group: string, repo: string, plan: seq<LocalRef>, k: nat,
                     listed: Refs,
                     force: bool, bundle: Bundle, envs: nat -> Env): (Fs, nat)
    requires k <= |plan|
    decreases |plan| - k
  {
    if k == |plan| then (fs, k)
    else
      var req := PushRequest(group + "/" + repo, plan[k], force && plan[k].name in listed, bundle);
      var done := HandlePush(cfg, fs, peer, group, repo, req, envs(k));
      if !IsOk(done.1) then (done.0, k)
      else ServeFrom(cfg, done.0, peer, group, repo, plan, k + 1, listed, force, bundle, envs)
  }

  lemma SameWrite(cfg: Cfg, fs: Fs, fs': Fs, peer: Peer, group: string, repo: string)
    requires group in cfg.repositories && Updated(fs, fs', RepoPath(cfg, group, repo))
    ensures ResolvePerm(cfg, fs', peer, group, repo, Perm.Write) == ResolvePerm(cfg, fs, peer, group, repo, Perm.Write)
  {
    hide Blocked, ResolvePermission, ResolveRepoAccess, Updated;
    UpdateKeepsAccess(cfg, fs, fs', RepoPath(cfg, group, repo), group, repo);
  }

  /** For a writer, the loop over the server's handler is `PushFrom`. */
  lemma {:induction false} ServedIsPushFrom(cfg: Cfg, fs: Fs, peer: Peer, group: string, repo: string,
                                            plan: seq<LocalRef>, k: nat,
                                            listed: Refs, force: bool, bundle: Bundle, envs: nat -> Env)
    requires k <= |plan| && ResolvePerm(cfg, fs, peer, group, repo, Perm.Write)
    ensures group in cfg.repositories && IsDir(fs, RepoPath(cfg, group, repo))
    ensures var p, served := RepoPath(cfg, group, repo),
            ServeFrom(cfg, fs, peer, group, repo, plan, k, listed, force, bundle, envs);
            && IsDir(served.0, p)
            && Pushed(served.0[p], served.1) == PushFrom(plan, k, listed, fs[p], force, bundle, envs)
    decreases |plan| - k
  {
    hide HandlePush, ApplyPushBundle, ResolvePerm, ResolveRepoAccess;
    WriteNeedsRepo(cfg, fs, peer, group, repo, Perm.Write);
    if k < |plan| {
      var opForce := force && plan[k].name in listed;
      PushOneIsServed(cfg, fs, peer, group, repo, plan[k], opForce, bundle, envs(k));
      var done := HandlePush(cfg, fs, peer, group, repo, PushRequest(group + "/" + repo, plan[k], opForce, bundle),
        envs(k));
      if IsOk(done.1) {
        SameWrite(cfg, fs, done.0, peer, group, repo);
        ServedIsPushFrom(cfg, done.0, peer, group, repo, plan, k + 1, listed, force, bundle, envs);
      }
    }
  }

  /** What `rngit push` reads from the answer to its list request. */
  function ServerRefs(answer: Response): Refs {
    if answer.RefList? then answer.refs else map[]
  }

  /** `rngit push` by a writer, from the list to the last push: however far it gets, the
      repository's refs are the listed ones, the pushed prefix of the plan and new tags of the
      bundle; it goes all the way exactly when no ref is hindered, and then the refs agree with
      every local one. */
  lemma PushConverges(cfg: Cfg, fs: Fs, peer: Peer, group: string, repo: string, local: seq<LocalRef>, force: bool,
                      bundle: Bundle, envs: nat -> Env, listEnv: Env, history: History)
    requires ResolvePerm(cfg, fs, peer, group, repo, Perm.Write) && listEnv.listOk
    requires DistinctNames(local) && LocalNames(local) && SameHistory(envs, history) && TagsCreatable(bundle, envs)
    requires var listed := ServerRefs(HandleList(cfg, fs, peer, group, repo, true, listEnv));
             var plan := Plan(local, listed, force, history.ancestor); plan.Some? && MadeFor(bundle, plan.value)
    ensures group in cfg.repositories && IsDir(fs, RepoPath(cfg, group, repo))
    ensures var p, listed := RepoPath(cfg, group, repo),
            ServerRefs(HandleList(cfg, fs, peer, group, repo, true, listEnv));
            var plan := Plan(local, listed, force, history.ancestor).value;
            var served := ServeFrom(cfg, fs, peer, group, repo, plan, 0, listed, force, bundle, envs);
            && listed == fs[p].refs && IsDir(served.0, p) && served.1 <= |plan|
            && served.0[p].refs == listed + Followed(bundle, listed, served.0[p].refs) + Tips(plan[..served.1])
            && (served.1 == |plan| ==> served.0[p].refs == listed + Tips(local))
            && (served.1 == |plan| <==>
                forall i :: 0 <= i < |plan| ==> Unhindered(plan[i], listed, force, bundle, envs(i)))
  {
    hide HandlePush, ResolvePerm, Unhindered, PushFrom, Plan, ServeFrom, Tips, Followed, MadeFor, LocalNames;
    WriteNeedsRepo(cfg, fs, peer, group, repo, Perm.Write);
    var p, listed := RepoPath(cfg, group, repo), ServerRefs(HandleList(cfg, fs, peer, group, repo, true, listEnv));
    var plan := Plan(local, listed, force, history.ancestor).value;
    assert listed == fs[p].refs;
    ServedIsPushFrom(cfg, fs, peer, group, repo, plan, 0, listed, force, bundle, envs);
    var j := Convergence(local, fs[p], force, bundle, envs, history.ancestor);
    CompletesIff(local, fs[p], force, bundle, envs, history);
  }

  // ---------------------------------------------------------------- pushing into a repository that is not there

  /** A creator's first push creates the repository and sets its first ref, and every tag of
      the bundle with it. */
  lemma FirstPushCreates(cfg: Cfg, fs: Fs, peer: Peer, group: string, repo: string, r: LocalRef, bundle: Bundle,
                         env: Env)
    requires RepoMissing(cfg, fs, group, repo) && ResolveGroupPerm(cfg, fs, peer, group, Perm.Create)
    requires Repositories.CreateRepository(fs, cfg.repositories[group], repo, peer, env).Some?
    ensures var fs1 := Repositories.CreateRepository(fs, cfg.repositories[group], repo, peer, env).value;
            var done := HandlePush(cfg, fs, peer, group, repo, PushRequest(group + "/" + repo, r, false, bundle), env);
            var p, fetched := RepoPath(cfg, group, repo),
              ApplyPushBundle(EMPTY_REPOSITORY, bundle, r.name, r.name, false, env);
            && Updated(fs1, done.0, p) && done.0[p] == fetched.dir && (IsOk(done.1) <==> fetched.ok)
  {
    hide ResolveGroupPerm, Repositories.CreateRepository, RepoAccess, GroupAccess, Blocked, ResolvePermission, SanRef,
      ApplyPushBundle;
    var fs1, p := Repositories.CreateRepository(fs, cfg.repositories[group], repo, peer, env).value,
      RepoPath(cfg, group, repo);
    assert !ResolvePerm(cfg, fs, peer, group, repo, Perm.Write);
    CreateShape(cfg, fs, peer, group, repo, env);
    CreatedResolves(cfg, fs, peer, group, repo, env);
    NameIsChecked(EMPTY_REPOSITORY, bundle, r.name, env);
    var done := HandlePush(cfg, fs, peer, group, repo, PushRequest(group + "/" + repo, r, false, bundle), env);
    assert done.0[p].Directory? && done.0 == fs1[p := done.0[p]];
  }

  lemma NameIsChecked(dir: Node, bundle: Bundle, name: RefName, env: Env)
    requires dir.Directory?
    ensures !SanRef(name) ==> ApplyPushBundle(dir, bundle, name, name, false, env) == Fetched(dir, false)
  {
    hide SanRef, GitFetch;
  }

  /** The bundle of a first push: every local ref, and everything they need. */
  ghost predicate WholeBundle(bundle: Bundle, local: seq<LocalRef>) {
    MadeFor(bundle, local) && bundle.tips == Tips(local)
  }

  /** A client's first push: local refs, their whole bundle, one history, tags that git can create. */
  ghost predicate FirstPush(local: seq<LocalRef>, bundle: Bundle, envs: nat -> Env, history: History) {
    && DistinctNames(local) && LocalNames(local) && WholeBundle(bundle, local)
    && SameHistory(envs, history) && TagsCreatable(bundle, envs)
  }

  /** Nothing outside hinders a push into an empty repository. */
  ghost predicate NoneHindered(local: seq<LocalRef>, force: bool, bundle: Bundle, envs: nat -> Env) {
    forall i :: 0 <= i < |local| ==> Unhindered(local[i], map[], force, bundle, envs(i))
  }

  /** What the first of several pushes into a new repository leaves: its own ref and all tags. */
  function FirstRefs(local: seq<LocalRef>): Refs
    requires local != []
  {
    Tips(local[..1]) + map n | n in Tips(local) && IsTag(n) :: Tips(local)[n]
  }

  /** `rngit push` by a Create-holder into a missing repository: the list is empty and the
      first push creates the repository.  The rest of the pushes follow exactly when there is
      none, the peer's hex is no foreign alias or the group grants Write; otherwise the first
      ref is left, and all tags with it.  So the refs come to equal the local ones exactly when
      every ref after the first is a tag, the hex is no foreign alias or the group grants Write. */
  lemma CreatingPushConvergesIff(cfg: Cfg, fs: Fs, peer: Peer, group: string, repo: string, local: seq<LocalRef>,
                                 force: bool,
                                 bundle: Bundle, envs: nat -> Env, listEnv: Env, history: History)
    requires RepoMissing(cfg, fs, group, repo) && !Obstructed(cfg, fs, group, repo) && envs(0).initOk &&
             envs(0).aclWriteOk
    requires ResolveGroupPerm(cfg, fs, peer, group, Perm.Create)
    requires local != []
    ensures ServerRefs(HandleList(cfg, fs, peer, group, repo, true, listEnv)) == map[]
    ensures Plan(local, map[], force, history.ancestor) == Some(local)
    ensures var served := ServeFrom(cfg, fs, peer, group, repo, local, 0, map[], force, bundle, envs);
            var writes := PlainHex(cfg, peer) || ResolveGroupPerm(cfg, fs, peer, group, Perm.Write);
            FirstPush(local, bundle, envs, history) && NoneHindered(local, force, bundle, envs) ==>
              && group in cfg.repositories && IsDir(served.0, RepoPath(cfg, group, repo))
              && served.1 == (if |local| == 1 || writes then |local| else 1)
              && var refs := served.0[RepoPath(cfg, group, repo)].refs;
                 && refs == (if |local| == 1 || writes then Tips(local) else FirstRefs(local))
                 && (refs == Tips(local) <==> writes || forall i :: 1 <= i < |local| ==> IsTag(local[i].name))
  {
    hide HandlePush, HandleList, AuthorizePush, ResolvePerm, ResolveGroupPerm, Unhindered, Plan, Tips, PlainHex, Owner,
      Obstructed;
    hide Repositories.CreateRepository, LocalNames, MadeFor, PushFrom, FirstRefs, IsTag;
    ListPromisesCreation(cfg, fs, peer, group, repo, listEnv);
    CreationSucceeds(cfg, fs, peer, group, repo, envs(0));
    PlanFromNothing(local, force, history.ancestor);
    var p := RepoPath(cfg, group, repo);
    var fs1 := Repositories.CreateRepository(fs, cfg.repositories[group], repo, peer, envs(0)).value;
    CreateShape(cfg, fs, peer, group, repo, envs(0));
    CreationGrants(cfg, fs, peer, group, repo, envs(0), peer, Perm.Write);
    CreatorIsUnblocked(cfg, fs, peer, group);
    if FirstPush(local, bundle, envs, history) && NoneHindered(local, force, bundle, envs) {
      FirstPushCreates(cfg, fs, peer, group, repo, local[0], bundle, envs(0));
      OnEmpty(local, force, bundle, envs, history);
      FirstRefsIff(local);
      var done := HandlePush(cfg, fs, peer, group, repo, PushRequest(group + "/" + repo, local[0], false, bundle),
        envs(0));
      SameWrite(cfg, fs1, done.0, peer, group, repo);
      assert ServeFrom(cfg, fs, peer, group, repo, local, 0, map[], force, bundle, envs) ==
             ServeFrom(cfg, done.0, peer, group, repo, local, 1, map[], force, bundle, envs);
      if ResolvePerm(cfg, fs1, peer, group, repo, Perm.Write) {
        ServedIsPushFrom(cfg, done.0, peer, group, repo, local, 1, map[], force, bundle, envs);
      } else if |local| > 1 {
        WriteNeeded(cfg, done.0, peer, group, repo, PushRequest(group + "/" + repo, local[1], false, bundle), envs(1));
      }
    }
  }

  /** The same pushes on an empty repository: all go through, and the first brings the tags. */
  lemma OnEmpty(local: seq<LocalRef>, force: bool, bundle: Bundle, envs: nat -> Env, history: History)
    requires local != [] && FirstPush(local, bundle, envs, history)
    requires NoneHindered(local, force, bundle, envs)
    ensures var first := ApplyPushBundle(EMPTY_REPOSITORY, bundle, local[0].name, local[0].name, false, envs(0));
            && first.ok && first.dir.refs == FirstRefs(local)
            && PushFrom(local, 1, map[], first.dir, force, bundle, envs).dir.refs == Tips(local)
            && PushFrom(local, 1, map[], first.dir, force, bundle, envs).count == |local|
  {
    hide ApplyPushBundle, Unhindered, Plan, Tips, MadeFor, LocalNames, DistinctNames, NeedsPush, NonFastForward,
      FirstRefs;
    PlanFromNothing(local, force, history.ancestor);
    CompletesIff(local, EMPTY_REPOSITORY, force, bundle, envs, history);
    var j := Convergence(local, EMPTY_REPOSITORY, force, bundle, envs, history.ancestor);
    assert map[] + Tips(local) == Tips(local);
    FirstOnEmpty(local, bundle, envs(0));
  }

  lemma FirstOnEmpty(local: seq<LocalRef>, bundle: Bundle, env: Env)
    requires DistinctNames(local) && LocalNames(local) && local != [] && WholeBundle(bundle, local)
    requires ApplyPushBundle(EMPTY_REPOSITORY, bundle, local[0].name, local[0].name, false, env).ok
    ensures ApplyPushBundle(EMPTY_REPOSITORY, bundle, local[0].name, local[0].name, false, env).dir.refs ==
            FirstRefs(local)
  {
    hide GitFetch, Tips, DistinctNames, TipFor, SanRef, IsTag, IsBranch;
    var first := local[0];
    var spec := Refspec(false, first.name, first.name);
    PushIsFetchOf(EMPTY_REPOSITORY, bundle, first, false, env);
    FetchObjects(EMPTY_REPOSITORY, bundle, spec, first.sha, false, env);
    FirstTip(local);
    InPlanIs(local, 0);
    var after := GitFetch(EMPTY_REPOSITORY, bundle, spec, first.sha, false, env).dir.refs;
    forall n ensures (n in after <==> n in FirstRefs(local)) && (n in after ==> after[n] == FirstRefs(local)[n]) {
      FetchAt(EMPTY_REPOSITORY, bundle, spec, first.sha, false, env, n);
      FetchBrings(EMPTY_REPOSITORY, bundle, spec, first.sha, false, env, n);
      assert n in bundle.tips ==> bundle.tips[n] in bundle.tips.Values;
    }
  }

  lemma FirstTip(local: seq<LocalRef>)
    requires local != []
    ensures Tips(local[..1]) == map[local[0].name := local[0].sha]
  {
    assert local[..1][..0] == [];
    assert Tips([]) == map[];
  }

  lemma FirstRefsAt(local: seq<LocalRef>, n: RefName)
    requires local != [] && DistinctNames(local)
    ensures n in FirstRefs(local) <==> n == local[0].name || (n in Tips(local) && IsTag(n))
    ensures n in FirstRefs(local) ==> n in Tips(local) && FirstRefs(local)[n] == Tips(local)[n]
  {
    hide Tips, IsTag, DistinctNames;
    FirstTip(local);
    InPlanIs(local, 0);
  }

  /** The first ref and the tags are everything exactly when every later ref is a tag. */
  lemma FirstRefsIff(local: seq<LocalRef>)
    requires local != [] && DistinctNames(local)
    ensures FirstRefs(local) == Tips(local) <==> forall i :: 1 <= i < |local| ==> IsTag(local[i].name)
    ensures |local| == 1 ==> FirstRefs(local) == Tips(local)
  {
    hide Tips, IsTag, FirstRefs;
    TipsAre(local);
    if forall i :: 1 <= i < |local| ==> IsTag(local[i].name) {
      forall n
        ensures n in FirstRefs(local) <==> n in Tips(local)
        ensures n in Tips(local) ==> FirstRefs(local)[n] == Tips(local)[n]
      {
        FirstRefsAt(local, n);
        if n in Tips(local) {
          var i :| 0 <= i < |local| && local[i].name == n;
        }
      }
    } else {
      var i :| 1 <= i < |local| && !IsTag(local[i].name);
      FirstRefsAt(local, local[i].name);
    }
  }

  lemma WriteNeeded(cfg: Cfg, fs: Fs, peer: Peer, group: string, repo: string, req: Request, env: Env)
    requires req.Push? && group in cfg.repositories && IsDir(fs, RepoPath(cfg, group, repo))
    requires !ResolvePerm(cfg, fs, peer, group, repo, Perm.Write)
    ensures HandlePush(cfg, fs, peer, group, repo, req, env).0 == fs &&
            !IsOk(HandlePush(cfg, fs, peer, group, repo, req, env).1)
  {
    hide ResolvePerm, ResolveGroupPerm;
  }

  lemma CreationSucceeds(cfg: Cfg, fs: Fs, peer: Peer, group: string, repo: string, env: Env)
    requires RepoMissing(cfg, fs, group, repo) && !Obstructed(cfg, fs, group, repo) && env.initOk && env.aclWriteOk
    ensures group in cfg.repositories &&
            Repositories.CreateRepository(fs, cfg.repositories[group], repo, peer, env).Some?
  {
  }

  /** With nothing on the server, the plan is every local ref. */
  lemma {:induction false} PlanFromNothing(local: seq<LocalRef>, force: bool, ancestor: Ancestor)
    ensures Plan(local, map[], force, ancestor) == Some(local)
  {
    if local != [] {
      PlanFromNothing(local[..|local| - 1], force, ancestor);
      assert local == local[..|local| - 1] + [local[|local| - 1]];
    }
  }

  // ---------------------------------------------------------------- a branch and a tag

  /** A main branch and a tag on it. */
  function BranchAndTag(commit: Sha): seq<LocalRef> {
    [LocalRef(commit, "refs/heads/main"), LocalRef(commit, "refs/tags/v")]
  }

  /** A creator with no right to write pushes a branch and a tag: the push of the tag is
      refused, yet both refs are there, because the first push brought the tag along. */
  lemma RefusedTagIsThere(cfg: Cfg, fs: Fs, peer: Peer, group: string, repo: string, commit: Sha, history: History)
    requires RepoMissing(cfg, fs, group, repo) && !Obstructed(cfg, fs, group, repo)
    requires ResolveGroupPerm(cfg, fs, peer, group, Perm.Create) && !ResolveGroupPerm(cfg, fs, peer, group, Perm.Write)
    requires !PlainHex(cfg, peer) && history.kind(commit) == Commit
    ensures var local := BranchAndTag(commit);
            var served := ServeFrom(cfg, fs, peer, group, repo, local, 0, map[], false, Bundle(Tips(local), {commit}),
              _ => AllWell(history));
            && group in cfg.repositories && served.1 == 1
            && IsDir(served.0, RepoPath(cfg, group, repo)) && served.0[RepoPath(cfg, group, repo)].refs == Tips(local)
  {
    hide ServeFrom, Tips, AllWell, ResolveGroupPerm, PlainHex, RepoMissing, Obstructed, WholeBundle, Unhindered,
      BranchAndTag;
    var local, env := BranchAndTag(commit), AllWell(history);
    BranchAndTagFacts(commit, history);
    AllWellFacts(history);
    CreatingPushConvergesIff(cfg, fs, peer, group, repo, local, false, Bundle(Tips(local), {commit}), _ => env, env,
      history);
  }

  lemma AllWellFacts(history: History)
    ensures var env := AllWell(history);
            env.initOk && env.aclWriteOk && env.history == history && forall n :: env.tagOk(n)
  {
  }

  lemma BranchAndTagFacts(commit: Sha, history: History)
    requires history.kind(commit) == Commit
    ensures var local := BranchAndTag(commit); var bundle := Bundle(Tips(local), {commit});
            && DistinctNames(local) && LocalNames(local) && WholeBundle(bundle, local) && |local| == 2 &&
              IsTag(local[1].name)
            && NoneHindered(local, false, bundle, _ => AllWell(history))
  {
    hide SanRef, BranchAndTag, Tips, TipFor, DistinctNames;
    var local := BranchAndTag(commit);
    BranchAndTagTips(commit);
    BranchAndTagNames();
    forall i | 0 <= i < |local| ensures TipFor(Tips(local), local[i].name) == Some(commit) {
      InPlanIs(local, i);
      NamedTip(Tips(local), local[i].name);
    }
  }

  lemma BranchAndTagNames()
    ensures SanRef("refs/heads/main") && SanRef("refs/tags/v") && IsBranch("refs/heads/main") && IsTag("refs/tags/v")
  {
    hide SanRef;
    PlainIsSane("refs/heads/main");
    PlainIsSane("refs/tags/v");
  }

  lemma BranchAndTagTips(commit: Sha)
    ensures var local := BranchAndTag(commit);
            && |local| == 2 && DistinctNames(local)
            && local[0] == LocalRef(commit, "refs/heads/main") && local[1] == LocalRef(commit, "refs/tags/v")
            && Tips(local).Values == {commit}
  {
    var local := BranchAndTag(commit);
    assert local[..2] == local && local[..1] == [local[0]];
    TipsStep(local, 0);
    TipsStep(local, 1);
    assert Tips(local[..0]) == map[];
    assert local[0].name[5] == 'h' && local[1].name[5] == 't';
    assert Tips(local)["refs/heads/main"] == commit;
  }

  lemma NamedTip(tips: Refs, name: RefName)
    requires name in tips
    ensures TipFor(tips, name) == Some(tips[name])
  {
  }
}
