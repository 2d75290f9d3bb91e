/**
  `rngit push` (cmd_push in src/bin/rngit.rs): which refs it decides to push, and what
  the server's repository is when it stops.  The server fetches each ref from the one
  bundle made for the whole plan, as BundleFetch.dfy describes.
 */
module PushPlan {
  import opened Wrappers
  import opened Repositories
  import opened Text
  import opened BundleFetch

  type Sha = string
  type RefName = string

  /** One local ref as `for-each-ref` lists it. */
  datatype LocalRef = LocalRef(sha: Sha, name: RefName)

  ghost predicate DistinctNames(local: seq<LocalRef>) {
    forall i, j :: 0 <= i < j < |local| ==> local[i].name != local[j].name
  }

  function Tips(local: seq<LocalRef>): Refs {
    if local == [] then map[]
    else
      var last := local[|local| - 1];
      Tips(local[..|local| - 1])[last.name := last.sha]
  }

  // ---------------------------------------------------------------- planning

  /** An update the client refuses to make without --force. */
  predicate NonFastForward(r: LocalRef, server: Refs, ancestor: Ancestor) {
    r.name in server && server[r.name] != r.sha && !ancestor(server[r.name], r.sha)
  }

  predicate NeedsPush(r: LocalRef, server: Refs) {
    r.name !in server || server[r.name] != r.sha
  }

  /** The refs to push in order, or nothing when some update is refused. */
  function Plan(local: seq<LocalRef>, server: Refs, force: bool, ancestor: Ancestor): Option<seq<LocalRef>> {
    if local == [] then Some([])
    else
      var r := local[|local| - 1];
      match Plan(local[..|local| - 1], server, force, ancestor)
      case None => None
      case Some(p) =>
        if !force && NonFastForward(r, server, ancestor) then None
        else Some(if NeedsPush(r, server) then p + [r] else p)
  }

  method PlanPush(local: seq<LocalRef>, server: Refs, force: bool,
                  ancestor: Ancestor) returns (plan: Option<seq<LocalRef>>)
    ensures plan == Plan(local, server, force, ancestor)
  {
    var refsToPush: seq<LocalRef> := [];
    for i := 0 to |local|
      invariant Plan(local[..i], server, force, ancestor) == Some(refsToPush)
    {
      var r := local[i];
      assert local[..i + 1][..i] == local[..i];
      if r.name !in server {
        refsToPush := refsToPush + [r];
      } else if server[r.name] != r.sha {
        if !force && !ancestor(server[r.name], r.sha) {
          RefusedForGood(local, server, force, ancestor, i + 1);
          return None;
        }
        refsToPush := refsToPush + [r];
      }
    }
    assert local[..|local|] == local;
    return Some(refsToPush);
  }

  lemma {:induction false} RefusedForGood(local: seq<LocalRef>, server: Refs, force: bool, ancestor: Ancestor, n: nat)
    requires n <= |local| && Plan(local[..n], server, force, ancestor).None?
    ensures Plan(local, server, force, ancestor).None?
    decreases |local| - n
  {
    if n < |local| {
      assert local[..n + 1][..n] == local[..n];
      RefusedForGood(local, server, force, ancestor, n + 1);
    } else {
      assert local[..n] == local;
    }
  }

  /** The push is refused up front exactly when, unforced, some local ref does not descend from the server's. */
  lemma {:induction false} PlanRefusedIff(local: seq<LocalRef>, server: Refs, force: bool, ancestor: Ancestor)
    ensures Plan(local, server, force, ancestor).None? <==>
            !force && (exists r ::
                         r in local && r.name in server && server[r.name] != r.sha && !ancestor(server[r.name], r.sha))
  {
    if local != [] {
      var front := local[..|local| - 1];
      PlanRefusedIff(front, server, force, ancestor);
      assert forall i :: 0 <= i < |front| ==> local[i] == front[i];
    }
  }

  // ---------------------------------------------------------------- pushing

  /** The bundle for a plan: none when a name of it is refused as an argument, or git fails. */
  function MakeBundle(plan: seq<LocalRef>, made: Option<Bundle>): Option<Bundle> {
    if forall i :: 0 <= i < |plan| ==> SanRef(plan[i].name) then made else None
  }

  /** The bundles git makes for a plan: with the tips and objects of those of its refs that
      bring anything new, no ref's name being short for another's. */
  ghost predicate MadeFor(bundle: Bundle, plan: seq<LocalRef>) {
    && (forall n :: n in bundle.tips ==> n in Tips(plan) && Tips(plan)[n] == bundle.tips[n])
    && bundle.tips.Values <= bundle.objects
    && forall i :: 0 <= i < |plan| ==> TipFor(bundle.tips, plan[i].name) in {None, Some(plan[i].sha)}
  }

  /** The server's repository after a push, and how many refs it accepted. */
  datatype Pushed = Pushed(dir: Node, count: nat)

  /** Pushes the plan one by one from the `k`-th on, stopping at the first failure. */
  function PushFrom(plan: seq<LocalRef>, k: nat, listed: Refs, dir: Node, force: bool, bundle: Bundle,
                    envs: nat -> Env): (r: Pushed)
    requires k <= |plan| && dir.Directory?
    ensures r.dir.Directory? && k <= r.count <= |plan|
    decreases |plan| - k
  {
    if k == |plan| then Pushed(dir, k)
    else
      var name := plan[k].name;
      var fetched := ApplyPushBundle(dir, bundle, name, name, force && name in listed, envs(k));
      if fetched.ok then PushFrom(plan, k + 1, listed, fetched.dir, force, bundle, envs) else Pushed(fetched.dir, k)
  }

  class Remote {
    var dir: Node

    constructor (dir: Node)
      ensures this.dir == dir
    {
      this.dir := dir;
    }

    method Push(name: RefName, force: bool, bundle: Bundle, env: Env) returns (ok: bool)
      requires dir.Directory?
      modifies this
      ensures Fetched(dir, ok) == ApplyPushBundle(old(dir), bundle, name, name, force, env)
    {
      var fetched := ApplyPushBundle(dir, bundle, name, name, force, env);
      dir, ok := fetched.dir, fetched.ok;
    }
  }

  /** What the command ends with: refused, without a bundle, or so many refs of the plan pushed. */
  datatype Outcome = Refused | NoBundle | Stopped(count: nat, of: nat)

  /** What the command ends with, and the server's repository then. */
  function PushOutcome(local: seq<LocalRef>, dir: Node, force: bool, made: Option<Bundle>, envs: nat -> Env,
                       ancestor: Ancestor): (Outcome, Node)
    requires dir.Directory?
  {
    var plan := Plan(local, dir.refs, force, ancestor);
    if plan.None? then (Refused, dir)
    else if plan.value == [] then (Stopped(0, 0), dir)
    else
      var bundle := MakeBundle(plan.value, made);
      if bundle.None? then (NoBundle, dir)
      else
        var r := PushFrom(plan.value, 0, dir.refs, dir, force, bundle.value, envs);
        (Stopped(r.count, |plan.value|), r.dir)
  }

  method CmdPush(local: seq<LocalRef>, remote: Remote, force: bool, made: Option<Bundle>, envs: nat -> Env,
                 ancestor: Ancestor) returns (o: Outcome)
    requires remote.dir.Directory?
    modifies remote
    ensures (o, remote.dir) == PushOutcome(local, old(remote.dir), force, made, envs, ancestor)
  {
    hide ApplyPushBundle, Plan, MakeBundle;
    var server := remote.dir.refs;
    var planned := PlanPush(local, server, force, ancestor);
    if planned.None? { return Refused; }
    var plan := planned.value;
    if plan == [] { return Stopped(0, 0); }
    var bundled := MakeBundle(plan, made);
    if bundled.None? { return NoBundle; }
    o := PushAll(plan, server, remote, force, bundled.value, envs);
  }

  method PushAll(plan: seq<LocalRef>, listed: Refs, remote: Remote, force: bool, bundle: Bundle,
                 envs: nat -> Env) returns (o: Outcome)
    requires remote.dir.Directory?
    modifies remote
    ensures var r := PushFrom(plan, 0, listed, old(remote.dir), force, bundle, envs);
            o == Stopped(r.count, |plan|) && remote.dir == r.dir
  {
    hide ApplyPushBundle;
    ghost var was := remote.dir;
    var k := 0;
    while k < |plan|
      invariant 0 <= k <= |plan| && remote.dir.Directory?
      invariant PushFrom(plan, 0, listed, was, force, bundle, envs) ==
                PushFrom(plan, k, listed, remote.dir, force, bundle, envs)
    {
      var name := plan[k].name;
      var ok := remote.Push(name, force && name in listed, bundle, envs(k));
      if !ok { return Stopped(k, |plan|); }
      k := k + 1;
    }
    return Stopped(k, |plan|);
  }

  // ---------------------------------------------------------------- what a push leaves behind

  /** Every ref planned is a local one the server lacks or has elsewhere, and may be moved. */
  ghost predicate Within(plan: seq<LocalRef>, local: seq<LocalRef>, server: Refs, force: bool, ancestor: Ancestor) {
    forall i :: 0 <= i < |plan| ==>
      plan[i] in local && NeedsPush(plan[i], server) && (force || !NonFastForward(plan[i], server, ancestor))
  }

  ghost predicate PlanFacts(plan: seq<LocalRef>, local: seq<LocalRef>, server: Refs, force: bool, ancestor: Ancestor) {
    && DistinctNames(plan)
    && Within(plan, local, server, force, ancestor)
    && (forall i :: 0 <= i < |local| && NeedsPush(local[i], server) ==> local[i] in plan)
  }

  lemma {:induction false} PlanWithin(local: seq<LocalRef>, server: Refs, force: bool, ancestor: Ancestor)
    requires Plan(local, server, force, ancestor).Some?
    ensures Within(Plan(local, server, force, ancestor).value, local, server, force, ancestor)
  {
    hide NonFastForward, NeedsPush;
    if local != [] {
      PlanWithin(local[..|local| - 1], server, force, ancestor);
      assert local == local[..|local| - 1] + [local[|local| - 1]];
    }
  }

  lemma {:induction false} PlanDistinct(local: seq<LocalRef>, server: Refs, force: bool, ancestor: Ancestor)
    requires DistinctNames(local) && Plan(local, server, force, ancestor).Some?
    ensures DistinctNames(Plan(local, server, force, ancestor).value)
  {
    hide NonFastForward, NeedsPush;
    if local != [] {
      var front := local[..|local| - 1];
      PlanDistinct(front, server, force, ancestor);
      PlanWithin(front, server, force, ancestor);
      LastIsNew(Plan(front, server, force, ancestor).value, local);
    }
  }

  lemma LastIsNew(p: seq<LocalRef>, local: seq<LocalRef>)
    requires local != [] && DistinctNames(local)
    requires forall i :: 0 <= i < |p| ==> p[i] in local[..|local| - 1]
    ensures forall i :: 0 <= i < |p| ==> p[i].name != local[|local| - 1].name
  {
    forall i | 0 <= i < |p| ensures p[i].name != local[|local| - 1].name {
      var j :| 0 <= j < |local| - 1 && local[j] == p[i];
    }
  }

  lemma {:induction false} PlanComplete(local: seq<LocalRef>, server: Refs, force: bool, ancestor: Ancestor)
    requires Plan(local, server, force, ancestor).Some?
    ensures forall i :: 0 <= i < |local| && NeedsPush(local[i], server) ==>
              local[i] in Plan(local, server, force, ancestor).value
  {
    hide NonFastForward, NeedsPush;
    if local != [] {
      var front, r := local[..|local| - 1], local[|local| - 1];
      PlanComplete(front, server, force, ancestor);
      assert local == front + [r];
    }
  }

  /** A plan holds exactly the local refs the server lacks or has elsewhere. */
  lemma PlanIsWhatDiffers(local: seq<LocalRef>, server: Refs, force: bool, ancestor: Ancestor)
    requires DistinctNames(local) && Plan(local, server, force, ancestor).Some?
    ensures PlanFacts(Plan(local, server, force, ancestor).value, local, server, force, ancestor)
    ensures forall r :: r in Plan(local, server, force, ancestor).value <==>
              r in local && (r.name !in server || server[r.name] != r.sha)
  {
    hide Plan, NonFastForward, NeedsPush;
    PlanWithin(local, server, force, ancestor);
    PlanDistinct(local, server, force, ancestor);
    PlanComplete(local, server, force, ancestor);
    PlanMembers(Plan(local, server, force, ancestor).value, local, server, force, ancestor);
  }

  lemma PlanMembers(plan: seq<LocalRef>, local: seq<LocalRef>, server: Refs, force: bool, ancestor: Ancestor)
    requires Within(plan, local, server, force, ancestor)
    requires forall i :: 0 <= i < |local| && NeedsPush(local[i], server) ==> local[i] in plan
    ensures forall r :: r in plan <==> r in local && (r.name !in server || server[r.name] != r.sha)
  {
    hide NonFastForward;
    forall r | r in plan ensures r in local && (r.name !in server || server[r.name] != r.sha) {
      var i :| 0 <= i < |plan| && plan[i] == r;
    }
    forall r | r in local && (r.name !in server || server[r.name] != r.sha) ensures r in plan {
      var i :| 0 <= i < |local| && local[i] == r;
    }
  }

  /** Positions in `local`, in order, of the refs of a plan. */
  ghost predicate InOrder(plan: seq<LocalRef>, local: seq<LocalRef>, at: seq<nat>) {
    && |at| == |plan| && (forall i :: 0 <= i < |at| ==> at[i] < |local| && local[at[i]] == plan[i])
    && forall i, j :: 0 <= i < j < |at| ==> at[i] < at[j]
  }

  /** A plan keeps the order in which git lists the local refs. */
  lemma {:induction false} PlanInOrder(local: seq<LocalRef>, server: Refs, force: bool,
                                       ancestor: Ancestor) returns (at: seq<nat>)
    requires Plan(local, server, force, ancestor).Some?
    ensures InOrder(Plan(local, server, force, ancestor).value, local, at)
  {
    hide NonFastForward, NeedsPush;
    at := [];
    if local != [] {
      var front, r := local[..|local| - 1], local[|local| - 1];
      at := PlanInOrder(front, server, force, ancestor);
      if NeedsPush(r, server) { at := at + [|local| - 1]; }
    }
  }

  lemma {:induction false} TipAt(local: seq<LocalRef>, i: nat)
    requires DistinctNames(local) && i < |local|
    ensures local[i].name in Tips(local) && Tips(local)[local[i].name] == local[i].sha
  {
    var front := local[..|local| - 1];
    if i < |front| {
      TipAt(front, i);
      assert local[i] == front[i] && local[i].name != local[|local| - 1].name;
    }
  }

  lemma {:induction false} TipOf(local: seq<LocalRef>, n: RefName)
    ensures n in Tips(local) ==> exists i :: 0 <= i < |local| && local[i].name == n
  {
    if local != [] {
      var front := local[..|local| - 1];
      TipOf(front, n);
      if n in Tips(front) {
        var i :| 0 <= i < |front| && front[i].name == n;
        assert local[i].name == n;
      } else if n in Tips(local) {
        assert local[|local| - 1].name == n;
      }
    }
  }

  lemma TipsAre(local: seq<LocalRef>)
    requires DistinctNames(local)
    ensures forall n :: n in Tips(local) <==> exists i :: 0 <= i < |local| && local[i].name == n
    ensures forall i :: 0 <= i < |local| ==> local[i].name in Tips(local) && Tips(local)[local[i].name] == local[i].sha
  {
    hide Tips, DistinctNames;
    forall i | 0 <= i < |local| ensures local[i].name in Tips(local) && Tips(local)[local[i].name] == local[i].sha {
      TipAt(local, i);
    }
    forall n ensures n in Tips(local) ==> exists i :: 0 <= i < |local| && local[i].name == n {
      TipOf(local, n);
    }
  }

  lemma NotYetPushed(plan: seq<LocalRef>, k: nat)
    requires k < |plan| && DistinctNames(plan)
    ensures plan[k].name !in Tips(plan[..k])
  {
    hide Tips;
    PrefixDistinct(plan, k);
    TipsAre(plan[..k]);
    assert forall i :: 0 <= i < k ==> plan[..k][i].name == plan[i].name != plan[k].name;
  }

  lemma PrefixDistinct(plan: seq<LocalRef>, k: nat)
    requires k <= |plan| && DistinctNames(plan)
    ensures DistinctNames(plan[..k])
  {
  }

  /** Local refs are branches and tags. */
  ghost predicate LocalNames(local: seq<LocalRef>) {
    forall i :: 0 <= i < |local| ==> IsBranch(local[i].name) || IsTag(local[i].name)
  }

  /** All pushes of a plan meet the same history. */
  ghost predicate SameHistory(envs: nat -> Env, history: History) {
    forall i: nat :: envs(i).history == history
  }

  /** Git can create every tag of the bundle. */
  ghost predicate TagsCreatable(bundle: Bundle, envs: nat -> Env) {
    forall i: nat, n :: n in bundle.tips ==> envs(i).tagOk(n)
  }

  /** Local names are full names, which the server's git reads as they are. */
  lemma PushIsFetchOf(dir: Node, bundle: Bundle, r: LocalRef, force: bool, env: Env)
    requires dir.Directory? && (IsBranch(r.name) || IsTag(r.name)) && TipFor(bundle.tips, r.name) in {None, Some(r.sha)}
    ensures ApplyPushBundle(dir, bundle, r.name, r.name, force, env) ==
            if env.bundleOk && SanRef(r.name) && TipFor(bundle.tips, r.name).Some?
            then GitFetch(dir, bundle, Refspec(false, r.name, r.name), r.sha, force, env) else Fetched(dir, false)
  {
    hide SanRef, TipFor, GitFetch;
    FullNames(r.name);
  }

  lemma FullNames(name: RefName)
    requires IsBranch(name) || IsTag(name)
    ensures ParseRefspec(name, name) == Some(Refspec(false, name, name))
  {
    assert name[..5] == REFS_PREFIX && name[0] == 'r';
  }

  // ---------------------------------------------------------------- how far a push gets

  /** A ref after the first `k` of the plan: pushed, as it was, or a new tag of the bundle. */
  ghost predicate ReachedAt(plan: seq<LocalRef>, k: nat, server: Refs, bundle: Bundle, refs: Refs, n: RefName)
    requires k <= |plan|
  {
    if n in Tips(plan[..k]) then n in refs && refs[n] == Tips(plan[..k])[n]
    else if n in server then n in refs && refs[n] == server[n]
    else n in refs ==> n in bundle.tips && IsTag(n) && refs[n] == bundle.tips[n]
  }

  ghost predicate Reached(plan: seq<LocalRef>, k: nat, server: Refs, bundle: Bundle, refs: Refs)
    requires k <= |plan|
  {
    forall n :: ReachedAt(plan, k, server, bundle, refs, n)
  }

  /** The new tags of the bundle that have been created. */
  function Followed(bundle: Bundle, server: Refs, refs: Refs): Refs {
    map n | n in NewTags(bundle, server) && n in refs :: bundle.tips[n]
  }

  lemma ReachedMeans(plan: seq<LocalRef>, k: nat, server: Refs, bundle: Bundle, refs: Refs)
    requires k <= |plan| && Reached(plan, k, server, bundle, refs)
    ensures refs == server + Followed(bundle, server, refs) + Tips(plan[..k])
  {
    hide Tips, IsTag;
    var tips, all := Tips(plan[..k]), server + Followed(bundle, server, refs) + Tips(plan[..k]);
    forall n ensures (n in refs <==> n in all) && (n in refs ==> refs[n] == all[n]) {
      assert ReachedAt(plan, k, server, bundle, refs, n);
    }
  }

  lemma TipsStep(plan: seq<LocalRef>, k: nat)
    requires k < |plan|
    ensures Tips(plan[..k + 1]) == Tips(plan[..k])[plan[k].name := plan[k].sha]
  {
    assert plan[..k + 1][..k] == plan[..k];
  }

  lemma InPlanIs(plan: seq<LocalRef>, k: nat)
    requires k < |plan| && DistinctNames(plan)
    ensures plan[k].name in Tips(plan) && Tips(plan)[plan[k].name] == plan[k].sha
  {
    hide Tips;
    TipsAre(plan);
  }

  /** A named ref that git refuses stays where it was. */
  lemma RefusedStays(dir: Node, bundle: Bundle, spec: Refspec, tip: Sha, force: bool, env: Env)
    requires dir.Directory? && (forall n :: n in bundle.tips ==> env.tagOk(n))
    requires spec.destination in bundle.tips ==> bundle.tips[spec.destination] == tip
    requires !GitFetch(dir, bundle, spec, tip, force, env).ok
    ensures var after, m := GitFetch(dir, bundle, spec, tip, force, env).dir.refs, spec.destination;
            (m in after <==> m in dir.refs) && (m in after ==> after[m] == dir.refs[m])
  {
    hide Accepts, IsTag;
    FetchSucceedsIff(dir, bundle, spec, tip, force, env);
  }

  /** One fetch moves on to `k + 1` when the named ref moved, and otherwise stays at `k`. */
  lemma FetchReaches(plan: seq<LocalRef>, k: nat, server: Refs, bundle: Bundle, dir: Node, force: bool,
                     env: Env) returns (j: nat)
    requires k < |plan| && dir.Directory? && DistinctNames(plan) && MadeFor(bundle, plan)
    requires Reached(plan, k, server, bundle, dir.refs)
    ensures k <= j <= k + 1
    ensures var f := GitFetch(dir, bundle, Refspec(false, plan[k].name, plan[k].name), plan[k].sha, force, env);
            && Reached(plan, j, server, bundle, f.dir.refs)
            && (f.ok ==> j == k + 1)
            && (!f.ok && (forall n :: n in bundle.tips ==> env.tagOk(n)) ==> j == k)
  {
    hide GitFetch, Tips, Accepts, IsTag, IsBranch, TipFor;
    var m, tip := plan[k].name, plan[k].sha;
    var spec := Refspec(false, m, m);
    var f := GitFetch(dir, bundle, spec, tip, force, env);
    NotYetPushed(plan, k);
    TipsStep(plan, k);
    InPlanIs(plan, k);
    var moved := m in f.dir.refs && f.dir.refs[m] == tip && (m in dir.refs ==> dir.refs[m] != tip);
    j := if moved || f.ok then k + 1 else k;
    if f.ok { FetchBrings(dir, bundle, spec, tip, force, env, m); }
    if !f.ok && forall n :: n in bundle.tips ==> env.tagOk(n) {
      RefusedStays(dir, bundle, spec, tip, force, env);
      j := k;
    }
    forall n ensures ReachedAt(plan, j, server, bundle, f.dir.refs, n) {
      FetchAt(dir, bundle, spec, tip, force, env, n);
      assert ReachedAt(plan, k, server, bundle, dir.refs, n);
    }
  }

  /** A push reaches its count, or one more where git moved the ref but could not create a tag. */
  lemma {:induction false} PushReaches(plan: seq<LocalRef>, k: nat, server: Refs, listed: Refs, dir: Node, force: bool,
                                       bundle: Bundle,
                                       envs: nat -> Env) returns (j: nat)
    requires k <= |plan| && dir.Directory? && DistinctNames(plan) && LocalNames(plan) && MadeFor(bundle, plan)
    requires Reached(plan, k, server, bundle, dir.refs)
    ensures var r := PushFrom(plan, k, listed, dir, force, bundle, envs);
            && r.count <= j <= r.count + 1 && j <= |plan|
            && Reached(plan, j, server, bundle, r.dir.refs)
            && (TagsCreatable(bundle, envs) ==> j == r.count)
    decreases |plan| - k
  {
    hide GitFetch, ApplyPushBundle, Tips, IsTag, IsBranch, TipFor, Reached, DistinctNames, SanRef;
    j := k;
    if k < |plan| {
      var r, env := plan[k], envs(k);
      var opForce := force && r.name in listed;
      PushIsFetchOf(dir, bundle, r, opForce, env);
      var fetched := ApplyPushBundle(dir, bundle, r.name, r.name, opForce, env);
      if env.bundleOk && SanRef(r.name) && TipFor(bundle.tips, r.name).Some? {
        j := FetchReaches(plan, k, server, bundle, dir, opForce, env);
        if fetched.ok { j := PushReaches(plan, k + 1, server, listed, fetched.dir, force, bundle, envs); }
      }
    }
  }

  lemma StartReached(plan: seq<LocalRef>, bundle: Bundle, server: Refs)
    ensures Reached(plan, 0, server, bundle, server)
  {
    assert plan[..0] == [];
  }

  /** However far a push gets, the server's refs are what they were, the pushed prefix of the
      plan and new tags of the bundle; a completed push makes them agree with every local ref
      and leaves the rest alone.  The ref that stopped it may have moved where git could not
      create a followed tag. */
  lemma Convergence(local: seq<LocalRef>, dir: Node, force: bool, bundle: Bundle, envs: nat -> Env,
                    ancestor: Ancestor) returns (j: nat)
    requires dir.Directory? && DistinctNames(local) && LocalNames(local)
    requires var plan := Plan(local, dir.refs, force, ancestor); plan.Some? && MadeFor(bundle, plan.value)
    ensures var plan := Plan(local, dir.refs, force, ancestor).value;
            var r := PushFrom(plan, 0, dir.refs, dir, force, bundle, envs);
            && r.count <= j <= r.count + 1 && j <= |plan| && (TagsCreatable(bundle, envs) ==> j == r.count)
            && r.dir.refs == dir.refs + Followed(bundle, dir.refs, r.dir.refs) + Tips(plan[..j])
            && (r.count == |plan| ==> r.dir.refs == dir.refs + Tips(local))
  {
    hide PushFrom, NeedsPush, NonFastForward, Reached, Tips, IsTag, IsBranch;
    var plan := Plan(local, dir.refs, force, ancestor).value;
    PlanIsWhatDiffers(local, dir.refs, force, ancestor);
    PlanNames(plan, local, dir.refs, force, ancestor);
    StartReached(plan, bundle, dir.refs);
    j := PushReaches(plan, 0, dir.refs, dir.refs, dir, force, bundle, envs);
    var r := PushFrom(plan, 0, dir.refs, dir, force, bundle, envs);
    ReachedMeans(plan, j, dir.refs, bundle, r.dir.refs);
    if r.count == |plan| {
      assert plan[..|plan|] == plan;
      assert dir.refs + Followed(bundle, dir.refs, r.dir.refs) + Tips(plan) == dir.refs + Tips(plan);
      FullPlan(plan, local, dir.refs, force, ancestor);
    }
  }

  lemma PlanNames(plan: seq<LocalRef>, local: seq<LocalRef>, server: Refs, force: bool, ancestor: Ancestor)
    requires PlanFacts(plan, local, server, force, ancestor) && LocalNames(local)
    ensures LocalNames(plan)
  {
    hide IsTag, IsBranch, NeedsPush, NonFastForward;
    forall i | 0 <= i < |plan| ensures IsBranch(plan[i].name) || IsTag(plan[i].name) {
      var j :| 0 <= j < |local| && local[j] == plan[i];
    }
  }

  /** The first ref brings all new tags of the bundle along, when its tip is new to the server. */
  lemma FirstBringsTags(plan: seq<LocalRef>, dir: Node, force: bool, bundle: Bundle, envs: nat -> Env)
    requires plan != [] && dir.Directory? && DistinctNames(plan) && LocalNames(plan) && MadeFor(bundle, plan)
    ensures var r := PushFrom(plan, 0, dir.refs, dir, force, bundle, envs);
            r.count > 0 && plan[0].sha !in dir.objects ==>
              Followed(bundle, dir.refs, r.dir.refs) == NewTags(bundle, dir.refs)
  {
    hide GitFetch, ApplyPushBundle, Tips, IsTag, IsBranch, TipFor, Reached, DistinctNames, SanRef, NewTags;
    var first, env, opForce := plan[0], envs(0), force && plan[0].name in dir.refs;
    var spec := Refspec(false, first.name, first.name);
    var r := PushFrom(plan, 0, dir.refs, dir, force, bundle, envs);
    PushIsFetchOf(dir, bundle, first, opForce, env);
    var f := GitFetch(dir, bundle, spec, first.sha, opForce, env);
    FetchObjects(dir, bundle, spec, first.sha, opForce, env);
    if r.count > 0 && first.sha !in dir.objects {
      forall n | n in NewTags(bundle, dir.refs) ensures n in r.dir.refs {
        NewTagsAt(bundle, dir.refs, n);
        FetchBrings(dir, bundle, spec, first.sha, opForce, env, n);
        assert bundle.tips[n] in bundle.tips.Values;
        NeverDropped(plan, 1, dir.refs, f.dir, force, bundle, envs, n);
      }
      AllFollowed(bundle, dir.refs, r.dir.refs);
    }
  }

  lemma AllFollowed(bundle: Bundle, server: Refs, refs: Refs)
    requires forall n :: n in NewTags(bundle, server) ==> n in refs
    ensures Followed(bundle, server, refs) == NewTags(bundle, server)
  {
  }

  /** No push deletes a ref. */
  lemma {:induction false} NeverDropped(plan: seq<LocalRef>, k: nat, listed: Refs, dir: Node, force: bool,
                                        bundle: Bundle, envs: nat -> Env, n: RefName)
    requires k <= |plan| && dir.Directory? && n in dir.refs
    ensures n in PushFrom(plan, k, listed, dir, force, bundle, envs).dir.refs
    decreases |plan| - k
  {
    hide GitFetch, SanRef, TipFor;
    if k < |plan| {
      var name, opForce := plan[k].name, force && plan[k].name in listed;
      var fetched := ApplyPushBundle(dir, bundle, name, name, opForce, envs(k));
      if fetched.dir != dir {
        var spec := ParseRefspec(name, name).value;
        FetchAt(dir, bundle, spec, TipFor(bundle.tips, spec.source).value, opForce, envs(k), n);
      }
      if fetched.ok { NeverDropped(plan, k + 1, listed, fetched.dir, force, bundle, envs, n); }
    }
  }

  /** Nothing outside stands in the way of this ref, and unforced it is no tag the server has. */
  predicate Unhindered(r: LocalRef, server: Refs, force: bool, bundle: Bundle, env: Env) {
    && env.bundleOk && env.refOk && SanRef(r.name) && TipFor(bundle.tips, r.name).Some?
    && MayHold(r.name, r.sha, env.history)
    && (r.name in server && IsTag(r.name) ==> force)
  }

  /** A ref of the plan is accepted exactly when it is unhindered: for branches the plan has
      seen to the fast-forward rule. */
  lemma AcceptedIff(plan: seq<LocalRef>, k: nat, server: Refs, dir: Node, force: bool, bundle: Bundle, env: Env)
    requires k < |plan| && dir.Directory? && DistinctNames(plan) && LocalNames(plan) && MadeFor(bundle, plan)
    requires Reached(plan, k, server, bundle, dir.refs) && (forall n :: n in bundle.tips ==> env.tagOk(n))
    requires NeedsPush(plan[k], server) && (force || !NonFastForward(plan[k], server, env.history.ancestor))
    ensures ApplyPushBundle(dir, bundle, plan[k].name, plan[k].name, force && plan[k].name in server, env).ok <==>
            Unhindered(plan[k], server, force, bundle, env)
  {
    hide GitFetch, Tips, TipFor, SanRef, IsTag, IsBranch, DistinctNames;
    var r, opForce := plan[k], force && plan[k].name in server;
    var spec := Refspec(false, r.name, r.name);
    PushIsFetchOf(dir, bundle, r, opForce, env);
    NotYetPushed(plan, k);
    InPlanIs(plan, k);
    FetchSucceedsIff(dir, bundle, spec, r.sha, opForce, env);
    assert ReachedAt(plan, k, server, bundle, dir.refs, r.name);
    TagIsNoBranch(r.name);
  }

  lemma {:induction false} CompletesFrom(plan: seq<LocalRef>, k: nat, server: Refs, dir: Node, force: bool,
                                         bundle: Bundle, envs: nat -> Env, history: History)
    requires k <= |plan| && dir.Directory? && DistinctNames(plan) && LocalNames(plan) && MadeFor(bundle, plan)
    requires Reached(plan, k, server, bundle, dir.refs) && TagsCreatable(bundle, envs) && SameHistory(envs, history)
    requires forall i :: 0 <= i < |plan| ==>
               NeedsPush(plan[i], server) && (force || !NonFastForward(plan[i], server, history.ancestor))
    ensures PushFrom(plan, k, server, dir, force, bundle, envs).count == |plan| <==>
            forall i :: k <= i < |plan| ==> Unhindered(plan[i], server, force, bundle, envs(i))
    decreases |plan| - k
  {
    hide GitFetch, ApplyPushBundle, Tips, IsTag, IsBranch, TipFor, Reached, DistinctNames, SanRef, Unhindered,
      NeedsPush, NonFastForward;
    if k < |plan| {
      var r, env := plan[k], envs(k);
      var opForce := force && r.name in server;
      assert envs(k).history == history;
      AcceptedIff(plan, k, server, dir, force, bundle, env);
      PushIsFetchOf(dir, bundle, r, opForce, env);
      var fetched := ApplyPushBundle(dir, bundle, r.name, r.name, opForce, env);
      if fetched.ok {
        var j := FetchReaches(plan, k, server, bundle, dir, opForce, env);
        CompletesFrom(plan, k + 1, server, fetched.dir, force, bundle, envs, history);
      }
    }
  }

  /** A push goes all the way exactly when no ref of its plan is hindered: by a failure
      outside, by a branch that would hold no commit, or, unforced, by a tag to be moved. */
  lemma CompletesIff(local: seq<LocalRef>, dir: Node, force: bool, bundle: Bundle, envs: nat -> Env, history: History)
    requires dir.Directory? && DistinctNames(local) && LocalNames(local) && TagsCreatable(bundle, envs) &&
             SameHistory(envs, history)
    requires var plan := Plan(local, dir.refs, force, history.ancestor); plan.Some? && MadeFor(bundle, plan.value)
    ensures var plan := Plan(local, dir.refs, force, history.ancestor).value;
            PushFrom(plan, 0, dir.refs, dir, force, bundle, envs).count == |plan| <==>
            forall i :: 0 <= i < |plan| ==> Unhindered(plan[i], dir.refs, force, bundle, envs(i))
  {
    hide PushFrom, NeedsPush, NonFastForward, Reached, Tips, IsTag, IsBranch, Unhindered;
    var plan := Plan(local, dir.refs, force, history.ancestor).value;
    PlanIsWhatDiffers(local, dir.refs, force, history.ancestor);
    PlanNames(plan, local, dir.refs, force, history.ancestor);
    StartReached(plan, bundle, dir.refs);
    CompletesFrom(plan, 0, dir.refs, dir, force, bundle, envs, history);
  }

  /** How the command ends: refused exactly when, unforced, some local ref does not descend from
      the server's; with nothing to do exactly when the server has every local ref where it is;
      without a bundle when some name to push is improper or git made none; and otherwise as far
      as `Convergence` and `CompletesIff` say.  In the first three cases nothing has changed. */
  lemma OutcomeIff(local: seq<LocalRef>, dir: Node, force: bool, made: Option<Bundle>, envs: nat -> Env,
                   ancestor: Ancestor)
    requires dir.Directory? && DistinctNames(local)
    ensures var (o, dir') := PushOutcome(local, dir, force, made, envs, ancestor); var server := dir.refs;
            var refused :=
              !force && (exists r ::
                           r in local && r.name in server && server[r.name] != r.sha &&
                             !ancestor(server[r.name], r.sha));
            var idle := forall i :: 0 <= i < |local| ==>
                local[i].name in server && server[local[i].name] == local[i].sha;
            var proper := forall i :: 0 <= i < |local| && NeedsPush(local[i], server) ==> SanRef(local[i].name);
            && (o.Refused? <==> refused)
            && (!refused && idle ==> o == Stopped(0, 0))
            && (o.NoBundle? <==> !refused && !idle && (made.None? || !proper))
            && (refused || idle || o.NoBundle? ==> dir' == dir)
            && (!refused && !idle && made.Some? && proper ==>
                  var plan := Plan(local, server, force, ancestor).value;
                  var r := PushFrom(plan, 0, server, dir, force, made.value, envs);
                  o == Stopped(r.count, |plan|) && dir' == r.dir)
  {
    hide PushFrom, SanRef, NonFastForward;
    PlanRefusedIff(local, dir.refs, force, ancestor);
    if Plan(local, dir.refs, force, ancestor).Some? {
      var plan := Plan(local, dir.refs, force, ancestor).value;
      PlanIsWhatDiffers(local, dir.refs, force, ancestor);
      PlanHolds(plan, local, dir.refs, force, ancestor);
    }
  }

  lemma PlanHolds(plan: seq<LocalRef>, local: seq<LocalRef>, server: Refs, force: bool, ancestor: Ancestor)
    requires PlanFacts(plan, local, server, force, ancestor)
    ensures plan == [] <==> forall i :: 0 <= i < |local| ==> !NeedsPush(local[i], server)
    ensures (forall i :: 0 <= i < |plan| ==> SanRef(plan[i].name)) <==>
            forall i :: 0 <= i < |local| && NeedsPush(local[i], server) ==> SanRef(local[i].name)
  {
    hide SanRef, NonFastForward, NeedsPush;
    if forall i :: 0 <= i < |local| && NeedsPush(local[i], server) ==> SanRef(local[i].name) {
      forall i | 0 <= i < |plan| ensures SanRef(plan[i].name) {
        var j :| 0 <= j < |local| && local[j] == plan[i];
      }
    }
    if forall i :: 0 <= i < |plan| ==> SanRef(plan[i].name) {
      forall i | 0 <= i < |local| && NeedsPush(local[i], server) ensures SanRef(local[i].name) {
        var j :| 0 <= j < |plan| && plan[j] == local[i];
      }
    }
    if plan != [] {
      var r := plan[0];
      assert r in local && NeedsPush(r, server);
      var j :| 0 <= j < |local| && local[j] == r;
    }
  }

  lemma FullPlan(plan: seq<LocalRef>, local: seq<LocalRef>, server: Refs, force: bool, ancestor: Ancestor)
    requires DistinctNames(local) && PlanFacts(plan, local, server, force, ancestor)
    ensures server + Tips(plan) == server + Tips(local)
  {
    hide Tips, PlanFacts;
    var a, b := server + Tips(plan), server + Tips(local);
    forall n ensures (n in a <==> n in b) && (n in a ==> a[n] == b[n]) {
      FullPlanAt(plan, local, server, force, ancestor, n);
    }
  }

  lemma FullPlanAt(plan: seq<LocalRef>, local: seq<LocalRef>, server: Refs, force: bool, ancestor: Ancestor, n: RefName)
    requires DistinctNames(local) && PlanFacts(plan, local, server, force, ancestor)
    ensures n in Tips(plan) ==> n in Tips(local) && Tips(local)[n] == Tips(plan)[n]
    ensures n in Tips(local) && n !in Tips(plan) ==> n in server && server[n] == Tips(local)[n]
  {
    hide Tips, NonFastForward;
    TipsAre(plan);
    TipsAre(local);
    if n in Tips(plan) {
      var i :| 0 <= i < |plan| && plan[i].name == n;
      var j :| 0 <= j < |local| && local[j] == plan[i];
    } else if n in Tips(local) {
      var j :| 0 <= j < |local| && local[j].name == n;
      if NeedsPush(local[j], server) { InPlan(plan, local[j]); }
    }
  }

  lemma InPlan(plan: seq<LocalRef>, r: LocalRef)
    requires DistinctNames(plan) && r in plan
    ensures r.name in Tips(plan)
  {
    hide Tips;
    TipsAre(plan);
  }

  // ---------------------------------------------------------------- nothing once reachable is lost

  ghost predicate Preorder(ancestor: Ancestor) {
    && (forall a :: ancestor(a, a))
    && (forall a, b, c :: ancestor(a, b) && ancestor(b, c) ==> ancestor(a, c))
  }

  /** One push of a local ref: unforced, every ref stays or moves forward; forced, every other one does. */
  lemma PushAdvancesAt(dir: Node, bundle: Bundle, name: RefName, force: bool, env: Env, n: RefName)
    requires dir.Directory? && Kept(dir, env.history) && (IsBranch(name) || IsTag(name)) && n in dir.refs
    requires !force || n != name
    ensures var after := ApplyPushBundle(dir, bundle, name, name, force, env).dir.refs;
            n in after && (after[n] == dir.refs[n] || env.history.ancestor(dir.refs[n], after[n]))
  {
    hide GitFetch, TipFor, SanRef, Lower;
    FullNames(name);
    var tip := TipFor(bundle.tips, name);
    if tip.Some? { FetchAt(dir, bundle, Refspec(false, name, name), tip.value, force, env, n); }
  }

  lemma PushKeepsKept(dir: Node, bundle: Bundle, name: RefName, force: bool, env: Env)
    requires dir.Directory? && Kept(dir, env.history) && LowerNames(bundle)
    ensures Kept(ApplyPushBundle(dir, bundle, name, name, force, env).dir, env.history)
  {
    hide GitFetch, TipFor, SanRef, Lower, ParseRefspec;
    var spec := ParseRefspec(name, name);
    if spec.Some? && TipFor(bundle.tips, spec.value.source).Some? {
      TipIsATip(bundle.tips, spec.value.source);
      FetchKeeps(dir, bundle, spec.value, TipFor(bundle.tips, spec.value.source).value, force, env);
    }
  }

  /** A ref that the plan never forces only moves forward: none does without --force, and with
      it none that was not on the client's list, so nothing another client made meanwhile is lost. */
  lemma {:induction false} UnforcedRefsAdvance(plan: seq<LocalRef>, k: nat, listed: Refs, dir: Node, force: bool,
                                               bundle: Bundle, envs: nat -> Env,
                                               history: History, n: RefName)
    requires k <= |plan| && dir.Directory? && LocalNames(plan) && LowerNames(bundle)
    requires Preorder(history.ancestor) && SameHistory(envs, history) && Kept(dir, history)
    requires n in dir.refs && (!force || n !in listed)
    ensures var after := PushFrom(plan, k, listed, dir, force, bundle, envs).dir;
            Kept(after, history) && n in after.refs && history.ancestor(dir.refs[n], after.refs[n])
    decreases |plan| - k
  {
    hide ApplyPushBundle, Kept, IsBranch, IsTag, LowerNames;
    if k < |plan| {
      var name, opForce := plan[k].name, force && plan[k].name in listed;
      var fetched := ApplyPushBundle(dir, bundle, name, name, opForce, envs(k));
      assert envs(k).history == history;
      PushAdvancesAt(dir, bundle, name, opForce, envs(k), n);
      PushKeepsKept(dir, bundle, name, opForce, envs(k));
      assert history.ancestor(dir.refs[n], fetched.dir.refs[n]);
      if fetched.ok { UnforcedRefsAdvance(plan, k + 1, listed, fetched.dir, force, bundle, envs, history, n); }
    }
  }

  /** One client's unforced push, with the server as it was when that client listed it. */
  datatype Attempt = Attempt(local: seq<LocalRef>, listed: Refs, bundle: Bundle, envs: nat -> Env)

  /** An attempt as a client makes it: local names, and object names as git writes them. */
  ghost predicate Genuine(a: Attempt, history: History) {
    DistinctNames(a.local) && LocalNames(a.local) && LowerNames(a.bundle) && SameHistory(a.envs, history)
  }

  /** The server's repository after a sequence of unforced pushes, each planned on a possibly outdated list. */
  function AfterAttempts(dir: Node, attempts: seq<Attempt>, ancestor: Ancestor): (after: Node)
    requires dir.Directory?
    ensures after.Directory?
  {
    if attempts == [] then dir
    else
      var before := AfterAttempts(dir, attempts[..|attempts| - 1], ancestor);
      var a := attempts[|attempts| - 1];
      var plan := Plan(a.local, a.listed, false, ancestor);
      if plan.None? then before else PushFrom(plan.value, 0, a.listed, before, false, a.bundle, a.envs).dir
  }

  /** Along any sequence of unforced pushes, by any clients, on any stale lists and with any
      bundles, every ref keeps reaching every commit it once reached. */
  lemma {:induction false} NothingReachableIsLost(dir: Node, attempts: seq<Attempt>, history: History, n: RefName,
                                                  commit: Sha)
    requires dir.Directory? && Kept(dir, history) && Preorder(history.ancestor)
    requires forall i :: 0 <= i < |attempts| ==> Genuine(attempts[i], history)
    requires n in dir.refs && history.ancestor(commit, dir.refs[n])
    ensures var after := AfterAttempts(dir, attempts, history.ancestor);
            Kept(after, history) && n in after.refs && history.ancestor(commit, after.refs[n])
    decreases |attempts|
  {
    hide Plan, PushFrom, Kept, LowerNames, LocalNames, DistinctNames;
    if attempts != [] {
      var front, a := attempts[..|attempts| - 1], attempts[|attempts| - 1];
      NothingReachableIsLost(dir, front, history, n, commit);
      var before, after := AfterAttempts(dir, front, history.ancestor), AfterAttempts(dir, attempts, history.ancestor);
      var plan := Plan(a.local, a.listed, false, history.ancestor);
      assert Genuine(a, history);
      if plan.Some? {
        PlanIsWhatDiffers(a.local, a.listed, false, history.ancestor);
        PlanNames(plan.value, a.local, a.listed, false, history.ancestor);
        UnforcedRefsAdvance(plan.value, 0, a.listed, before, false, a.bundle, a.envs, history, n);
        assert history.ancestor(before.refs[n], after.refs[n]);
      }
    }
  }
}
