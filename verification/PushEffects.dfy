/**
  What a push does to the refs of its repository: ref operations one by one, and a
  bundle through git fetch, its refspec and the tags it brings along.
 */
module PushEffects {
  import opened Wrappers
  import opened Text
  import opened Repositories
  import opened BundleFetch
  import opened GitServer

  // ---------------------------------------------------------------- ref operations

  /** The refs after the first `k` operations, each simply obeyed. */
  function Obeyed(refs: Refs, ops: seq<Op>, k: nat): Refs
    requires k <= |ops| && forall i :: 0 <= i < k ==> ops[i].Op? && ops[i].name.Some? && ops[i].sha.Some?
  {
    if k == 0 then refs else Obeyed(refs, ops, k - 1)[ops[k - 1].name.value := Lower(ops[k - 1].sha.value)]
  }

  /** Operations take effect one by one up to the first that fails, and the answer is OK
      exactly when none does. */
  lemma {:induction false} OpsApplyAPrefix(start: Node, dir: Node, ops: seq<Op>, k: nat, env: Env) returns (n: nat)
    requires start.Directory? && dir.Directory? && k <= |ops|
    requires forall i :: 0 <= i < k ==> ops[i].Op? && ops[i].name.Some? && ops[i].sha.Some?
    requires dir == start.(refs := Obeyed(start.refs, ops, k))
    ensures k <= n <= |ops| && forall i :: 0 <= i < n ==> ops[i].Op? && ops[i].name.Some? && ops[i].sha.Some?
    ensures var r := ApplyOps(dir, ops, k, env);
            r.0 == start.(refs := Obeyed(start.refs, ops, n)) && (IsOk(r.1) <==> n == |ops|)
    decreases |ops| - k
  {
    hide SanRef, SanSha, TipFor, MayHold, Lower;
    n := k;
    if k < |ops| && ops[k].Op? && ops[k].action == "update_ref" && ops[k].name.Some? && ops[k].sha.Some?
       && SanRef(ops[k].name.value) && StartsWith(ops[k].name.value, REFS_PREFIX) && SanSha(ops[k].sha.value) {
      var op := ops[k];
      var dir1 := UpdateRef(dir, op.name.value, op.sha.value, op.force, env.updateOk(k), env.history);
      if dir1.Some? { n := OpsApplyAPrefix(start, dir1.value, ops, k + 1, env); }
    }
  }

  // ---------------------------------------------------------------- what every repository keeps

  lemma LowerTwice(s: string)
    ensures Lower(Lower(s)) == Lower(s)
  {
  }

  lemma {:induction false} OpsKeep(dir: Node, ops: seq<Op>, k: nat, env: Env)
    requires dir.Directory? && Kept(dir, env.history) && k <= |ops|
    ensures Kept(ApplyOps(dir, ops, k, env).0, env.history)
    decreases |ops| - k
  {
    hide SanRef, SanSha, TipFor, MayHold, Lower;
    if k < |ops| && ops[k].Op? && ops[k].name.Some? && ops[k].sha.Some? {
      var op := ops[k];
      var dir1 := UpdateRef(dir, op.name.value, op.sha.value, op.force, env.updateOk(k), env.history);
      LowerTwice(op.sha.value);
      if dir1.Some? {
        assert Kept(dir1.value, env.history);
        OpsKeep(dir1.value, ops, k + 1, env);
      }
    }
  }

  /** A push, whatever it carries and however git fares, keeps branches on commits. */
  lemma PushKeeps(dir: Node, req: Request, env: Env)
    requires dir.Directory? && Kept(dir, env.history) && req.Push?
    requires req.bundle.Some? ==> LowerNames(req.bundle.value)
    ensures Kept(ApplyPush(dir, req, env).0, env.history)
  {
    hide SanRef, ApplyOps, TipFor, GitFetch, Lower, ParseRefspec, MayHold;
    if req.bundle.Some? && req.local.Some? && req.remote.Some? {
      var spec := ParseRefspec(req.local.value, req.remote.value);
      if spec.Some? && TipFor(req.bundle.value.tips, spec.value.source).Some? {
        var tip := TipFor(req.bundle.value.tips, spec.value.source).value;
        TipIsATip(req.bundle.value.tips, spec.value.source);
        FetchKeeps(dir, req.bundle.value, spec.value, tip, req.force, env);
      }
    } else if req.bundle.None? && req.operations.Some? {
      OpsKeep(dir, req.operations.value, 0, env);
    }
  }

  // ---------------------------------------------------------------- pushes without force

  /** No part of the request asks for force. */
  ghost predicate Unforced(req: Request)
    requires req.Push?
  {
    !req.force &&
    (req.operations.Some? ==>
       forall i :: 0 <= i < |req.operations.value| && req.operations.value[i].Op? ==> !req.operations.value[i].force)
  }

  lemma {:induction false} UnforcedOps(dir: Node, ops: seq<Op>, k: nat, env: Env)
    requires dir.Directory? && Kept(dir, env.history) && k <= |ops|
    requires forall i :: 0 <= i < |ops| && ops[i].Op? ==> !ops[i].force
    ensures var dir' := ApplyOps(dir, ops, k, env).0;
            forall n :: n in dir.refs ==> n in dir'.refs && dir'.refs[n] == dir.refs[n]
    decreases |ops| - k
  {
    hide SanRef, SanSha, MayHold, Lower;
    if k < |ops| && ops[k].Op? && ops[k].name.Some? && ops[k].sha.Some? {
      var op := ops[k];
      var dir1 := UpdateRef(dir, op.name.value, op.sha.value, op.force, env.updateOk(k), env.history);
      LowerTwice(op.sha.value);
      assert dir1.Some? ==> forall n :: n in dir.refs ==> n in dir1.value.refs && dir1.value.refs[n] == dir.refs[n];
      if dir1.Some? {
        assert Kept(dir1.value, env.history);
        UnforcedOps(dir1.value, ops, k + 1, env);
      }
    }
  }

  /** What a bundle push fetches, if it comes to that: its refspec and its tip. */
  function Fetches(req: Request): (f: Option<(Refspec, string)>)
    requires req.Push?
    ensures f.Some? ==> req.bundle.Some?
  {
    if req.bundle.None? || req.local.None? || req.remote.None? then None
    else if !SanRef(req.local.value) || !SanRef(req.remote.value) then None
    else
      var spec := ParseRefspec(req.local.value, req.remote.value);
      if spec.None? then None
      else
        var tip := TipFor(req.bundle.value.tips, spec.value.source);
        if tip.None? then None else Some((spec.value, tip.value))
  }

  /** The source name spells force, or the destination is neither a branch nor a tag. */
  predicate MayRewind(req: Request)
    requires req.Push?
  {
    var f := Fetches(req);
    f.Some? && (f.value.0.force || (!IsBranch(f.value.0.destination) && !IsTag(f.value.0.destination)))
  }

  /** Whatever the repository and however git fares, the push deletes no ref and moves none except forward. */
  ghost predicate NeverRewinds(req: Request)
    requires req.Push?
  {
    forall dir: Node, env: Env :: dir.Directory? && Kept(dir, env.history) ==>
      OnlyAdvanced(dir.refs, ApplyPush(dir, req, env).0.refs, env.history)
  }

  /** A push that does not ask for force never rewinds a ref, exactly when its source name does
      not start with the '+' that git reads as force and its destination is a branch or a tag:
      elsewhere git replaces without a check whatever leads to no commit. */
  lemma UnforcedPushOnlyAdvancesIff(req: Request)
    requires req.Push? && Unforced(req)
    ensures NeverRewinds(req) <==> !MayRewind(req)
  {
    hide ApplyPush, Fetches, OnlyAdvanced, Kept, MayRewind;
    if MayRewind(req) {
      SomethingRewinds(req);
    } else {
      forall dir: Node, env: Env | dir.Directory? && Kept(dir, env.history)
        ensures OnlyAdvanced(dir.refs, ApplyPush(dir, req, env).0.refs, env.history)
      {
        UnforcedPushOnlyAdvances(dir, req, env);
      }
    }
  }

  lemma PushIsFetch(dir: Node, req: Request, env: Env)
    requires dir.Directory? && req.Push? && req.bundle.Some?
    ensures var after, f := ApplyPush(dir, req, env).0, Fetches(req);
            after ==
            if env.bundleOk && f.Some? then GitFetch(dir, req.bundle.value, f.value.0, f.value.1, req.force, env).dir
            else dir
  {
    hide SanRef, TipFor, ParseRefspec, GitFetch;
  }

  lemma UnforcedPushOnlyAdvances(dir: Node, req: Request, env: Env)
    requires dir.Directory? && req.Push? && Kept(dir, env.history) && Unforced(req) && !MayRewind(req)
    ensures OnlyAdvanced(dir.refs, ApplyPush(dir, req, env).0.refs, env.history)
  {
    hide ApplyOps, Fetches, GitFetch, Kept, IsBranch, IsTag, ApplyPushBundle;
    if req.bundle.Some? {
      PushIsFetch(dir, req, env);
      var f := Fetches(req);
      if f.Some? { UnforcedFetchOnlyAdvances(dir, req.bundle.value, f.value.0, f.value.1, env); }
    } else if req.operations.Some? {
      UnforcedOps(dir, req.operations.value, 0, env);
    }
  }

  /** The ref the request names, replaced although force is off. */
  lemma SomethingRewinds(req: Request)
    requires req.Push? && !req.force && MayRewind(req)
    ensures !NeverRewinds(req)
  {
    hide Fetches, ApplyPush, GitFetch, Kept, OnlyAdvanced;
    var (spec, tip) := Fetches(req).value;
    var dir, env := Elsewhere(spec, tip), Unrelated(spec, tip);
    ElsewhereMoves(spec, tip);
    PushIsFetch(dir, req, env);
    MovesAlone(dir, req.bundle.value, spec, tip, env);
    Rewound(spec, tip, ApplyPush(dir, req, env).0.refs);
    assert !OnlyAdvanced(dir.refs, ApplyPush(dir, req, env).0.refs, env.history);
  }

  /** A repository whose destination ref stands at another object, */
  function Elsewhere(spec: Refspec, tip: string): Node {
    var was := if tip == "a" then "b" else "a";
    Directory(true, map[spec.destination := was], {was})
  }

  /** and a history without relations in which an unforced tip leads to no commit. */
  function Unrelated(spec: Refspec, tip: string): Env {
    AllWell(History((a, b) => a == b, o => if !spec.force && o == tip then Other else Commit))
  }

  lemma ElsewhereMoves(spec: Refspec, tip: string)
    requires spec.force || (!IsBranch(spec.destination) && !IsTag(spec.destination))
    ensures var dir, env := Elsewhere(spec, tip), Unrelated(spec, tip);
            && dir.Directory? && spec.destination in dir.refs && env.refOk
            && Kept(dir, env.history) && Accepts(dir.refs, spec.destination, tip, spec.force, env.history)
  {
    assert Lower("a") == "a" && Lower("b") == "b";
  }

  lemma Rewound(spec: Refspec, tip: string, after: Refs)
    requires spec.destination in after && after[spec.destination] == tip
    ensures !OnlyAdvanced(Elsewhere(spec, tip).refs, after, Unrelated(spec, tip).history)
  {
    assert spec.destination in Elsewhere(spec, tip).refs;
  }

  lemma MovesAlone(dir: Node, bundle: Bundle, spec: Refspec, tip: string, env: Env)
    requires dir.Directory? && env.refOk && spec.destination in dir.refs
    requires Accepts(dir.refs, spec.destination, tip, spec.force, env.history)
    ensures var after := GitFetch(dir, bundle, spec, tip, false, env).dir;
            spec.destination in after.refs && after.refs[spec.destination] == tip
  {
    hide Accepts, IsTag;
    NewTagsAt(bundle, dir.refs, spec.destination);
  }

  /** "+refs/heads/main" rewinds a branch with force off; the same push without the '+' moves nothing. */
  lemma PlusMainRewindsMain(old': string, new': string, env: Env)
    requires env.bundleOk && env.refOk && old' != new' && !env.history.ancestor(old', new')
    requires env.history.kind(old') == Commit && env.history.kind(new') == Commit
    ensures var main := "refs/heads/main";
            var dir, bundle := Directory(true, map[main := old'], {old'}), Bundle(map[main := new'], {new'});
            var plus := Push(Some("g/r"), Some("+" + main), Some(main), false, Some(bundle), None);
            && ApplyPush(dir, plus, env).0.refs == map[main := new']
            && ApplyPush(dir, plus.(local := Some(main)), env).0.refs == dir.refs
  {
    hide SanRef, GitFetch, ParseRefspec, Accepts;
    var main := "refs/heads/main";
    var dir, bundle := Directory(true, map[main := old'], {old'}), Bundle(map[main := new'], {new'});
    MainIsSane();
    MainRefspecs();
    OneBranch(dir, bundle, Refspec(true, main, main), new', env);
    OneBranch(dir, bundle, Refspec(false, main, main), new', env);
    MainAccepts(old', new', env.history);
  }

  lemma MainRefspecs()
    ensures "+" + "refs/heads/main" == "+refs/heads/main"
    ensures ParseRefspec("+refs/heads/main", "refs/heads/main") ==
            Some(Refspec(true, "refs/heads/main", "refs/heads/main"))
    ensures ParseRefspec("refs/heads/main", "refs/heads/main") ==
            Some(Refspec(false, "refs/heads/main", "refs/heads/main"))
  {
    assert "+refs/heads/main"[1..] == "refs/heads/main";
  }

  lemma MainAccepts(old': string, new': string, history: History)
    requires old' != new' && !history.ancestor(old', new') && history.kind(old') == Commit &&
             history.kind(new') == Commit
    ensures Accepts(map["refs/heads/main" := old'], "refs/heads/main", new', true, history)
    ensures !Accepts(map["refs/heads/main" := old'], "refs/heads/main", new', false, history)
  {
  }

  lemma OneBranch(dir: Node, bundle: Bundle, spec: Refspec, tip: string, env: Env)
    requires dir.Directory? && dir.refs.Keys == {spec.destination} && bundle.tips == map[spec.destination := tip] &&
             env.refOk
    ensures GitFetch(dir, bundle, spec, tip, false, env).dir.refs ==
            if Accepts(dir.refs, spec.destination, tip, spec.force, env.history)
            then map[spec.destination := tip] else dir.refs
  {
    hide Accepts, IsTag;
    NoNewTags(bundle, dir.refs);
  }

  lemma NoNewTags(bundle: Bundle, refs: Refs)
    requires bundle.tips.Keys <= refs.Keys
    ensures NewTags(bundle, refs) == map[]
  {
  }

  /** A commit outside branches and tags is replaced by a blob, force off and no '+'. */
  lemma BlobReplacesCommit(commit: string, blob: string, env: Env)
    requires env.bundleOk && env.refOk && commit != blob && env.history.kind(commit) == Commit &&
             env.history.kind(blob) == Other
    ensures var dir, bundle := Directory(true, map["refs/foo/x" := commit], {commit}),
            Bundle(map["refs/tags/blob" := blob], {blob});
            var req := Push(Some("g/r"), Some("refs/tags/blob"), Some("refs/foo/x"), false, Some(bundle), None);
            var after := ApplyPush(dir, req, env).0;
            "refs/foo/x" in after.refs && after.refs["refs/foo/x"] == blob
  {
    hide SanRef, GitFetch, ParseRefspec, IsBranch, IsTag;
    var dir, bundle := Directory(true, map["refs/foo/x" := commit], {commit}),
      Bundle(map["refs/tags/blob" := blob], {blob});
    BlobNames();
    MovesAlone(dir, bundle, Refspec(false, "refs/tags/blob", "refs/foo/x"), blob, env);
  }

  lemma BlobNames()
    ensures SanRef("refs/tags/blob") && SanRef("refs/foo/x") && !IsBranch("refs/foo/x") && !IsTag("refs/foo/x")
    ensures ParseRefspec("refs/tags/blob", "refs/foo/x") == Some(Refspec(false, "refs/tags/blob", "refs/foo/x"))
  {
    hide SanRef, ParseRefspec, IsBranch, IsTag;
    PlainIsSane("refs/tags/blob");
    PlainIsSane("refs/foo/x");
    ElsewhereNames();
  }

  lemma ElsewhereNames()
    ensures !IsBranch("refs/foo/x") && !IsTag("refs/foo/x")
    ensures ParseRefspec("refs/tags/blob", "refs/foo/x") == Some(Refspec(false, "refs/tags/blob", "refs/foo/x"))
  {
    var x, blob := "refs/foo/x", "refs/tags/blob";
    assert x[5] == 'f' && HEADS_PREFIX[5] == 'h' && TAGS_PREFIX[5] == 't';
    assert x[..5] == REFS_PREFIX && x[0] == 'r' && blob[0] == 'r';
  }

  lemma MainIsSane()
    ensures SanRef("refs/heads/main") && SanRef("+refs/heads/main")
  {
    hide SanRef;
    PlainIsSane("refs/heads/main");
    PlainIsSane("+refs/heads/main");
  }

  /** Letters and '+' between single slashes make a proper name. */
  lemma PlainIsSane(s: string)
    requires '/' in s && s[0] != '/' && s[|s| - 1] != '/'
    requires forall i :: 0 <= i < |s| ==> 'a' <= s[i] <= 'z' || s[i] == '/' || s[i] == '+'
    requires forall i :: 0 <= i < |s| - 1 && s[i] == '/' ==> s[i + 1] != '/'
    ensures SanRef(s)
  {
    hide Contains;
    ContainsNone(s);
    ContainsNone(s + "/");
    assert s[0] != '-' && s[|s| - 1] != '.';
  }

  lemma ContainsNone(s: string)
    requires '.' !in s && forall i :: 0 <= i < |s| - 1 && s[i] == '/' ==> s[i + 1] != '/'
    ensures !Contains(s, "..") && !Contains(s, "/.") && !Contains(s, "//") && !Contains(s, ".lock/")
  {
    forall i, part: string | 0 <= i <= |s| && part in {"..", "/.", "//", ".lock/"} ensures !StartsWith(s[i..], part) {
      FirstTwo(s[i..], part);
    }
  }

  // ---------------------------------------------------------------- names and objects

  /** Every ref has a proper full name and points at an object the repository holds. */
  ghost predicate RefsSound(dir: Node)
    requires dir.Directory?
  {
    forall n :: n in dir.refs ==> SanRef(n) && StartsWith(n, REFS_PREFIX) && dir.refs[n] in dir.objects
  }

  lemma {:induction false} OpsKeepRefsSound(dir: Node, ops: seq<Op>, k: nat, env: Env)
    requires dir.Directory? && RefsSound(dir) && k <= |ops|
    ensures RefsSound(ApplyOps(dir, ops, k, env).0)
    decreases |ops| - k
  {
    hide SanRef, SanSha, TipFor, MayHold, Lower;
    if k < |ops| && ops[k].Op? && ops[k].name.Some? && ops[k].sha.Some? {
      var op := ops[k];
      var dir1 := UpdateRef(dir, op.name.value, op.sha.value, op.force, env.updateOk(k), env.history);
      if dir1.Some? {
        assert RefsSound(dir1.value);
        OpsKeepRefsSound(dir1.value, ops, k + 1, env);
      }
    }
  }

  /** Deleting a ref keeps the rest sound. */
  lemma DeleteKeepsRefsSound(dir: Node, name: string, env: Env)
    requires dir.Directory? && RefsSound(dir)
    ensures DeleteRef(dir, name, env.deleteOk).Some? ==>
              DeleteRef(dir, name, env.deleteOk).value.Directory? && RefsSound(DeleteRef(dir, name, env.deleteOk).value)
  {
    hide SanRef, TipFor;
  }

  /** The bundle of a push that fetches has a tag under a name `san_ref` refuses. */
  ghost predicate BringsOddTag(req: Request)
    requires req.Push?
  {
    Fetches(req).Some? && exists n :: n in req.bundle.value.tips && IsTag(n) && !SanRef(n)
  }

  /** Whatever the repository and however git fares, sound refs stay sound, when the bundle
      has the objects of its tips that the repository lacks. */
  ghost predicate KeepsRefsSound(req: Request)
    requires req.Push?
  {
    forall dir: Node, env: Env ::
      dir.Directory? && RefsSound(dir) &&
        (req.bundle.Some? ==> req.bundle.value.tips.Values <= req.bundle.value.objects + dir.objects) ==>
        RefsSound(ApplyPush(dir, req, env).0)
  }

  /** A push keeps every ref properly and fully named and pointing at an object, exactly when
      no tag of its bundle has a name that `san_ref` refuses: git follows tags unasked. */
  lemma RefsStaySoundIff(req: Request)
    requires req.Push?
    ensures KeepsRefsSound(req) <==> !BringsOddTag(req)
  {
    hide ApplyPush, Fetches, RefsSound, SanRef, IsTag;
    if BringsOddTag(req) {
      OddTagLands(req);
    } else {
      forall dir: Node, env: Env | dir.Directory? && RefsSound(dir) &&
          (req.bundle.Some? ==> req.bundle.value.tips.Values <= req.bundle.value.objects + dir.objects)
        ensures RefsSound(ApplyPush(dir, req, env).0)
      {
        PushKeepsRefsSound(dir, req, env);
      }
    }
  }

  lemma PushKeepsRefsSound(dir: Node, req: Request, env: Env)
    requires dir.Directory? && RefsSound(dir) && req.Push? && !BringsOddTag(req)
    requires req.bundle.Some? ==> req.bundle.value.tips.Values <= req.bundle.value.objects + dir.objects
    ensures RefsSound(ApplyPush(dir, req, env).0)
  {
    hide ApplyOps, Fetches, GitFetch, RefsSound, SanRef, IsTag, ApplyPushBundle;
    if req.bundle.Some? {
      PushIsFetch(dir, req, env);
      var f := Fetches(req);
      if f.Some? {
        FetchesFacts(req);
        FetchKeepsRefsSound(dir, req.bundle.value, f.value.0, f.value.1, req.force, env);
      }
    } else if req.operations.Some? {
      OpsKeepRefsSound(dir, req.operations.value, 0, env);
    }
  }

  lemma FetchesFacts(req: Request)
    requires req.Push? && Fetches(req).Some?
    ensures var (spec, tip) := Fetches(req).value;
            SanRef(spec.destination) && StartsWith(spec.destination, REFS_PREFIX) && tip in req.bundle.value.tips.Values
  {
    hide SanRef, FullName, TipFor;
    FullNameIsSane(req.remote.value);
    TipIsATip(req.bundle.value.tips, ParseRefspec(req.local.value, req.remote.value).value.source);
  }

  lemma FetchKeepsRefsSound(dir: Node, bundle: Bundle, spec: Refspec, tip: string, force: bool, env: Env)
    requires dir.Directory? && RefsSound(dir) && bundle.tips.Values <= bundle.objects + dir.objects
    requires SanRef(spec.destination) && StartsWith(spec.destination, REFS_PREFIX) && tip in bundle.tips.Values
    requires forall n :: n in bundle.tips && IsTag(n) ==> SanRef(n)
    ensures RefsSound(GitFetch(dir, bundle, spec, tip, force, env).dir)
  {
    hide GitFetch, SanRef;
    var after := GitFetch(dir, bundle, spec, tip, force, env).dir;
    FetchObjects(dir, bundle, spec, tip, force, env);
    forall n | n in after.refs ensures SanRef(n) && StartsWith(n, REFS_PREFIX) && after.refs[n] in after.objects {
      FetchAt(dir, bundle, spec, tip, force, env, n);
      TagsAreFull(n);
    }
  }

  lemma TagsAreFull(n: string)
    ensures IsTag(n) ==> StartsWith(n, REFS_PREFIX)
  {
    assert TAGS_PREFIX[..5] == REFS_PREFIX;
    assert IsTag(n) ==> n[..5] == TAGS_PREFIX[..5];
  }

  lemma OddTagLands(req: Request)
    requires req.Push? && BringsOddTag(req)
    ensures !KeepsRefsSound(req)
  {
    hide Fetches, SanRef, IsTag, ApplyPush, GitFetch;
    var (spec, tip) := Fetches(req).value;
    var bundle := req.bundle.value;
    var odd :| odd in bundle.tips && IsTag(odd) && !SanRef(odd);
    FetchesFacts(req);
    var env := AllWell(History((a, b) => a == b, _ => Commit));
    var dir := Directory(true, map[spec.destination := tip], bundle.tips.Values);
    assert RefsSound(dir);
    PushIsFetch(dir, req, env);
    UpToDate(dir, bundle, spec, tip, req.force, env);
    FetchObjects(dir, bundle, spec, tip, req.force, env);
    FetchBrings(dir, bundle, spec, tip, req.force, env, odd);
    assert bundle.tips[odd] in bundle.tips.Values;
    assert !RefsSound(ApplyPush(dir, req, env).0);
  }

  lemma UpToDate(dir: Node, bundle: Bundle, spec: Refspec, tip: string, force: bool, env: Env)
    requires dir.Directory? && spec.destination in dir.refs && dir.refs[spec.destination] == tip
    requires env.refOk && forall n :: env.tagOk(n)
    ensures GitFetch(dir, bundle, spec, tip, force, env).ok
  {
    hide IsTag;
    NewTagsAt(bundle, dir.refs, spec.destination);
  }
}
