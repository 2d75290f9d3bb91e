/**
  Applying a push bundle (`apply_push_bundle` in src/bin/rngit/gitutil.rs): what git fetch
  makes of the refspec, which refs it lets move, and the tags it brings along unasked.
 */
module BundleFetch {
  import opened Wrappers
  import opened Text
  import opened Repositories

  // ---------------------------------------------------------------- the refspec

  /** "source:destination", read by git fetch: a leading '+' forces the update. */
  datatype Refspec = Refspec(force: bool, source: string, destination: string)

  /** Where git keeps a ref that is named without the leading "refs/". */
  function FullName(name: string): string {
    if StartsWith(name, REFS_PREFIX) then name
    else if StartsWith(name, "heads/") || StartsWith(name, "tags/") || StartsWith(name, "remotes/") then
      REFS_PREFIX + name
    else HEADS_PREFIX + name
  }

  /** The refspec of two names that `san_ref` let through; git refuses components that start
      with a dot or are empty. */
  function ParseRefspec(local: string, remote: string): Option<Refspec> {
    var force := StartsWith(local, "+");
    var source := if force then local[1..] else local;
    if source == "" || source[0] == '.' || source[0] == '/' || StartsWith(remote, ".") then None
    else Some(Refspec(force, source, FullName(remote)))
  }

  /** Which refspec two names make: a '+' in front is force and not part of the name; the source
      may start with neither a dot nor a slash, the destination not with a dot; and a
      destination that is not a full name is one under "refs/" when it names its kind, and
      otherwise a branch. */
  lemma RefspecIff(local: string, remote: string, spec: Refspec)
    ensures ParseRefspec(local, remote) == Some(spec) <==>
            && local == (if spec.force then "+" else "") + spec.source
            && spec.source != "" && spec.source[0] != '.' && spec.source[0] != '/' &&
              (spec.force || spec.source[0] != '+')
            && !("." <= remote)
            && spec.destination ==
               if "refs/" <= remote then remote
               else if "heads/" <= remote || "tags/" <= remote || "remotes/" <= remote then "refs/" + remote
               else "refs/heads/" + remote
  {
    assert local != "" ==> local == [local[0]] + local[1..];
    assert "" + spec.source == spec.source && ("+" + spec.source)[1..] == spec.source;
    if local != "" { assert local[..1] == [local[0]]; }
  }

  // ---------------------------------------------------------------- the fetch

  /** Whether git lets the ref move to `tip`.  Without force a tag never moves, a branch only
      forward, and any other ref forward or whenever either end leads to no commit. */
  predicate Accepts(refs: Refs, name: string, tip: string, force: bool, history: History) {
    if name in refs && refs[name] == tip then true
    else
      && MayHold(name, tip, history)
      && (name !in refs || force ||
          (!IsTag(name) &&
           (history.ancestor(refs[name], tip) || history.kind(refs[name]) == Other || history.kind(tip) == Other)))
  }

  /** The bundle's tags for which there is no ref yet. */
  function NewTags(bundle: Bundle, refs: Refs): Refs {
    map n | n in bundle.tips && IsTag(n) && n !in refs :: bundle.tips[n]
  }

  /** Tags that git follows at once, with the named ref: their objects are already held, or are its tip. */
  function EarlyTags(dir: Node, bundle: Bundle, spec: Refspec, tip: string): Refs
    requires dir.Directory?
  {
    var tags := NewTags(bundle, dir.refs);
    map n | n in tags && n != spec.destination && (tags[n] in dir.objects || tags[n] == tip) :: tags[n]
  }

  /** Tags that git follows once the rest has succeeded: those whose objects have arrived. */
  function LateTags(bundle: Bundle, refs: Refs, objects: set<string>): Refs {
    var tags := NewTags(bundle, refs);
    map n | n in tags && tags[n] in objects :: tags[n]
  }

  function Created(tags: Refs, env: Env): Refs {
    map n | n in tags && env.tagOk(n) :: tags[n]
  }

  predicate AllCreated(tags: Refs, env: Env) {
    forall n :: n in tags ==> env.tagOk(n)
  }

  /** What a fetch leaves behind, and whether it succeeded. */
  datatype Fetched = Fetched(dir: Node, ok: bool)

  /** The objects of the bundle are unpacked unless the repository holds the tip already. */
  function Unpacked(dir: Node, bundle: Bundle, tip: string): set<string>
    requires dir.Directory?
  {
    if tip in dir.objects then dir.objects else dir.objects + bundle.objects
  }

  /** The named ref and the early tags; any failure among them is the end of it. */
  function FetchNamed(dir: Node, bundle: Bundle, spec: Refspec, tip: string, force: bool, env: Env): (r: Fetched)
    requires dir.Directory?
    ensures r.dir.Directory?
  {
    var early := EarlyTags(dir, bundle, spec, tip);
    var accepted := env.refOk && Accepts(dir.refs, spec.destination, tip, force || spec.force, env.history);
    var refs := dir.refs + Created(early, env);
    Fetched(
      Directory(dir.bare, if accepted then refs[spec.destination := tip] else refs, Unpacked(dir, bundle, tip)),
      accepted && AllCreated(early, env))
  }

  /** git fetch of one refspec from a bundle. */
  function GitFetch(dir: Node, bundle: Bundle, spec: Refspec, tip: string, force: bool, env: Env): (r: Fetched)
    requires dir.Directory?
    ensures r.dir.Directory?
  {
    var tags := NewTags(bundle, dir.refs);
    var clash := spec.destination in tags && tags[spec.destination] in dir.objects && tags[spec.destination] != tip;
    if clash then Fetched(dir, false)
    else
      var named := FetchNamed(dir, bundle, spec, tip, force, env);
      if !named.ok then named
      else
        var late := LateTags(bundle, named.dir.refs, named.dir.objects);
        Fetched(named.dir.(refs := named.dir.refs + Created(late, env)), AllCreated(late, env))
  }

  /** Verifies the bundle and fetches `local:remote` from it. */
  function ApplyPushBundle(dir: Node, bundle: Bundle, local: string, remote: string, force: bool,
                           env: Env): (r: Fetched)
    requires dir.Directory?
    ensures r.dir.Directory?
  {
    if !env.bundleOk || !SanRef(local) || !SanRef(remote) then Fetched(dir, false)
    else
      var spec := ParseRefspec(local, remote);
      if spec.None? then Fetched(dir, false)
      else
        var tip := TipFor(bundle.tips, spec.value.source);
        if tip.None? then Fetched(dir, false) else GitFetch(dir, bundle, spec.value, tip.value, force, env)
  }

  // ---------------------------------------------------------------- what a fetch may change

  /** A ref that was there stays where it was, or is the destination and moves as git lets it. */
  predicate StaysOrMoves(dir: Node, spec: Refspec, tip: string, force: bool, env: Env, after: Node, n: string)
    requires dir.Directory? && after.Directory?
  {
    n in dir.refs ==>
      n in after.refs &&
      (after.refs[n] == dir.refs[n] ||
       (n == spec.destination && after.refs[n] == tip && Accepts(dir.refs, n, tip, force || spec.force, env.history)))
  }

  /** A ref that appears is the destination at the tip, or a tag of the bundle. */
  predicate AppearsWith(dir: Node, bundle: Bundle, spec: Refspec, tip: string, env: Env, after: Node, n: string)
    requires dir.Directory? && after.Directory?
  {
    n in after.refs && n !in dir.refs ==>
      (n == spec.destination && after.refs[n] == tip && MayHold(n, tip, env.history)) ||
      (IsTag(n) && n in bundle.tips && after.refs[n] == bundle.tips[n] &&
        (after.refs[n] in after.objects || after.refs[n] == tip))
  }

  lemma NamedAt(dir: Node, bundle: Bundle, spec: Refspec, tip: string, force: bool, env: Env, n: string)
    requires dir.Directory?
    ensures var after := FetchNamed(dir, bundle, spec, tip, force, env).dir;
            StaysOrMoves(dir, spec, tip, force, env, after, n) && AppearsWith(dir, bundle, spec, tip, env, after, n)
  {
    hide MayHold, IsTag, NewTags;
    NewTagsAt(bundle, dir.refs, n);
  }

  lemma NewTagsAt(bundle: Bundle, refs: Refs, n: string)
    ensures n in NewTags(bundle, refs) <==> n in bundle.tips && IsTag(n) && n !in refs
    ensures n in NewTags(bundle, refs) ==> NewTags(bundle, refs)[n] == bundle.tips[n]
  {
  }

  lemma FetchAt(dir: Node, bundle: Bundle, spec: Refspec, tip: string, force: bool, env: Env, n: string)
    requires dir.Directory?
    ensures var after := GitFetch(dir, bundle, spec, tip, force, env).dir;
            StaysOrMoves(dir, spec, tip, force, env, after, n) && AppearsWith(dir, bundle, spec, tip, env, after, n)
  {
    hide MayHold, IsTag, NewTags, FetchNamed, Accepts;
    var named := FetchNamed(dir, bundle, spec, tip, force, env);
    NamedAt(dir, bundle, spec, tip, force, env, n);
    NewTagsAt(bundle, named.dir.refs, n);
    NewTagsAt(bundle, dir.refs, n);
  }

  lemma FetchObjects(dir: Node, bundle: Bundle, spec: Refspec, tip: string, force: bool, env: Env)
    requires dir.Directory?
    ensures var after := GitFetch(dir, bundle, spec, tip, force, env).dir;
            && after.bare == dir.bare && (after == dir || after.objects == Unpacked(dir, bundle, tip))
            && (GitFetch(dir, bundle, spec, tip, force, env).ok ==> after.objects == Unpacked(dir, bundle, tip))
            && dir.objects <= after.objects
  {
    hide NewTags, EarlyTags, LateTags, Accepts, AllCreated, Created;
  }

  /** A fetch that succeeds has moved the destination and created every tag whose object is there. */
  lemma FetchBrings(dir: Node, bundle: Bundle, spec: Refspec, tip: string, force: bool, env: Env, n: string)
    requires dir.Directory? && GitFetch(dir, bundle, spec, tip, force, env).ok
    ensures var after := GitFetch(dir, bundle, spec, tip, force, env).dir;
            && spec.destination in after.refs && after.refs[spec.destination] == tip
            && (n != spec.destination && n !in dir.refs && IsTag(n) && n in bundle.tips
                && bundle.tips[n] in after.objects
                ==> n in after.refs && after.refs[n] == bundle.tips[n])
  {
    hide MayHold, IsTag, NewTags, Accepts;
    var named := FetchNamed(dir, bundle, spec, tip, force, env);
    NewTagsAt(bundle, named.dir.refs, n);
    NewTagsAt(bundle, named.dir.refs, spec.destination);
    NewTagsAt(bundle, dir.refs, n);
  }

  /** When git can create every tag, and the destination is no other tag of the bundle, a fetch
      succeeds exactly when the named ref may move. */
  lemma FetchSucceedsIff(dir: Node, bundle: Bundle, spec: Refspec, tip: string, force: bool, env: Env)
    requires dir.Directory? && (forall n :: n in bundle.tips ==> env.tagOk(n))
    requires spec.destination in bundle.tips ==> bundle.tips[spec.destination] == tip
    ensures GitFetch(dir, bundle, spec, tip, force, env).ok <==>
            env.refOk && Accepts(dir.refs, spec.destination, tip, force || spec.force, env.history)
  {
    hide MayHold, IsTag, Accepts;
  }

  /** When the named ref ends at the tip: it was there already, or it may be moved: nothing but a
      commit to a branch, a new ref always, any ref under force, and without force no tag, a
      branch only forward, and any other ref forward or where either end leads to no commit. */
  lemma FetchMovesIff(dir: Node, bundle: Bundle, spec: Refspec, tip: string, force: bool, env: Env)
    requires dir.Directory?
    requires spec.destination in bundle.tips ==> bundle.tips[spec.destination] == tip
    ensures var after, d := GitFetch(dir, bundle, spec, tip, force, env).dir, spec.destination;
            var was, history := if d in dir.refs then Some(dir.refs[d]) else None, env.history;
            d in after.refs && after.refs[d] == tip <==>
            was == Some(tip) ||
            (&& env.refOk && ("refs/heads/" <= d ==> history.kind(tip) == Commit)
             && (was.None? || force || spec.force ||
                 (!("refs/tags/" <= d) &&
                  (history.ancestor(was.value, tip) || history.kind(was.value) == Other ||
                    history.kind(tip) == Other))))
  {
    hide Created;
    FetchAt(dir, bundle, spec, tip, force, env, spec.destination);
    NewTagsAt(bundle, dir.refs, spec.destination);
    OnlyMissing(dir, bundle, spec, tip, env);
  }

  lemma OnlyMissing(dir: Node, bundle: Bundle, spec: Refspec, tip: string, env: Env)
    requires dir.Directory?
    ensures spec.destination !in Created(EarlyTags(dir, bundle, spec, tip), env)
    ensures forall refs: Refs, objects :: spec.destination in refs ==>
              spec.destination !in Created(LateTags(bundle, refs, objects), env)
    ensures forall n :: n in dir.refs ==> n !in Created(EarlyTags(dir, bundle, spec, tip), env)
  {
  }

  /** The destination is a new tag that the bundle has elsewhere and whose object is held. */
  predicate Clashes(dir: Node, bundle: Bundle, spec: Refspec, tip: string)
    requires dir.Directory?
  {
    var d, tips := spec.destination, bundle.tips;
    "refs/tags/" <= d && d in tips && d !in dir.refs && tips[d] in dir.objects && tips[d] != tip
  }

  /** A tag of the bundle without a ref, besides the destination. */
  predicate FollowedTag(dir: Node, bundle: Bundle, spec: Refspec, n: string)
    requires dir.Directory?
  {
    "refs/tags/" <= n && n in bundle.tips && n !in dir.refs && n != spec.destination
  }

  /** Its object is held, or is the tip. */
  predicate IsEarly(dir: Node, bundle: Bundle, tip: string, n: string)
    requires dir.Directory? && n in bundle.tips
  {
    bundle.tips[n] in dir.objects || bundle.tips[n] == tip
  }

  /** The named ref may move, and git can create every early tag. */
  ghost predicate FirstPartOk(dir: Node, bundle: Bundle, spec: Refspec, tip: string, force: bool, env: Env)
    requires dir.Directory?
  {
    && env.refOk && Accepts(dir.refs, spec.destination, tip, force || spec.force, env.history)
    && forall n :: FollowedTag(dir, bundle, spec, n) && IsEarly(dir, bundle, tip, n) ==> env.tagOk(n)
  }

  lemma FirstPartIff(dir: Node, bundle: Bundle, spec: Refspec, tip: string, force: bool, env: Env)
    requires dir.Directory?
    ensures FetchNamed(dir, bundle, spec, tip, force, env).ok <==> FirstPartOk(dir, bundle, spec, tip, force, env)
  {
    hide Accepts;
    var early := EarlyTags(dir, bundle, spec, tip);
    forall n ensures n in early <==> FollowedTag(dir, bundle, spec, n) && IsEarly(dir, bundle, tip, n) {
      NewTagsAt(bundle, dir.refs, n);
    }
  }

  /** Which tags a fetch brings along: of the bundle's tags that have no ref yet and that git can
      create, those whose object is held or is the tip; and, once the named ref and all of those
      are in place, every one whose object has arrived.  A tag that clashes with the destination
      stops the fetch before anything happens. */
  lemma FetchFollowsIff(dir: Node, bundle: Bundle, spec: Refspec, tip: string, force: bool, env: Env, n: string)
    requires dir.Directory? && FollowedTag(dir, bundle, spec, n)
    ensures var arrived := bundle.tips[n] in dir.objects || (tip !in dir.objects && bundle.tips[n] in bundle.objects);
            (Clashes(dir, bundle, spec, tip) ==> GitFetch(dir, bundle, spec, tip, force, env) == Fetched(dir, false)) &&
            (!Clashes(dir, bundle, spec, tip) ==>
               (n in GitFetch(dir, bundle, spec, tip, force, env).dir.refs <==>
                env.tagOk(n) &&
                (IsEarly(dir, bundle, tip, n) || (FirstPartOk(dir, bundle, spec, tip, force, env) && arrived))))
  {
    hide Accepts, NewTags, FirstPartOk;
    FirstPartIff(dir, bundle, spec, tip, force, env);
    NewTagsAt(bundle, dir.refs, n);
    NewTagsAt(bundle, dir.refs, spec.destination);
    NewTagsAt(bundle, FetchNamed(dir, bundle, spec, tip, force, env).dir.refs, n);
  }

  lemma TipIsATip(tips: map<string, string>, name: string)
    ensures TipFor(tips, name).Some? ==> TipFor(tips, name).value in tips.Values
  {
  }

  // ---------------------------------------------------------------- what every repository keeps

  /** Refs are object names as git writes them, and branches hold commits. */
  ghost predicate Kept(dir: Node, history: History)
    requires dir.Directory?
  {
    forall n :: n in dir.refs ==> Lower(dir.refs[n]) == dir.refs[n] && MayHold(n, dir.refs[n], history)
  }

  ghost predicate LowerNames(bundle: Bundle) {
    forall n :: n in bundle.tips ==> Lower(bundle.tips[n]) == bundle.tips[n]
  }

  lemma FetchKeeps(dir: Node, bundle: Bundle, spec: Refspec, tip: string, force: bool, env: Env)
    requires dir.Directory? && Kept(dir, env.history) && LowerNames(bundle) && Lower(tip) == tip
    ensures Kept(GitFetch(dir, bundle, spec, tip, force, env).dir, env.history)
  {
    hide GitFetch, Lower;
    var after := GitFetch(dir, bundle, spec, tip, force, env).dir;
    forall n | n in after.refs ensures Lower(after.refs[n]) == after.refs[n] && MayHold(n, after.refs[n], env.history) {
      FetchAt(dir, bundle, spec, tip, force, env, n);
      TagIsNoBranch(n);
    }
  }

  lemma TagIsNoBranch(n: string)
    ensures !(IsTag(n) && IsBranch(n))
  {
    assert IsTag(n) ==> n[5] == TAGS_PREFIX[5];
    assert IsBranch(n) ==> n[5] == HEADS_PREFIX[5];
  }

  /** Each ref of `a` is still in `b`, where it was or at a descendant. */
  ghost predicate OnlyAdvanced(a: Refs, b: Refs, history: History) {
    forall n :: n in a ==> n in b && (b[n] == a[n] || history.ancestor(a[n], b[n]))
  }

  lemma UnforcedFetchOnlyAdvances(dir: Node, bundle: Bundle, spec: Refspec, tip: string, env: Env)
    requires dir.Directory? && Kept(dir, env.history) && !spec.force &&
             (IsBranch(spec.destination) || IsTag(spec.destination))
    ensures OnlyAdvanced(dir.refs, GitFetch(dir, bundle, spec, tip, false, env).dir.refs, env.history)
  {
    hide GitFetch, Lower;
    var after := GitFetch(dir, bundle, spec, tip, false, env).dir;
    forall n | n in dir.refs
      ensures n in after.refs && (after.refs[n] == dir.refs[n] || env.history.ancestor(dir.refs[n], after.refs[n]))
    {
      FetchAt(dir, bundle, spec, tip, false, env, n);
    }
  }

  // ---------------------------------------------------------------- facts about names

  /** A short name git completes is still a proper ref name, unless it starts with a dot. */
  lemma FullNameIsSane(name: string)
    requires SanRef(name) && !StartsWith(name, ".")
    ensures SanRef(FullName(name)) && StartsWith(FullName(name), REFS_PREFIX)
  {
    hide SanRef;
    if !StartsWith(name, REFS_PREFIX) {
      PrefixIsSane(REFS_PREFIX, name);
      PrefixIsSane(HEADS_PREFIX, name);
    }
  }

  lemma PrefixIsSane(prefix: string, name: string)
    requires prefix in {REFS_PREFIX, HEADS_PREFIX} && SanRef(name) && !StartsWith(name, ".")
    ensures SanRef(prefix + name)
  {
    hide Contains;
    var full := prefix + name;
    assert full + "/" == prefix + (name + "/");
    assert name[0] != '.' && name[0] != '/';
    NotAcross(prefix, name, "..");
    NotAcross(prefix, name, "/.");
    NotAcross(prefix, name, "//");
    NotAcross(prefix, name + "/", ".lock/");
    assert full[|full| - 1] == name[|name| - 1];
  }

  /** Nothing forbidden starts inside the prefix. */
  lemma NotAcross(prefix: string, name: string, part: string)
    requires prefix in {REFS_PREFIX, HEADS_PREFIX} && part in {"..", "/.", "//", ".lock/"}
    requires name != "" && name[0] != '.' && name[0] != '/'
    ensures Contains(prefix + name, part) ==> Contains(name, part)
  {
    hide StartsWith;
    var full := prefix + name;
    if Contains(full, part) {
      var i :| 0 <= i <= |full| && StartsWith(full[i..], part);
      FirstTwo(full[i..], part);
      PrefixEnds(prefix, name, i);
      if i >= |prefix| { assert full[i..] == name[i - |prefix|..]; }
    }
  }

  lemma FirstTwo(s: string, part: string)
    requires |part| >= 2
    ensures StartsWith(s, part) ==> |s| >= 2 && s[0] == part[0] && s[1] == part[1]
  {
  }

  /** Two dots, slashes or one of each in a row do not start inside the prefix. */
  lemma PrefixEnds(prefix: string, name: string, i: nat)
    requires prefix in {REFS_PREFIX, HEADS_PREFIX} && name != "" && name[0] != '.' && name[0] != '/'
    requires i + 1 < |prefix + name|
    ensures var full := prefix + name;
            i < |prefix| ==> full[i] != '.' && (full[i] == '/' ==> full[i + 1] != '.' && full[i + 1] != '/')
  {
    var full := prefix + name;
    assert i + 1 < |prefix| ==> full[i] == prefix[i] && full[i + 1] == prefix[i + 1];
    assert i + 1 == |prefix| ==> full[i + 1] == name[0];
  }
}
