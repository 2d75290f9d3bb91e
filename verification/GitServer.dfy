/**
  The git server's request handlers (src/bin/rngit/server.rs): list, repos, fetch, push,
  delete and create over a filesystem of repositories and access files.
 */
module GitServer {
  import opened Wrappers
  import opened Bytes
  import opened Text
  import opened Acl
  import opened Repositories
  import opened BundleFetch

  const RES_OK: byte := 0x00
  const RES_DISALLOWED: byte := 0x01
  const RES_INVALID_REQ: byte := 0x02
  const RES_NOT_FOUND: byte := 0x03
  const RES_REMOTE_FAIL: byte := 0xFF

  type Peer = p: bytes | |p| == 16 witness seq(16, _ => 0)

  datatype Cfg = Cfg(
    repositories: map<string, Path>, access: map<string, seq<string>>,
    aliases: Aliases, blocked: seq<string>)

  /** A result code with a message, or what an OK carries: the refs of a list, the names of
      a listing of repositories, or a bundle of these tips without these objects. */
  datatype Response =
    | Message(code: byte, body: string)
    | RefList(refs: Refs)
    | Listing(names: set<string>)
    | Pack(tips: Refs, without: set<string>)

  predicate IsOk(r: Response) { !r.Message? || r.code == RES_OK }

  datatype Op = NotAMap | Op(action: string, name: Option<string>, sha: Option<string>, force: bool)

  datatype FetchRef = NotARef | FetchRef(name: Option<string>, have: Option<string>)

  datatype Request =
    | Repos(filter: Option<string>)
    | Fetch(repository: Option<string>, wants: Option<seq<FetchRef>>, haves: seq<Option<string>>)
    | ListRefs(repository: Option<string>, forPush: bool)
    | Push(repository: Option<string>, local: Option<string>, remote: Option<string>, force: bool,
           bundle: Option<Bundle>, operations: Option<seq<Op>>)
    | Delete(repository: Option<string>, name: Option<string>)
    | Create(repository: Option<string>)

  function NotIdentified(): Response { Message(RES_DISALLOWED, "Not identified") }
  function InvalidRequest(): Response { Message(RES_INVALID_REQ, "Invalid request") }
  function Done(): Response { Message(RES_OK, "") }
  function NotFound(): Response { Message(RES_NOT_FOUND, "Not found") }

  // ---------------------------------------------------------------- access

  predicate Blocked(cfg: Cfg, peer: Peer) {
    exists i :: 0 <= i < |cfg.blocked| && Lower(cfg.blocked[i]) == HexEncode(peer)
  }

  function GroupAccess(cfg: Cfg, fs: Fs, group: string, path: Path): AccessLists {
    ListsOf(GroupInput(ReadText(fs, AclPath(path)), if group in cfg.access then cfg.access[group] else []), cfg.aliases)
  }

  function RepoAccess(cfg: Cfg, fs: Fs, path: Path): AccessLists {
    match ReadText(fs, AclPath(path))
    case Some(content) => ListsOf(content, cfg.aliases)
    case None => NO_LISTS
  }

  datatype RepoAccessResult = RepoAccessResult(path: Path, repo: AccessLists, group: AccessLists)

  function ResolveRepoAccess(cfg: Cfg, fs: Fs, group: string, repo: string): Option<RepoAccessResult> {
    if group !in cfg.repositories || !IsDir(fs, cfg.repositories[group]) then None
    else
      var path := RepoDir(cfg.repositories[group], repo);
      if path.None? || !IsDir(fs, path.value) then None
      else Some(RepoAccessResult(path.value, RepoAccess(cfg, fs, path.value),
        GroupAccess(cfg, fs, group, cfg.repositories[group])))
  }

  predicate ResolvePerm(cfg: Cfg, fs: Fs, peer: Peer, group: string, repo: string, perm: Perm) {
    !Blocked(cfg, peer) &&
    var a := ResolveRepoAccess(cfg, fs, group, repo);
    a.Some? && ResolvePermission(a.value.repo, a.value.group, peer, perm)
  }

  predicate ResolveGroupPerm(cfg: Cfg, fs: Fs, peer: Peer, group: string, perm: Perm) {
    && !Blocked(cfg, peer)
    && group in cfg.repositories && IsDir(fs, cfg.repositories[group])
    && ResolveGroupPermission(GroupAccess(cfg, fs, group, cfg.repositories[group]), peer, perm)
  }

  predicate RepoMissing(cfg: Cfg, fs: Fs, group: string, repo: string) {
    && group in cfg.repositories && IsDir(fs, cfg.repositories[group])
    && var path := RepoDir(cfg.repositories[group], repo);
       path.Some? && path.value !in fs
  }

  // ---------------------------------------------------------------- handlers as functions of the filesystem

  function CreateRepoOnPush(cfg: Cfg, fs: Fs, peer: Peer, group: string, repo: string, env: Env): Option<Fs> {
    if !RepoMissing(cfg, fs, group, repo) || !ResolveGroupPerm(cfg, fs, peer, group, Perm.Create) then None
    else CreateRepository(fs, cfg.repositories[group], repo, peer, env)
  }

  /** The refusal both push and delete give: it hides a repository the peer cannot read. */
  function Refusal(read: bool): Response {
    if read then Message(RES_DISALLOWED, "Not allowed") else NotFound()
  }

  /** The repository a push may work on, after creating it if that is what the push needs. */
  function AuthorizePush(cfg: Cfg, fs: Fs, peer: Peer, group: string, repo: string, env: Env)
    : Result<(Fs, Path), Response>
  {
    var read, write := ResolvePerm(cfg, fs, peer, group, repo, Perm.Read),
      ResolvePerm(cfg, fs, peer, group, repo, Perm.Write);
    var created := if write then None else CreateRepoOnPush(cfg, fs, peer, group, repo, env);
    if !write && created.None? then Err(Refusal(read))
    else
      var fs1 := if write then fs else created.value;
      var a := ResolveRepoAccess(cfg, fs1, group, repo);
      if a.None? then Err(NotFound()) else Ok((fs1, a.value.path))
  }

  /** The operations of a push from the `k`-th on; the first failure stops the rest. */
  function ApplyOps(dir: Node, ops: seq<Op>, k: nat, env: Env): (r: (Node, Response))
    requires dir.Directory? && k <= |ops|
    ensures r.0.Directory?
    decreases |ops| - k
  {
    if k == |ops| then (dir, Done())
    else
      var op := ops[k];
      if op.NotAMap? then (dir, Message(RES_INVALID_REQ, "Invalid data for operations"))
      else if op.action != "update_ref" then (dir, Message(RES_INVALID_REQ, "Unknown operation: " + op.action))
      else if op.name.None? || !SanRef(op.name.value) || !StartsWith(op.name.value, REFS_PREFIX) then
        (dir, InvalidRequest())
      else if op.sha.None? || !SanSha(op.sha.value) then (dir, Message(RES_INVALID_REQ, "Invalid SHA"))
      else
        match UpdateRef(dir, op.name.value, op.sha.value, op.force, env.updateOk(k), env.history)
        case None => (dir, Message(RES_REMOTE_FAIL, "Could not update refs"))
        case Some(dir1) => ApplyOps(dir1, ops, k + 1, env)
  }

  /** What an authorized push does to its repository. */
  function ApplyPush(dir: Node, req: Request, env: Env): (r: (Node, Response))
    requires dir.Directory? && req.Push?
    ensures r.0.Directory?
  {
    if req.bundle.Some? then
      if req.local.None? || req.remote.None? then (dir, Message(RES_INVALID_REQ, "Missing ref specification"))
      else if !SanRef(req.local.value) || !SanRef(req.remote.value) then (dir, InvalidRequest())
      else
        var fetched := ApplyPushBundle(dir, req.bundle.value, req.local.value, req.remote.value, req.force, env);
        (fetched.dir, if fetched.ok then Done() else Message(RES_REMOTE_FAIL, "Could not verify bundle"))
    else if req.operations.Some? then ApplyOps(dir, req.operations.value, 0, env)
    else (dir, Message(RES_INVALID_REQ, "Invalid request data"))
  }

  function HandleList(cfg: Cfg, fs: Fs, peer: Peer, group: string, repo: string, forPush: bool, env: Env): Response {
    var read, write := ResolvePerm(cfg, fs, peer, group, repo, Perm.Read),
      ResolvePerm(cfg, fs, peer, group, repo, Perm.Write);
    if !(if forPush then write else read) then
      if forPush && RepoMissing(cfg, fs, group, repo) && ResolveGroupPerm(cfg, fs, peer, group, Perm.Create) then Done()
      else if read then Message(RES_NOT_FOUND, "Not allowed")
      else NotFound()
    else
      var a := ResolveRepoAccess(cfg, fs, group, repo);
      if a.None? then NotFound()
      else if !env.listOk then Message(RES_REMOTE_FAIL, "Could not list refs")
      else RefList(fs[a.value.path].refs)
  }

  /** The wanted refs from the `k`-th on, each with the object the client has of it. */
  function ReadWants(wants: seq<FetchRef>, k: nat): Result<seq<(string, Option<string>)>, Response>
    requires k <= |wants|
    decreases |wants| - k
  {
    if k == |wants| then Ok([])
    else
      var w := wants[k];
      if w.NotARef? || w.name.None? || !SanRef(w.name.value) then Err(InvalidRequest())
      else if w.have.Some? && !SanSha(w.have.value) then Err(Message(RES_INVALID_REQ, "Invalid SHA"))
      else match ReadWants(wants, k + 1)
        case Err(r) => Err(r)
        case Ok(rest) => Ok([(w.name.value, w.have)] + rest)
  }

  function Prepend<T>(front: seq<T>, r: Result<seq<T>, Response>): Result<seq<T>, Response> {
    if r.Ok? then Ok(front + r.value) else r
  }

  predicate HavesAreShas(haves: seq<Option<string>>) {
    forall i :: 0 <= i < |haves| ==> haves[i].Some? && SanSha(haves[i].value)
  }

  /** The refs of a fetch bundle: those wanted that resolve to something. */
  function WantedTips(refs: Refs, wants: seq<(string, Option<string>)>): Refs {
    map n | n in (set w | w in wants :: w.0) && TipFor(refs, n).Some? :: TipFor(refs, n).value
  }

  /** The objects left out of it: those the client has and the repository holds. */
  function Excluded(dir: Node, wants: seq<(string, Option<string>)>, haves: seq<Option<string>>): set<string>
    requires dir.Directory?
  {
    (set w | w in wants && TipFor(dir.refs, w.0).Some? && w.1.Some? && Lower(w.1.value) in dir.objects ::
        Lower(w.1.value))
    + (set h | h in haves && h.Some? && Lower(h.value) in dir.objects :: Lower(h.value))
  }

  function OfferBundle(dir: Node, wants: seq<(string, Option<string>)>, haves: seq<Option<string>>, env: Env): Response
    requires dir.Directory?
  {
    if WantedTips(dir.refs, wants) == map[] then Done()
    else match env.offer
      case Offered => Pack(WantedTips(dir.refs, wants), Excluded(dir, wants, haves))
      case NothingNew => Done()
      case OfferFailed => Message(RES_REMOTE_FAIL, "Could not fetch refs")
  }

  function HandleFetch(cfg: Cfg, fs: Fs, peer: Peer, group: string, repo: string, req: Request, env: Env): Response
    requires req.Fetch?
  {
    var a := ResolveRepoAccess(cfg, fs, group, repo);
    if !ResolvePerm(cfg, fs, peer, group, repo, Perm.Read) || a.None? then NotFound()
    else if req.wants.None? then Message(RES_INVALID_REQ, "No refs specified")
    else
      match ReadWants(req.wants.value, 0)
      case Err(r) => r
      case Ok(wants) =>
        if !HavesAreShas(req.haves) then Message(RES_INVALID_REQ, "Invalid SHA")
        else OfferBundle(fs[a.value.path], wants, req.haves, env)
  }

  /** The bare repository at `p` is one of this group's, and the peer may read it. */
  predicate Readable(cfg: Cfg, fs: Fs, peer: Peer, group: string, p: Path) {
    && group in cfg.repositories && IsDir(fs, cfg.repositories[group])
    && |p| > 1 && p[..|p| - 1] == cfg.repositories[group]
    && IsDir(fs, p) && fs[p].bare
    && ResolvePerm(cfg, fs, peer, group, Base(p), Perm.Read)
  }

  function NamesIn(cfg: Cfg, fs: Fs, peer: Peer, group: string): set<string> {
    set p | p in fs && Readable(cfg, fs, peer, group, p) :: group + "/" + Base(p)
  }

  function ReadableNames(cfg: Cfg, fs: Fs, peer: Peer, groups: set<string>): set<string> {
    set group, name | group in groups && name in NamesIn(cfg, fs, peer, group) :: name
  }

  /** An empty filter is no filter; the names are sent sorted, which their set determines. */
  function HandleRepos(cfg: Cfg, fs: Fs, peer: Peer, filter: Option<string>): Response {
    if filter.None? || filter.value == "" then Listing(ReadableNames(cfg, fs, peer, cfg.repositories.Keys))
    else if filter.value !in cfg.repositories then NotFound()
    else Listing(ReadableNames(cfg, fs, peer, {filter.value}))
  }

  function HandlePush(cfg: Cfg, fs: Fs, peer: Peer, group: string, repo: string, req: Request, env: Env): (Fs, Response)
    requires req.Push?
  {
    match AuthorizePush(cfg, fs, peer, group, repo, env)
    case Err(r) => (fs, r)
    case Ok(target) =>
      var (fs1, path) := target;
      if !IsDir(fs1, path) then (fs1, NotFound())
      else
        var (dir, r) := ApplyPush(fs1[path], req, env);
        (fs1[path := dir], r)
  }

  function HandleDelete(cfg: Cfg, fs: Fs, peer: Peer, group: string, repo: string, name: Option<string>, env: Env)
    : (Fs, Response)
  {
    var read, write := ResolvePerm(cfg, fs, peer, group, repo, Perm.Read),
      ResolvePerm(cfg, fs, peer, group, repo, Perm.Write);
    var a := ResolveRepoAccess(cfg, fs, group, repo);
    if !write then (fs, Refusal(read))
    else if a.None? then (fs, NotFound())
    else if name.None? || !SanRef(name.value) || !StartsWith(name.value, REFS_PREFIX) then (fs, InvalidRequest())
    else if TipFor(fs[a.value.path].refs, name.value).None? then (fs, NotFound())
    else match DeleteRef(fs[a.value.path], name.value, env.deleteOk)
      case None => (fs, Message(RES_REMOTE_FAIL, "Could not delete ref"))
      case Some(dir) => (fs[a.value.path := dir], Done())
  }

  function HandleCreate(cfg: Cfg, fs: Fs, peer: Peer, group: string, repo: string, env: Env): (Fs, Response) {
    if group !in cfg.repositories || !IsDir(fs, cfg.repositories[group]) then (fs, NotFound())
    else if !ResolveGroupPerm(cfg, fs, peer, group, Perm.Create) then
      (fs, Refusal(ResolveGroupPerm(cfg, fs, peer, group, Perm.Read)))
    else
      var path := RepoDir(cfg.repositories[group], repo);
      if path.None? then (fs, InvalidRequest())
      else if path.value in fs then
        var read := ResolvePerm(cfg, fs, peer, group, repo, Perm.Read);
        (fs, if read then Message(RES_DISALLOWED, "Repository already exists") else NotFound())
      else match CreateRepository(fs, cfg.repositories[group], repo, peer, env)
        case None => (fs, Message(RES_REMOTE_FAIL, "Could not initialize repository"))
        case Some(fs1) => (fs1, Done())
  }

  /** One request: what the filesystem becomes, and the answer. */
  function Handle(cfg: Cfg, fs: Fs, peer: Option<Peer>, req: Request, env: Env): (Fs, Response) {
    if peer.None? then (fs, NotIdentified())
    else if req.Repos? then (fs, HandleRepos(cfg, fs, peer.value, req.filter))
    else if req.repository.None? then (fs, InvalidRequest())
    else match ParseRequestPath(req.repository.value)
      case None => (fs, if req.Create? then InvalidRequest() else NotFound())
      case Some(name) =>
        var (group, repo) := name;
        match req
        case Fetch(_, _, _) => (fs, HandleFetch(cfg, fs, peer.value, group, repo, req, env))
        case ListRefs(_, forPush) => (fs, HandleList(cfg, fs, peer.value, group, repo, forPush, env))
        case Push(_, _, _, _, _, _) => HandlePush(cfg, fs, peer.value, group, repo, req, env)
        case Delete(_, ref) => HandleDelete(cfg, fs, peer.value, group, repo, ref, env)
        case Create(_) => HandleCreate(cfg, fs, peer.value, group, repo, env)
  }

  // ---------------------------------------------------------------- the server that changes the filesystem

  class Server {
    const cfg: Cfg
    var fs: Fs

    constructor (cfg: Cfg, fs: Fs)
      ensures this.cfg == cfg && this.fs == fs
    {
      this.cfg, this.fs := cfg, fs;
    }

    method CreateRepository(group: Path, repo: string, creator: Peer, env: Env) returns (ok: bool)
      modifies `fs
      ensures var r := Repositories.CreateRepository(old(fs), group, repo, creator, env);
              ok == r.Some? && fs == if ok then r.value else old(fs)
    {
      var path := RepoDir(group, repo);
      if path.None? || path.value in fs { return false; }
      ghost var before := fs;
      fs := fs[path.value := EMPTY_REPOSITORY];
      if !env.initOk {
        fs := fs - {path.value};
        assert fs == before;
        return false;
      }
      var acl := AclPath(path.value);
      AclPathDiffers(path.value);
      if !env.aclWriteOk || IsDir(fs, acl) {
        fs := fs - {path.value};
        assert fs == before;
        return false;
      }
      fs := fs[acl := File(Some(CreatorAcl(creator)))];
      return true;
    }

    method UpdateRefs(path: Path, ops: seq<Op>, env: Env) returns (r: Response)
      requires IsDir(fs, path)
      modifies `fs
      ensures var applied := ApplyOps(old(fs)[path], ops, 0, env);
              fs == old(fs)[path := applied.0] && r == applied.1
    {
      ghost var before := fs;
      for k := 0 to |ops|
        invariant IsDir(fs, path) && fs == before[path := fs[path]]
        invariant ApplyOps(before[path], ops, 0, env) == ApplyOps(fs[path], ops, k, env)
      {
        hide SanRef, SanSha, UpdateRef;
        var op := ops[k];
        if op.NotAMap? { return Message(RES_INVALID_REQ, "Invalid data for operations"); }
        if op.action != "update_ref" { return Message(RES_INVALID_REQ, "Unknown operation: " + op.action); }
        if op.name.None? || !SanRef(op.name.value) || !StartsWith(op.name.value, REFS_PREFIX) {
          return InvalidRequest();
        }
        if op.sha.None? || !SanSha(op.sha.value) { return Message(RES_INVALID_REQ, "Invalid SHA"); }
        var updated := UpdateRef(fs[path], op.name.value, op.sha.value, op.force, env.updateOk(k), env.history);
        if updated.None? { return Message(RES_REMOTE_FAIL, "Could not update refs"); }
        UpdateRefDir(fs[path], op.name.value, op.sha.value, op.force, env.updateOk(k), env.history);
        fs := fs[path := updated.value];
      }
      return Done();
    }

    method Push(peer: Peer, group: string, repo: string, req: Request, env: Env) returns (r: Response)
      requires req.Push?
      modifies `fs
      ensures (fs, r) == HandlePush(cfg, old(fs), peer, group, repo, req, env)
    {
      hide ResolvePerm, ResolveGroupPerm, ResolveRepoAccess, RepoMissing, Repositories.CreateRepository, SanRef,
        ApplyPushBundle, ApplyOps;
      var read := ResolvePerm(cfg, fs, peer, group, repo, Perm.Read);
      var write := ResolvePerm(cfg, fs, peer, group, repo, Perm.Write);
      if !write {
        var created := false;
        if RepoMissing(cfg, fs, group, repo) && ResolveGroupPerm(cfg, fs, peer, group, Perm.Create) {
          GroupOfMissing(cfg, fs, group, repo);
          CreatedResolves(cfg, fs, peer, group, repo, env);
          created := CreateRepository(cfg.repositories[group], repo, peer, env);
        }
        if !created { return Refusal(read); }
      }
      var access := ResolveRepoAccess(cfg, fs, group, repo);
      if access.None? { return NotFound(); }
      var path := access.value.path;
      AccessIsDir(cfg, fs, group, repo);
      if req.bundle.Some? {
        if req.local.None? || req.remote.None? {
          assert fs == fs[path := fs[path]];
          return Message(RES_INVALID_REQ, "Missing ref specification");
        }
        if !SanRef(req.local.value) || !SanRef(req.remote.value) {
          assert fs == fs[path := fs[path]];
          return InvalidRequest();
        }
        var applied := ApplyPushBundle(fs[path], req.bundle.value, req.local.value, req.remote.value, req.force, env);
        fs := fs[path := applied.dir];
        return if applied.ok then Done() else Message(RES_REMOTE_FAIL, "Could not verify bundle");
      }
      if req.operations.Some? {
        r := UpdateRefs(path, req.operations.value, env);
        return;
      }
      assert fs == fs[path := fs[path]];
      return Message(RES_INVALID_REQ, "Invalid request data");
    }

    method Delete(peer: Peer, group: string, repo: string, name: Option<string>, env: Env) returns (r: Response)
      modifies `fs
      ensures (fs, r) == HandleDelete(cfg, old(fs), peer, group, repo, name, env)
    {
      hide ResolvePerm, ResolveRepoAccess, SanRef, DeleteRef;
      var read := ResolvePerm(cfg, fs, peer, group, repo, Perm.Read);
      var write := ResolvePerm(cfg, fs, peer, group, repo, Perm.Write);
      if !write { return Refusal(read); }
      var access := ResolveRepoAccess(cfg, fs, group, repo);
      if access.None? { return NotFound(); }
      var path := access.value.path;
      AccessIsDir(cfg, fs, group, repo);
      if name.None? || !SanRef(name.value) || !StartsWith(name.value, REFS_PREFIX) { return InvalidRequest(); }
      if TipFor(fs[path].refs, name.value).None? { return NotFound(); }
      var deleted := DeleteRef(fs[path], name.value, env.deleteOk);
      if deleted.None? { return Message(RES_REMOTE_FAIL, "Could not delete ref"); }
      fs := fs[path := deleted.value];
      return Done();
    }

    method Create(peer: Peer, group: string, repo: string, env: Env) returns (r: Response)
      modifies `fs
      ensures (fs, r) == HandleCreate(cfg, old(fs), peer, group, repo, env)
    {
      hide ResolvePerm, ResolveGroupPerm, Repositories.CreateRepository;
      if group !in cfg.repositories || !IsDir(fs, cfg.repositories[group]) { return NotFound(); }
      var groupPath := cfg.repositories[group];
      var read := ResolveGroupPerm(cfg, fs, peer, group, Perm.Read);
      var create := ResolveGroupPerm(cfg, fs, peer, group, Perm.Create);
      if !create { return Refusal(read); }
      var path := RepoDir(groupPath, repo);
      if path.None? { return InvalidRequest(); }
      if path.value in fs {
        var existingRead := ResolvePerm(cfg, fs, peer, group, repo, Perm.Read);
        return if existingRead then Message(RES_DISALLOWED, "Repository already exists") else NotFound();
      }
      var ok := CreateRepository(groupPath, repo, peer, env);
      return if ok then Done() else Message(RES_REMOTE_FAIL, "Could not initialize repository");
    }

    /** The bundle a fetch is answered with, after reading what it wants. */
    method Fetch(peer: Peer, group: string, repo: string, req: Request, env: Env) returns (r: Response)
      requires req.Fetch?
      ensures r == HandleFetch(cfg, fs, peer, group, repo, req, env)
    {
      hide ResolvePerm, ResolveRepoAccess, SanRef, SanSha, OfferBundle, Prepend;
      if !ResolvePerm(cfg, fs, peer, group, repo, Perm.Read) { return NotFound(); }
      var access := ResolveRepoAccess(cfg, fs, group, repo);
      if access.None? { return NotFound(); }
      AccessIsDir(cfg, fs, group, repo);
      if req.wants.None? { return Message(RES_INVALID_REQ, "No refs specified"); }
      var wants, read := req.wants.value, [];
      PrependNothing(ReadWants(wants, 0));
      for k := 0 to |wants|
        invariant ReadWants(wants, 0) == Prepend(read, ReadWants(wants, k))
      {
        WantsStep(wants, k, read);
        var w := wants[k];
        if w.NotARef? || w.name.None? || !SanRef(w.name.value) { return InvalidRequest(); }
        if w.have.Some? && !SanSha(w.have.value) { return Message(RES_INVALID_REQ, "Invalid SHA"); }
        read := read + [(w.name.value, w.have)];
      }
      WantsStep(wants, |wants|, read);
      for k := 0 to |req.haves|
        invariant forall i :: 0 <= i < k ==> req.haves[i].Some? && SanSha(req.haves[i].value)
      {
        if req.haves[k].None? || !SanSha(req.haves[k].value) { return Message(RES_INVALID_REQ, "Invalid SHA"); }
      }
      return OfferBundle(fs[access.value.path], read, req.haves, env);
    }

    /** The repositories the peer may read, collected group by group. */
    method Repos(peer: Peer, filter: Option<string>) returns (r: Response)
      ensures r == HandleRepos(cfg, fs, peer, filter)
    {
      hide NamesIn;
      var filtered := filter.Some? && filter.value != "";
      if filtered && filter.value !in cfg.repositories { return NotFound(); }
      var wanted := if filtered then {filter.value} else cfg.repositories.Keys;
      var names, groups := {}, wanted;
      while groups != {}
        invariant groups <= wanted && names == ReadableNames(cfg, fs, peer, wanted - groups)
        decreases |groups|
      {
        var group :| group in groups;
        var more := ReposOf(peer, group);
        names, groups := names + more, groups - {group};
      }
      assert wanted - groups == wanted;
      return Listing(names);
    }

    method ReposOf(peer: Peer, group: string) returns (names: set<string>)
      ensures names == NamesIn(cfg, fs, peer, group)
    {
      hide Readable;
      names := {};
      var entries := fs.Keys;
      while entries != {}
        invariant entries <= fs.Keys
        invariant names == set p | p in fs && p !in entries && Readable(cfg, fs, peer, group, p) ::
                    group + "/" + Base(p)
        decreases |entries|
      {
        var p: Path :| p in entries;
        if Readable(cfg, fs, peer, group, p) { names := names + {group + "/" + Base(p)}; }
        entries := entries - {p};
      }
    }

    /** Routes one request of an identified or unidentified peer. */
    method Serve(peer: Option<Peer>, req: Request, env: Env) returns (r: Response)
      modifies `fs
      ensures (fs, r) == Handle(cfg, old(fs), peer, req, env)
    {
      hide HandleRepos, HandleFetch, HandleList, HandlePush, HandleDelete, HandleCreate, ParseRequestPath;
      if peer.None? { return NotIdentified(); }
      if req.Repos? {
        r := Repos(peer.value, req.filter);
        return;
      }
      if req.repository.None? { return InvalidRequest(); }
      var name := ParseRequestPath(req.repository.value);
      if name.None? { return if req.Create? then InvalidRequest() else NotFound(); }
      var (group, repo) := name.value;
      match req {
        case Fetch(_, _, _) => r := Fetch(peer.value, group, repo, req, env);
        case ListRefs(_, forPush) => r := HandleList(cfg, fs, peer.value, group, repo, forPush, env);
        case Push(_, _, _, _, _, _) => r := Push(peer.value, group, repo, req, env);
        case Delete(_, ref) => r := Delete(peer.value, group, repo, ref, env);
        case Create(_) => r := Create(peer.value, group, repo, env);
      }
    }
  }

  lemma UpdateRefDir(dir: Node, name: string, sha: string, force: bool, ok: bool, history: History)
    requires dir.Directory?
    ensures var r := UpdateRef(dir, name, sha, force, ok, history); r.Some? ==> r.value.Directory?
  {
  }

  lemma GroupOfMissing(cfg: Cfg, fs: Fs, group: string, repo: string)
    requires RepoMissing(cfg, fs, group, repo)
    ensures group in cfg.repositories
  {
  }

  /** A repository just created is found again. */
  lemma CreatedResolves(cfg: Cfg, fs: Fs, peer: Peer, group: string, repo: string, env: Env)
    requires RepoMissing(cfg, fs, group, repo)
    ensures var created := Repositories.CreateRepository(fs, cfg.repositories[group], repo, peer, env);
            created.Some? ==>
              ResolveRepoAccess(cfg, created.value, group, repo).Some? &&
              ResolveRepoAccess(cfg, created.value, group, repo).value.path == cfg.repositories[group] + [repo]
  {
    var g := cfg.repositories[group];
    AclPathDiffers(g + [repo]);
    assert |AclPath(g + [repo])| == |g| + 1;
  }

  lemma AccessIsDir(cfg: Cfg, fs: Fs, group: string, repo: string)
    ensures ResolveRepoAccess(cfg, fs, group, repo).Some? ==>
              IsDir(fs, ResolveRepoAccess(cfg, fs, group, repo).value.path)
  {
  }

  lemma PrependNothing<T>(r: Result<seq<T>, Response>)
    ensures Prepend([], r) == r
  {
    if r.Ok? { assert [] + r.value == r.value; }
  }

  lemma WantsStep(wants: seq<FetchRef>, k: nat, read: seq<(string, Option<string>)>)
    requires k <= |wants|
    ensures k == |wants| ==> Prepend(read, ReadWants(wants, k)) == Ok(read)
    ensures k < |wants| && wants[k].FetchRef? && wants[k].name.Some? && SanRef(wants[k].name.value)
            && (wants[k].have.Some? ==> SanSha(wants[k].have.value)) ==>
              Prepend(read, ReadWants(wants, k)) ==
                Prepend(read + [(wants[k].name.value, wants[k].have)], ReadWants(wants, k + 1))
    ensures k < |wants| && ReadWants(wants, k).Err? ==> Prepend(read, ReadWants(wants, k)) == ReadWants(wants, k)
  {
    hide SanRef, SanSha;
    assert read + [] == read;
    if k < |wants| && wants[k].FetchRef? && wants[k].name.Some? && ReadWants(wants, k + 1).Ok? {
      var w, rest := (wants[k].name.value, wants[k].have), ReadWants(wants, k + 1).value;
      assert read + ([w] + rest) == read + [w] + rest;
    }
  }
}
