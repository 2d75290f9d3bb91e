/**
  Repositories on disk and the operations on one repository (src/bin/rngit/gitutil.rs).
  A repository is a map from ref names to object names; git itself is represented by
  what each command may do to that map.
 */
module Repositories {
  import opened Wrappers
  import opened Bytes
  import opened Text
  import Acl

  /** An absolute path, component by component. */
  type Path = p: seq<string> | p != [] witness ["/"]

  /** A directory is a bare repository or not; one that is not has no refs that matter. */
  datatype Node =
    | Directory(bare: bool, refs: Refs, objects: set<string>)
    | File(content: Option<string>)

  type Fs = map<Path, Node>

  type Refs = map<string, string>
  type Ancestor = (string, string) -> bool

  /** What an object is: a commit, a tag that leads to one, or neither. */
  datatype Kind = Commit | CommitTag | Other

  /** What the objects are and which commit descends from which. */
  datatype History = History(ancestor: Ancestor, kind: string -> Kind)

  /** What comes of making a bundle for a client. */
  datatype Offer = Offered | NothingNew | OfferFailed

  /** How the commands and system calls of one request turn out. */
  datatype Env = Env(
    initOk: bool, aclWriteOk: bool, listOk: bool, offer: Offer, deleteOk: bool, updateOk: nat -> bool,
    bundleOk: bool, refOk: bool, tagOk: string -> bool, history: History)

  /** Every command and system call succeeds. */
  function AllWell(history: History): Env {
    Env(true, true, true, Offered, true, _ => true, true, true, _ => true, history)
  }

  /** What a push bundle carries. */
  datatype Bundle = Bundle(tips: Refs, objects: set<string>)

  predicate IsDir(fs: Fs, p: Path) { p in fs && fs[p].Directory? }

  /** `read_to_string`: directories, missing files and non-text files have no text. */
  function ReadText(fs: Fs, p: Path): Option<string> {
    if p in fs && fs[p].File? then fs[p].content else None
  }

  // ---------------------------------------------------------------- names

  function Base(p: Path): string { p[|p| - 1] }

  /** The suffix is always appended to the last component. */
  function AclPath(p: Path): Path { p[..|p| - 1] + [Base(p) + ".allowed"] }

  /** A single plain path component. */
  predicate IsPlainComponent(name: string) {
    '/' !in name && name !in {"", ".", ".."}
  }

  function RepoDir(group: Path, repo: string): Option<Path> {
    if !IsPlainComponent(repo) then None else Some(group + [repo])
  }

  const NAME_MAX: nat := 256

  /** Splits "group/repo"; anything else is no repository path. */
  function ParseRequestPath(path: string): Option<(string, string)> {
    match SplitOnce(path, '/')
    case None => None
    case Some(parts) =>
      var (group, repo) := parts;
      if '/' in repo then None
      else if !IsPlainComponent(group) || !IsPlainComponent(repo) then None
      else if |group| > NAME_MAX || |repo| > NAME_MAX then None
      else Some((group, repo))
  }

  predicate StartsWith(s: string, prefix: string) { prefix <= s }

  predicate EndsWith(s: string, suffix: string) { |suffix| <= |s| && s[|s| - |suffix|..] == suffix }

  predicate Contains(s: string, part: string) {
    exists i :: 0 <= i <= |s| && StartsWith(s[i..], part)
  }

  predicate SanRef(name: string) {
    && !StartsWith(name, "-") && !StartsWith(name, "/") && !EndsWith(name, "/") && !EndsWith(name, ".")
    && ' ' !in name && '/' in name && '\\' !in name
    && !Contains(name, "..") && !Contains(name, "/.") && !Contains(name, "//")
    && !Contains(name + "/", ".lock/")
    && (forall i :: 0 <= i < |name| ==> name[i] as int >= 40 && name[i] as int != 0x7f)
    && (forall i :: 0 <= i < |name| ==> name[i] !in {'~', '^', ':', '?', '*', '[', '@'})
  }

  predicate SanSha(sha: string) {
    |sha| >= 40 && forall i :: 0 <= i < |sha| ==> HexValue(sha[i]).Some?
  }

  // ---------------------------------------------------------------- operations on one repository

  const REFS_PREFIX: string := "refs/"
  const HEADS_PREFIX: string := "refs/heads/"

  const TAGS_PREFIX: string := "refs/tags/"

  predicate IsBranch(name: string) { StartsWith(name, HEADS_PREFIX) }

  predicate IsTag(name: string) { StartsWith(name, TAGS_PREFIX) }

  /** The object a name stands for, by git's order of preference among full names. */
  function TipFor(refs: Refs, name: string): Option<string> {
    if name in refs then Some(refs[name])
    else if REFS_PREFIX + name in refs then Some(refs[REFS_PREFIX + name])
    else if TAGS_PREFIX + name in refs then Some(refs[TAGS_PREFIX + name])
    else if HEADS_PREFIX + name in refs then Some(refs[HEADS_PREFIX + name])
    else if "refs/remotes/" + name in refs then Some(refs["refs/remotes/" + name])
    else if "refs/remotes/" + name + "/HEAD" in refs then Some(refs["refs/remotes/" + name + "/HEAD"])
    else None
  }

  /** Git writes nothing but commits to branches. */
  predicate MayHold(name: string, sha: string, history: History) {
    IsBranch(name) ==> history.kind(sha) == Commit
  }

  /** Hex in either case names an object, which git writes in lower case; the text compared
      with the present value is the one received. */
  function UpdateRef(dir: Node, name: string, sha: string, force: bool, ok: bool, history: History): Option<Node>
    requires dir.Directory?
  {
    var held := Lower(sha);
    if !SanRef(name) || !StartsWith(name, REFS_PREFIX) then None
    else if !SanSha(sha) || held !in dir.objects then None
    else if TipFor(dir.refs, name).Some? && TipFor(dir.refs, name) != Some(sha) && !force then None
    else if !ok || !MayHold(name, held, history) then None
    else Some(dir.(refs := dir.refs[name := held]))
  }

  function DeleteRef(dir: Node, name: string, ok: bool): Option<Node>
    requires dir.Directory?
  {
    if !SanRef(name) || !StartsWith(name, REFS_PREFIX) || TipFor(dir.refs, name).None? || !ok then None
    else Some(dir.(refs := dir.refs - {name}))
  }

  const EMPTY_REPOSITORY: Node := Directory(true, map[], {})
  const PLAIN_DIRECTORY: Node := Directory(false, map[], {})

  /** `create_repository`: a failed init or a failed ACL write leaves nothing behind. */
  function CreateRepository(fs: Fs, group: Path, repo: string, creator: Identity, env: Env): Option<Fs> {
    match RepoDir(group, repo)
    case None => None
    case Some(path) =>
      if path in fs then None
      else if !env.initOk || !env.aclWriteOk || IsDir(fs, AclPath(path)) then None
      else Some(fs[path := EMPTY_REPOSITORY][AclPath(path) := File(Some(Acl.CreatorAcl(creator)))])
  }

  // ---------------------------------------------------------------- facts about names

  lemma AclPathInjective(p: Path, q: Path)
    requires AclPath(p) == AclPath(q)
    ensures p == q
  {
    var s := ".allowed";
    assert |p| == |q|;
    assert AclPath(p)[|p| - 1] == Base(p) + s && AclPath(q)[|q| - 1] == Base(q) + s;
    assert (Base(p) + s)[..|Base(p)|] == Base(p) && (Base(q) + s)[..|Base(q)|] == Base(q);
    assert forall i :: 0 <= i < |p| - 1 ==> p[i] == AclPath(p)[i] && q[i] == AclPath(q)[i];
  }

  lemma AclPathDiffers(p: Path)
    ensures AclPath(p) != p
  {
    assert |Base(AclPath(p))| > |Base(p)|;
  }
}
