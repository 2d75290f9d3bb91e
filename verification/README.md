# Verified model of reticulum-router's tools

Dafny 4.11 models of the self-contained algorithms and protocols of the
command-line tools, and proofs about them. `dafny verify dfyconfig.toml` checks
the whole project.

| file | models |
|---|---|
| `AnnounceRate.dfy`, `AnnounceTracker.dfy` | the announce-rate watchdog of `rnguard`: a sliding window with greedy burst coalescing, lazy expiry, a report-once flag and a separate prune, against a specification over the unbounded trace of calls |
| `Frames.dfy`, `FrameReader.dfy` | the RPC frame format of `rnguard` and its incremental reader, against a one-shot parse of the byte stream |
| `Escape.dfy`, `StreamFrames.dfy`, `RemoteShell.dfy`, `Handshake.dfy` | `rnsh`: the escape-sequence machine, framing over any sound compressor, the stdin task joined to the listener's PTY loop, and the listener's handshake |
| `Text.dfy`, `Acl.dfy`, `Repositories.dfy`, `GitServer.dfy` | `rngit serve`: access files as text, permission lookup, and the handlers over a filesystem of repositories |
| `BundleFetch.dfy` | applying a push bundle: how git fetch reads the refspec, which refs it lets move, and the tags it brings along unasked |
| `GitServerAnswers.dfy` | for whom each request to the server succeeds, with what content and effect, and what every other case gets |
| `GitServerRuns.dfy`, `HiddenRepositories.dfy`, `PushEffects.dfy` | what holds over whole runs of the server: who can change what, what a peer can tell about a repository hidden from it, and what a push does to refs |
| `Bits.dfy`, `Base32.dfy` | the truncating-register Base32 of `rnid` (section 6 of RFC 4648), against an unbounded bit string |
| `PerfSession.dfy` | the two-party bandwidth session of `rnperf` over a lossy channel |
| `PushPlan.dfy`, `PushServed.dfy` | `rngit push`: planning, pushing one ref at a time, what the server's refs become, and the same loop against the modelled server |
| `Wire.dfy` | resource metadata, bundle splitting and the ref list, each from writer to reader |
| `Bytes.dfy`, `Arithmetic.dfy`, `Wrappers.dfy` | machine numbers and big-endian bytes, division facts, Option and Result |

Code that updates things in place is a class or a loop here too, proved equal to
a specification function (`AnnounceRateTracker`, `FrameReader`, `EscapeHandler`,
`PtySession`, `Server`, `ListenerSession`, `Sender`, `Remote`, the codec and
parser loops). The lemmas are about those functions.

## Where the expected law needed a condition

Each law below is false of the code on some inputs; the named lemma gives the
exact condition under which it holds.

- A destination over the threshold is always reported: only below the u32
  ceiling, because the source compares the count as a `u32`. With the threshold
  at the ceiling, or with no room in the window for more than `threshold`
  separated announces, no run reports anything (`AnnounceRate.ReportPossibleIff`).
- Decoding the frames of a block gives the block back: exactly when a frame has
  room for a byte (`StreamFrames.FramesRoundTripIff`). With `max_data == 0` the
  loop emits one empty frame and drops the data.
- Keyboard bytes pass through unchanged: exactly when no line-initial `~` meets a
  special byte, a newline included, which the held `~` then follows
  (`Escape.PassThroughIff`).
- A push that does not ask for force only moves refs forward: exactly when its
  source name does not start with `+`, which `san_ref` lets through and git reads
  as force, and its destination is a branch or a tag, because elsewhere git replaces
  without a check whatever leads to no commit
  (`PushEffects.UnforcedPushOnlyAdvancesIff`; the two failing requests are in
  `PushEffects.PlusMainRewindsMain` and `PushEffects.BlobReplacesCommit`).
- A push changes the one ref it names: git also follows the tags of the bundle, so
  refs stay properly named exactly when no tag of the bundle has a name that
  `san_ref` refuses (`PushEffects.RefsStaySoundIff`), and an aborted `rngit push`
  leaves the pushed prefix of its plan and new tags of its bundle
  (`PushPlan.Convergence`, `PushPlan.FirstBringsTags`).
- An unforced `rngit push` that passes the client's own check goes through, outside
  failures aside: exactly when it moves no tag the server has, because git never
  moves a tag without force (`PushPlan.CompletesIff`).
- A list for push says whether the push is authorized: unless a directory stands
  where the new repository's access file must go
  (`GitServerRuns.ListAgreesWithPush`). Creating `foo.allowed` puts one in the way
  of `foo` (`GitServerRuns.ObstructedByAName`).
- A creation grants its creator everything: exactly when the creator's hex is not
  an alias key for something else, or is an alias of nothing readable in a group
  that grants all of it anyway (`Acl.CreatorAclIff`, `GitServerRuns.CreationGrantsIff`).
  So the empty OK for a missing repository means Write for its creator exactly when
  the hex is no foreign alias or the group grants Write
  (`GitServerRuns.EmptyListMeansCreation`; a peer it fails for is in
  `GitServerRuns.AliasedCreatorMayNotWrite`).
- A first push of several refs makes the new repository's refs equal to the local
  ones: exactly when every ref after the first is a tag, the hex is no foreign alias
  or the group grants Write (`PushServed.CreatingPushConvergesIff`; a refused tag that
  is there all the same is in `PushServed.RefusedTagIsThere`).
- A request keeps a group's decisions: exactly when nobody can create a repository in
  the place of the group's directory (`GitServerRuns.GroupKeptIff`), so in every run
  when that directory exists or is no group's child (`GitServerRuns.GroupsOverRuns`);
  `GitServerRuns.NestedGroupsInterfere` shows a creation that decides for a group
  whose directory is missing.
- A hidden repository that is no group's own directory looks like a missing one: in
  every run, exactly to peers that may not create repositories beside it (`HiddenRepositories.HiddenLooksMissingIff`).
- A configured allow list is enforced: exactly when `--no-auth` is off and at least
  one entry can be read, because unreadable entries are dropped in silence
  (`Handshake.ListEnforcedIff`; the failing input is in
  `Handshake.MistypedEntryOpensTheListener`).
- A shell session closed by the EOF has received everything typed: exactly when no
  data send failed, because the EOF is sent after a failed send too
  (`RemoteShell.EndToEnd`).
- `encode(decode(s)) == s` for Base32: exactly for canonical text
  (`Base32.DecodeEncodeIff`).
- A supported version means version 1: modulo 256, because the number is read as
  a `u8` (`Handshake.Protocol257IsAccepted`).

## Where code and comments differ

The model follows the code. The coalescing test compares with the last *counted*
stamp, not the previous packet (src/bin/rnguard.rs:277 against :268). A read
timeout with bytes buffered is an error, not an idle tick, and ends the
subscription (src/bin/rnguard.rs:588-596 against :495-498). An allow list of which
no entry can be read does not make identification mandatory
(src/bin/rnsh.rs:1117-1138 against :1132-1134).

## Model

| member | source | states |
|---|---|---|
| `AnnounceTracker.AnnounceRateTracker.Record` | src/bin/rnguard.rs:271-289 | the answer equals the one computed from the whole unbounded trace, and the table goes on refining that trace |
| `AnnounceTracker.AnnounceRateTracker.Count` | src/bin/rnguard.rs:293-302 | the count is that of the trace's counted announces in the window, as a u32 |
| `AnnounceTracker.AnnounceRateTracker.Prune` | src/bin/rnguard.rs:306-316 | exactly the destinations with a counted announce in the window stay, the number removed is returned, and the refinement holds |
| `AnnounceTracker.AnnounceRateTracker.TrackedCount` | src/bin/rnguard.rs:319-321 | the number of destinations the trace says are tracked |
| `AnnounceTracker.CoalescingTest` | src/bin/rnguard.rs:272-280 | testing the retained stamps against `coalesce` is the greedy rule at min(coalesce, window) on the full history |
| `AnnounceRate.OnlyOwnAnnouncesMatter` | src/bin/rnguard.rs:271-316 | count and prune calls, and other destinations, wherever they stand, never change a later count |
| `AnnounceRate.CountIsNearOptimal` | src/bin/rnguard.rs:271-289 | no separated selection of announces in the window exceeds the count by more than one, and some selection has exactly the count |
| `AnnounceRate.WindowPopulation` | src/bin/rnguard.rs:273-282 | (count - 1) times the effective distance is always less than the window |
| `AnnounceRate.NoMissedFlood` | src/bin/rnguard.rs:284-287 | a window with threshold + 2 separated announces has led to a report and leaves the destination flagged |
| `AnnounceRate.FlagIsFromAReport` | src/bin/rnguard.rs:285-286 | the flag is only ever set by an announce that was answered with a report |
| `AnnounceRate.ReportSpacing` | src/bin/rnguard.rs:276-316 | two reports of one destination are at least window + threshold times the effective distance apart, in every run |
| `AnnounceRate.ReportPossibleIff` | src/bin/rnguard.rs:284-287 | settings under which some run reports: exactly threshold below the u32 ceiling and either zero or with room in the window |
| `AnnounceRate.ReportIff` | src/bin/rnguard.rs:281-289 | when an announce is reported and with which number: it counts, the count with it is above the threshold, and no earlier report still stands |
| `AnnounceRate.ReportCarriesTheCount` | src/bin/rnguard.rs:271-289 | the number reported is the count of its window and above the threshold; some separated selection has that many announces and none more than one more |
| `AnnounceRate.FlagIff` | src/bin/rnguard.rs:285-316 | the flag stands exactly from a report until a prune finds the window empty |
| `AnnounceRate.TrackedIff` | src/bin/rnguard.rs:271-321 | a destination is tracked exactly from an announce until a prune finds its window empty |
| `FrameReader.FrameReader.TakeFrame` | src/bin/rnguard.rs:528-575 | takes exactly the frame at the front of the unconsumed bytes, or leaves them, through both compaction policies |
| `FrameReader.FrameReader.Fill` | src/bin/rnguard.rs:579-598 | appends exactly the bytes read; a timeout is idle only with nothing buffered |
| `FrameReader.FrameReader.Compact` | src/bin/rnguard.rs:601-606 | drops exactly the consumed bytes |
| `FrameReader.FrameReader.NextFrame` | src/bin/rnguard.rs:516-525 | answer, unconsumed bytes and unread input are those of the specification, and the call never lets the buffer past max + 12 + 8191 bytes |
| `FrameReader.ReadSession` | src/bin/rnguard.rs:697-731 | a whole subscription yields the specified session, and at no moment of it does the buffer exceed max + 12 + 8191 bytes |
| `FrameReader.SessionIsOneShotParse` | src/bin/rnguard.rs:516-607 | for every chunking and every idle timeout, a session yields the frames, then the header error, of the one-shot parse of what it saw |
| `FrameReader.UninterruptedSession` | src/bin/rnguard.rs:516-607 | without a transport failure, frames and header error depend only on the bytes sent |
| `FrameReader.NeverAWrongFrame` | src/bin/rnguard.rs:516-607 | whatever the transport does, the frames delivered are a prefix of those sent |
| `FrameReader.WrittenFramesArrive` | src/bin/rnguard.rs:462-607 | payloads written by `write_frame` and cut into any chunks come out in order, then the close |
| `FrameReader.EndIff` | src/bin/rnguard.rs:516-598 | a session fails exactly at the first read that fails or times out within a frame, having delivered all complete frames; breaks exactly at a bad header before that; and otherwise ends with the close |
| `FrameReader.IdleTickIsNothing` | src/bin/rnguard.rs:588-594 | a timeout with nothing buffered changes nothing |
| `FrameReader.PoliteFramesArrive` | src/bin/rnguard.rs:462-607 | with idle ticks between frames, written payloads cut into any chunks still come out in order, then the close |
| `Frames.FramesRoundTrip` | src/bin/rnguard.rs:462-483 | encoded frames parse back to their payloads whatever follows, in both header forms |
| `Frames.ParseInPieces` | src/bin/rnguard.rs:528-575 | parsing a stream in two pieces is parsing it whole |
| `Frames.HeadErrorIff` | src/bin/rnguard.rs:534-559 | which header bytes are an invalid length and which are too large, byte by byte |
| `Frames.FrameBytes` | src/bin/rnguard.rs:462-483 | what is written: four bytes of length up to 2^31 - 1, beyond that the long mark and eight, then the payload |
| `Escape.EscapeHandler.ProcessByte` | src/bin/rnsh.rs:569-626 | the five fields, the emitted bytes and the action are those of the step function |
| `Escape.EscapeHandler.FlushLine` | src/bin/rnsh.rs:628-635 | emits the line and one erase per blind write, then forgets both |
| `Escape.ReachableIsConsistent` | src/bin/rnsh.rs:568-636 | in every reachable state the blind-write count is the buffer length, and the buffer is empty outside line mode, after a newline and with an escape pending |
| `Escape.TypedLineIsShown` | src/bin/rnsh.rs:599-622 | in line mode the far terminal shows the edited line, which is the line buffer |
| `Escape.DoublingRoundTrip` | src/bin/rnsh.rs:568-626 | any byte string with its line-initial tildes doubled comes out unchanged and triggers nothing |
| `Escape.PassThroughIff` | src/bin/rnsh.rs:568-626 | raw input passes through untouched exactly when it is harmless |
| `Escape.FeedInPieces` | src/bin/rnsh.rs:915-923 | feeding reads one after the other is feeding them joined, up to a disconnect |
| `Escape.EscapeSequences` | src/bin/rnsh.rs:578-594 | after a newline: "~." disconnects, "~?" helps, "~L" toggles line mode, "~~" types a tilde, a newline leaves the escape pending, anything else follows the held tilde |
| `Escape.ActionsAreAsked` | src/bin/rnsh.rs:568-626 | the actions of any input, from any state, are those a scan of its bytes finds |
| `Escape.DisconnectIff` | src/bin/rnsh.rs:568-594 | a disconnect comes exactly from an unescaped line-initial tilde followed by a dot |
| `Escape.FlushKeys` | src/bin/rnsh.rs:607-611 | which keys flush a line |
| `Escape.LineIsFlushed` | src/bin/rnsh.rs:599-635 | a typed line and a flushing key: the edited line, the key and one erase a byte go out, and the line is empty |
| `StreamFrames.HeaderRoundTrip` | src/bin/rnsh.rs:313-324 | stream id and both flags survive the two-byte header, whatever payload follows |
| `StreamFrames.CompressBlock` | src/bin/rnsh.rs:362-377 | the retry loop computes the specified block |
| `StreamFrames.BlockFacts` | src/bin/rnsh.rs:362-377 | a block stands for exactly the bytes it used, never outgrows them or the limit, and makes progress |
| `StreamFrames.CompressIff` | src/bin/rnsh.rs:362-377 | a block is compressed exactly when one of four attempts gains, by the first that does, and is otherwise as many bytes as fit |
| `StreamFrames.FrameDataIs` | src/bin/rnsh.rs:521-533 | what a receiver makes of any frame, damaged ones included |
| `StreamFrames.HeaderBytes` | src/bin/rnsh.rs:313-318 | the two bytes of a header, flag by flag |
| `StreamFrames.BuildFrames` | src/bin/rnsh.rs:336-352 | the frame loop computes the specified frames |
| `StreamFrames.FramesRoundTripIff` | src/bin/rnsh.rs:336-377 | decoding and concatenating the frames gives the input exactly when there is room for a byte |
| `StreamFrames.FramesBounds` | src/bin/rnsh.rs:336-377 | every frame fits max + 2 with the right header, compressed ones decode within the receiver's bound, the payload total never exceeds the input, and there are at most ceil(n / min(max, 32)) frames |
| `RemoteShell.StdinTask` | src/bin/rnsh.rs:910-968 | the frames that get through, read by read, whichever sends fail: a prefix of the data frames and the EOF, which only a disconnect leaves out |
| `RemoteShell.PtySession.OnEvent` | src/bin/rnsh.rs:1339-1377 | one event's effect on the descriptor and the loop's flags |
| `RemoteShell.PtySession.HandleLink` | src/bin/rnsh.rs:1334-1394 | the loop with its exits and the cleanup |
| `RemoteShell.EndToEnd` | src/bin/rnsh.rs:920-1394 | for any reads, any failing sends and any interleaving on an in-order channel, the PTY receives a prefix of the machine's output; a session that handled the EOF has all of it exactly when no data send failed; without failures all of it and the EOF arrive; the descriptor is closed exactly once |
| `RemoteShell.ClosedExactlyOnce` | src/bin/rnsh.rs:1326-1394 | never closed twice, and closed exactly once in every finished run |
| `RemoteShell.NothingAfterClose` | src/bin/rnsh.rs:1347-1355 | nothing is handed over after EOF |
| `RemoteShell.SessionEndsIff` | src/bin/rnsh.rs:1327-1379 | a session ends at the first turn at which the child's end is known and its output is done or was waited for, with the child's exit code |
| `RemoteShell.PtyReceives` | src/bin/rnsh.rs:1339-1356 | among any other events, the PTY receives exactly the data of the stdin frames |
| `RemoteShell.DataIsMachineOutput` | src/bin/rnsh.rs:915-964 | the data frames carry exactly the machine's output on the complete reads, however they are split, and none is empty |
| `RemoteShell.SentBeforeDisconnect` | src/bin/rnsh.rs:920-967 | a typed disconnect leaves the EOF out, unless a send failed before it: then the EOF follows truncated input |
| `Handshake.LoadAllowed` | src/bin/rnsh.rs:154-168 | the loop collects exactly the readable lines of hash length, in order |
| `Handshake.AllowedIff` | src/bin/rnsh.rs:1117-1122 | who is on the list: the readable `-a` entries and file lines, and nobody else |
| `Handshake.LineIdentityIff` | src/bin/rnsh.rs:159-163 | a file line means the identity of its trimmed text when that has the length of a hash, and else nothing |
| `Handshake.DoVersionHandshake` | src/bin/rnsh.rs:1149-1220 | the outcome, refusals and failed replies included, is that of the state machine under the resolved allow list |
| `Handshake.SuccessIff` | src/bin/rnsh.rs:1117-1220 | a command runs exactly when version, command and, under an allow list, a listed identity arrive on this link before anything fatal; it is the last command up to that point |
| `Handshake.RefusedIff` | src/bin/rnsh.rs:1149-1212 | which refusal a handshake ends in: that of the first fatal event, or what was missing at the deadline |
| `Handshake.NoCommandWithoutIdentity` | src/bin/rnsh.rs:1136-1147 | under an allow list nothing runs without a listed identity |
| `Handshake.ListEnforcedIff` | src/bin/rnsh.rs:1117-1147 | over all event sequences, a command runs only for a listed identity exactly when authentication is on and some configured entry can be read |
| `Handshake.MistypedEntryOpensTheListener` | src/bin/rnsh.rs:1117-1138 | with one unreadable entry and no file, an unidentified peer's command runs |
| `Handshake.Protocol257IsAccepted` | src/bin/rnsh.rs:1179-1187 | a peer announcing protocol 257 passes for protocol 1 |
| `Handshake.OtherLinksInvisible` | src/bin/rnsh.rs:1169-1210 | events of other links and idle ticks change nothing wherever they fall |
| `Acl.PermissionsFromAllowedInput` | src/bin/rngit/perms.rs:109-142 | the loop builds the specified lists |
| `Acl.LineIff` | src/bin/rngit/perms.rs:65-84 | the whole meaning of a line: a permission's name in any letter case, a colon and a target |
| `Acl.TargetIff` | src/bin/rngit/perms.rs:84-107 | the whole meaning of a target: three words for nobody, three for everyone, in any letter case, and else the identity the text or its alias writes |
| `Acl.NoneDeniesAll` | src/bin/rngit/perms.rs:151-163 | one entry for nobody denies its permission to everybody |
| `Acl.ReadNone` | src/bin/rngit/perms.rs:84-163 | a file with the line "r:none" lets nobody read |
| `Acl.WhereEntriesGo` | src/bin/rngit/perms.rs:125-139 | which lists an entry goes on, "rw" on both |
| `Acl.EntryRoundTrip` | src/bin/rngit/perms.rs:65-107 | every permission, under both its names, with every target, reads back as itself |
| `Acl.ListedIff` | src/bin/rngit/perms.rs:109-142 | a target is on a list exactly when some effective line puts it there |
| `Acl.CascadeIsRule` | src/bin/rngit/perms.rs:151-198 | the first-match cascade is the rule: deny over all over identity over admin, repository tier over group tier |
| `Acl.OnlyTheSetOfLinesMatters` | src/bin/rngit/perms.rs:109-198 | order, repetition, comments and invalid lines change no decision |
| `Acl.PermutedLines` | src/bin/rngit/perms.rs:114-118 | permuted lines are the same set of effective lines |
| `Acl.GroupIsUnion` | src/bin/rngit/server.rs:473-487 | group file then config entries decide as the union of both |
| `Acl.EntriesListedIff` | src/bin/rngit/server.rs:480-486 | config entries list exactly what each of them says |
| `Acl.CreatorAclLists` | src/bin/rngit/gitutil.rs:412-414 | what the creator's ACL reads back as, in every case: its owner as the only admin, or nobody |
| `Acl.CreatorAclIff` | src/bin/rngit/gitutil.rs:412-414 | re-reading the creator's ACL makes the creator the only admin exactly when the hex is no foreign alias |
| `Acl.OwnedDecisions` | src/bin/rngit/perms.rs:151-183 | with such an ACL its owner may do everything, nobody else is admin, and all else is the group's decision |
| `Acl.IdentitiesAreWhole` | src/bin/rngit/perms.rs:84-107 | every identity an entry can name is a whole 16-byte hash |
| `Repositories.AclPathInjective` | src/bin/rngit/gitutil.rs:371-381 | no two directories share an access file |
| `GitServer.Server.CreateRepository` | src/bin/rngit/gitutil.rs:384-420 | all or nothing: a failed init or access-file write leaves no trace |
| `GitServer.Server.UpdateRefs` | src/bin/rngit/server.rs:930-979 | the operation loop computes the specified directory and answer |
| `GitServer.Server.Push` | src/bin/rngit/server.rs:855-987 | filesystem and answer are those of the specification |
| `GitServer.Server.Delete` | src/bin/rngit/server.rs:990-1042 | filesystem and answer are those of the specification |
| `GitServer.Server.Create` | src/bin/rngit/server.rs:1044-1096 | filesystem and answer are those of the specification |
| `GitServer.Server.Serve` | src/bin/rngit/server.rs:380-425 | routing, identification and path checks before any handler |
| `GitServer.Server.Fetch` | src/bin/rngit/server.rs:702-845 | the loops read the wanted refs and the client's objects in order, refusals included, and the bundle offered is the specified one |
| `GitServer.Server.Repos` | src/bin/rngit/server.rs:656-699 | the listing holds exactly the readable bare repositories of the wanted groups |
| `GitServerAnswers.BlockedIff` | src/bin/rngit/server.rs:505-512 | a peer is blocked exactly when some entry writes its hash, in either letter case |
| `GitServerAnswers.GroupMayIff` | src/bin/rngit/server.rs:520-545 | who may do what in a group |
| `GitServerAnswers.GroupListsIff` | src/bin/rngit/server.rs:473-487 | a group's lists are those of its readable file and of its config entries |
| `GitServerAnswers.RepoMayIff` | src/bin/rngit/server.rs:489-518 | who may do what with a repository, its own file before the group |
| `GitServerAnswers.RequestPathIff` | src/bin/rngit/gitutil.rs:115-128 | a request's repository is a plain group and name of at most 256 characters with one slash between |
| `GitServerAnswers.SanRefIff` | src/bin/rngit/gitutil.rs:22-67 | which ref names pass, character by character |
| `GitServerAnswers.SanShaIff` | src/bin/rngit/gitutil.rs:70-78 | which object names pass |
| `GitServerAnswers.BadRequests` | src/bin/rngit/server.rs:597-606 | unidentified peers, missing and malformed repositories: their codes, and nothing happens |
| `GitServerAnswers.ListAnswers` | src/bin/rngit/server.rs:597-649 | a list's content and code for every peer, for reading and for a push |
| `GitServerAnswers.FetchAnswers` | src/bin/rngit/server.rs:702-845 | a fetch offers a reader exactly the wanted refs that resolve without the held objects the client has, and the code otherwise |
| `GitServerAnswers.ReposAnswers` | src/bin/rngit/server.rs:656-699 | a listing names exactly the readable bare repositories of the groups asked for |
| `GitServerAnswers.DeleteAnswers` | src/bin/rngit/server.rs:991-1040 | a deletion succeeds exactly for a writer naming an existing ref properly; it removes that ref and nothing else, and every other answer changes nothing |
| `GitServerAnswers.CreateAnswers` | src/bin/rngit/server.rs:1042-1096 | a creation succeeds exactly for a Create-holder where nothing is; it adds the repository and its access file and nothing else |
| `GitServerAnswers.PushAuthorizedIff` | src/bin/rngit/server.rs:855-885 | who may push and into what, and the code for who may not |
| `GitServerAnswers.PushAnswers` | src/bin/rngit/server.rs:855-987 | a push changes at most its repository, into what bundle or operations make of it |
| `GitServerAnswers.BundleAnswers` | src/bin/rngit/server.rs:912-929 | the code for every outcome of a bundle push |
| `GitServerAnswers.UpdateRefIff` | src/bin/rngit/gitutil.rs:321-351 | when a ref update succeeds, and that it sets that one ref |
| `GitServerAnswers.OpsOkStep` | src/bin/rngit/server.rs:930-981 | the answer to each operation in turn: improper, not accepted, or accepted and on to the next |
| `GitServerRuns.StepSafety` | src/bin/rngit/server.rs:855-1096 | refs change only for an identified, unblocked peer that resolves Write beforehand, or Create while the repository is missing; no repository disappears |
| `GitServerRuns.OutsidersChangeNothing` | src/bin/rngit/server.rs:498-545 | unidentified and blocked peers never change any state |
| `GitServerRuns.RunSafety` | src/bin/rngit/server.rs:855-1096 | in every run, refs that differ at the end were changed by some legitimate request |
| `GitServerRuns.OutsiderRuns` | src/bin/rngit/server.rs:498-545 | a run of outsiders leaves the filesystem as it was |
| `GitServerRuns.GroupsOverRuns` | src/bin/rngit/server.rs:473-545 | no request ever changes the decisions of a group whose directory exists or is no group's child |
| `GitServerRuns.GroupKeptIff` | src/bin/rngit/server.rs:473-591 | one request keeps a group's decisions, whoever makes it, exactly when nobody can create in the place of its directory |
| `GitServerRuns.NestedGroupsInterfere` | src/bin/rngit/gitutil.rs:377-420 | a creation by which everybody gains Create on a group whose missing directory is the repository's place |
| `GitServerRuns.ReposOverRuns` | src/bin/rngit/server.rs:455-518 | repositories never disappear and their access lists are the initial ones or their creator's |
| `GitServerRuns.DecisionsOverRuns` | src/bin/rngit/server.rs:455-545 | decisions about an existing repository never change; in a new one its owner may do everything and the initial group lists decide the rest |
| `GitServerRuns.CreationGrants` | src/bin/rngit/gitutil.rs:384-420 | every decision about a new repository, for every creator: its owner may do everything, nobody else is admin, the rest is the group's |
| `GitServerRuns.CreationGrantsIff` | src/bin/rngit/gitutil.rs:384-420 | the creator gets exactly what is meant exactly when the hex is no foreign alias, or names nobody in a group that suffices |
| `GitServerRuns.CreationChangesNothingElse` | src/bin/rngit/gitutil.rs:377-420 | no decision about any other repository changes, names ending in ".allowed" included |
| `GitServerRuns.ListAgreesWithPush` | src/bin/rngit/server.rs:597-885 | a list for push answers OK exactly when the push is authorized, obstruction aside |
| `GitServerRuns.EmptyListMeansCreation` | src/bin/rngit/server.rs:620-885 | the empty OK means the push creates the repository; the creator then resolves Write exactly when its hex is no foreign alias or the group grants Write |
| `GitServerRuns.AliasedCreatorMayNotWrite` | src/bin/rngit/server.rs:620-885 | an aliased peer to whom the list promises a creation and who may not write to what it created |
| `GitServerRuns.ObstructedByAName` | src/bin/rngit/gitutil.rs:412-417 | after a creation of "name.allowed", a list promises a Create-holder the repository "name" and the push is refused |
| `HiddenRepositories.HiddenLooksMissingIff` | src/bin/rngit/server.rs:597-1096 | in every run of a peer that may not read or write it, every answer to a list, listing of repositories, fetch, push, deletion or creation equals that of a server without the repository, exactly when the peer may not create beside it |
| `PushEffects.OpsApplyAPrefix` | src/bin/rngit/server.rs:930-981 | operations take effect one by one up to the first failure, and OK means all of them |
| `PushEffects.UnforcedPushOnlyAdvancesIff` | src/bin/rngit/gitutil.rs:266-351 | over every repository and outcome, a push without force deletes no ref and moves none except forward, exactly when its source name spells no force and its destination is a branch or a tag |
| `PushEffects.PlusMainRewindsMain` | src/bin/rngit/gitutil.rs:297-311 | "+refs/heads/main" rewinds a branch with force off; without the "+" no ref moves |
| `PushEffects.BlobReplacesCommit` | src/bin/rngit/gitutil.rs:297-311 | a commit at "refs/foo/x" is replaced by a blob, force off and no "+" |
| `PushEffects.PushKeeps` | src/bin/rngit/gitutil.rs:266-351 | whatever a push carries, branches go on holding commits and refs object names |
| `PushEffects.RefsStaySoundIff` | src/bin/rngit/gitutil.rs:266-351 | over every repository and outcome, refs stay properly and fully named and point at held objects, exactly when no tag of the bundle has a refused name |
| `PushEffects.DeleteKeepsRefsSound` | src/bin/rngit/gitutil.rs:354-369 | a deletion keeps the other refs sound |
| `BundleFetch.FetchAt` | src/bin/rngit/gitutil.rs:297-318 | each ref after a fetch: where it was, the destination moved as git lets it, or a tag of the bundle |
| `BundleFetch.FetchBrings` | src/bin/rngit/gitutil.rs:297-318 | a fetch that succeeds has moved the destination and created every tag whose object is there |
| `BundleFetch.RefspecIff` | src/bin/rngit/gitutil.rs:297-304 | which refspec the two names of a push make |
| `BundleFetch.FetchMovesIff` | src/bin/rngit/gitutil.rs:304-318 | when the named ref ends at the tip |
| `BundleFetch.FetchFollowsIff` | src/bin/rngit/gitutil.rs:304-318 | which tags a fetch brings along |
| `Base32.Base32Encode` | src/bin/rnid.rs:1496-1518 | the 16-bit register computes the digits of the unbounded bit string |
| `Base32.Base32Decode` | src/bin/rnid.rs:1520-1539 | the 32-bit register computes the whole bytes of the digits' bit string, or refuses |
| `Base32.EncodeDecode` | src/bin/rnid.rs:1496-1539 | decode(encode(x)) == x for every byte string |
| `Base32.EncodedLength` | src/bin/rnid.rs:1496-1518 | encoded length is 8 * ceil(n / 5) |
| `Base32.DecodedLength` | src/bin/rnid.rs:1520-1539 | decoded length is floor(5m / 8) |
| `Base32.DecodeEncodeIff` | src/bin/rnid.rs:1496-1539 | encode(decode(s)) == s exactly for canonical s |
| `Base32.Alphabet` | src/bin/rnid.rs:1494-1518 | the letter of every digit |
| `Base32.AlphabetDecodes` | src/bin/rnid.rs:1520-1530 | the digits decode in either letter case, and nothing else does |
| `Base32.TestVector` | src/bin/rnid.rs:1496-1518 | a test vector of section 10 of RFC 4648 |
| `Bits.ShiftIn` | src/bin/rnid.rs:1502-1503 | shifting into a truncating register keeps every bit still held |
| `Bits.ReadTop` | src/bin/rnid.rs:1505-1507 | the masked shift reads the oldest bits held and leaves the rest held |
| `PerfSession.ListenerSession.OnMessage` | src/bin/rnperf.rs:520-544 | counters and replies for one message |
| `PerfSession.ListenerSession.OnDeadline` | src/bin/rnperf.rs:555-572 | the deadline volunteers a result only when none was sent |
| `PerfSession.Sender.SendData` | src/bin/rnperf.rs:707-724 | the k-th packet carries k modulo 2^32 and the buffer is reused intact |
| `PerfSession.Conservation` | src/bin/rnperf.rs:502-575 | sent = received + in flight + lost, and bytes = packets times size, in every reachable state |
| `PerfSession.RepliesAreFinal` | src/bin/rnperf.rs:528-572 | all replies of a session are equal, and one that answers a request counts every packet not lost |
| `PerfSession.LossInRange` | src/bin/rnperf.rs:819-823 | the loss printed is within 0 and 100 percent |
| `PerfSession.PacketIs` | src/bin/rnperf.rs:707-712 | a packet is its number modulo 2^32, most significant byte first, and zeros |
| `PerfSession.LossIs` | src/bin/rnperf.rs:819-823 | the loss is the share of packets not received |
| `PerfSession.ListenerCounts` | src/bin/rnperf.rs:520-544 | over any messages the listener counts exactly the packets and their bytes and answers exactly the requests, with the counts by then |
| `PerfSession.DeadlineAnswers` | src/bin/rnperf.rs:555-572 | the deadline volunteers a result exactly when packets came and no request did |
| `PerfSession.WholeTestReports` | src/bin/rnperf.rs:502-823 | a test in which nothing is lost reports that everything arrived, with no loss |
| `PerfSession.RetryReports` | src/bin/rnperf.rs:755-795 | a lost reply is asked for again and says the same |
| `PushPlan.PlanPush` | src/bin/rngit.rs:564-579 | the planning loop computes the specified plan |
| `PushPlan.CmdPush` | src/bin/rngit.rs:564-606 | refusal, missing bundle or how far it got, and the server's repository, are those of the specification |
| `PushPlan.PlanRefusedIff` | src/bin/rngit.rs:564-579 | refused up front exactly when, unforced, some local ref does not descend from the server's |
| `PushPlan.PlanIsWhatDiffers` | src/bin/rngit.rs:564-579 | the plan is exactly the local refs the server lacks or has elsewhere |
| `PushPlan.PlanInOrder` | src/bin/rngit.rs:564-579 | a plan keeps the order of the local refs |
| `PushPlan.OutcomeIff` | src/bin/rngit.rs:564-606 | which of its ends the command comes to, and that nothing changes in the first three |
| `PushPlan.Convergence` | src/bin/rngit.rs:564-606 | however far it gets, the refs are the listed ones, new tags of the bundle and the pushed prefix; completion makes the server agree on every local name and changes nothing else |
| `PushPlan.FirstBringsTags` | src/bin/rngit.rs:591-606 | a first push whose tip is new to the server brings all new tags of the bundle |
| `PushPlan.CompletesIff` | src/bin/rngit.rs:564-606 | all refs are accepted exactly when nothing outside hinders one and, unforced, none is a tag to be moved |
| `PushPlan.NothingReachableIsLost` | src/bin/rngit.rs:564-606 | along any unforced pushes, on any stale lists and with any bundles, each ref keeps reaching every commit it once reached |
| `PushPlan.UnforcedRefsAdvance` | src/bin/rngit.rs:595-606 | without --force every ref, and with it every ref missing from the client's list, only moves forward |
| `PushServed.PushOneIsServed` | src/bin/rngit/server.rs:855-980 | for a writer, the handler does to the repository what the client's push counts on, refused or not |
| `PushServed.ServedIsPushFrom` | src/bin/rngit.rs:597-606 | the client's loop, request by request through the handler, is the specified push |
| `PushServed.PushConverges` | src/bin/rngit.rs:564-606 | from the list to the last push, a writer's server ends with the listed refs, new tags of the bundle and the pushed prefix, and with every local ref exactly when none is hindered |
| `PushServed.CreatingPushConvergesIff` | src/bin/rngit.rs:564-606 | into a missing repository: the first push creates it and brings all tags, and the refs equal the local ones exactly when the rest are tags, the hex is no foreign alias or the group grants Write |
| `PushServed.RefusedTagIsThere` | src/bin/rngit.rs:591-606 | a branch and a tag pushed by a creator without Write: the tag is refused and there all the same |
| `Wire.PackMetadata` | src/bin/rngit/transfer.rs:41-53 | length prefix and payload, refused exactly beyond 24 bits |
| `Wire.StripIff` | src/bin/rngit.rs:498-507 | something is left exactly when packed metadata stands before it; too short exactly below three bytes |
| `Wire.StripAfterPack` | src/bin/rngit.rs:498-507 | whatever the metadata, the bundle behind it comes out whole |
| `Wire.SplitBundle` | src/bin/git-remote-rns.rs:263-276 | the pack is what follows the first empty line, and there is none exactly without one |
| `Wire.HeaderEnds` | src/bin/git-remote-rns.rs:263-276 | a header of non-empty lines ends at its own empty line whatever the pack holds |
| `Wire.ReceivePack` | src/bin/git-remote-rns.rs:418-427 | from the server's resource to exactly the pack |
| `Wire.ListRefs` | src/bin/rngit/gitutil.rs:154-186 | the list loops compute the specified text |
| `Wire.NamesAreDistinct` | src/bin/rngit/gitutil.rs:164-177 | whatever git prints, each ref is listed at most once |
| `Wire.KeptIff` | src/bin/rngit/gitutil.rs:164-177 | a proper line is kept when no earlier one names the ref, and nothing else is |
| `Wire.ListOfOne` | src/bin/rngit/gitutil.rs:179-186 | the text of a list, letter for letter |
| `Wire.ParseListResponse` | src/bin/rngit.rs:350-373 | the parse loop computes the specified refs and head; other codes are errors; an answer without bytes is indexed past its end |
| `Wire.LineAdds` | src/bin/rngit.rs:358-371 | what each line of an answer adds: a head, a ref or nothing |
| `Wire.RefListRoundTrip` | src/bin/rngit.rs:350-373 | the client reads back exactly the refs listed, in order, and the head |
| `Text.HexRoundTrip` | src/bin/rngit/perms.rs:100-107 | lower-case hex decodes to the bytes it writes |
| `Text.HexDecodeIff` | src/bin/rngit/perms.rs:100-107 | text decodes to these bytes exactly when it is their hex in either letter case |
| `Text.TrimIff` | src/bin/rngit/perms.rs:114-116 | trimming takes all white space off both ends and nothing else |
| `Text.LinesAppend` | src/bin/rngit/server.rs:474-485 | text ending in a newline contributes its lines on their own |

## Left out

- The transport library (links, resources, announces, identities), cryptography, HMAC and bzip2 internals: outside this repository. The compressor is any codec whose decoder inverts its encoder.
- Clocks: instants are integers, so `now - window` always exists; the `unwrap_or(now)` fallback for an instant before the clock's origin is not modelled. Deadlines and timeouts are nondeterministic events.
- Machine widths: `usize` is 64 bits wide and buffer lengths do not overflow it; the u32 count, the u16 and u32 registers, the u8 protocol number and the u32 sequence number wrap as in the source.
- Sockets: a finite list of reads followed by the peer's close stands for a socket's future.
- The output half of `rnsh` (PTY reader thread, stdout and stderr frames, exit code message): it uses the same framing; fork, exec and terminal settings are system calls.
- Git: a repository is a map of refs and a set of objects, each a commit, a tag that leads to one, or neither. How git 2.39 reads a refspec, decides which refs move, follows tags and resolves short names is modelled; other failures of its commands are outcomes of the environment. Names that git reads as abbreviated objects or descriptions are not modelled.
- The filesystem: git init's own files inside a repository, directory permissions, links, concurrent changes, and a failing removal after a failed creation are not modelled; group paths are absolute and below the root.
- Text: `to_lowercase` is modelled on ASCII letters, which decides the same keyword matches; name lengths are counted in characters, not bytes.
- Repositories.IsPlainComponent: does not model `Path::components` on names with a trailing slash, because `parse_request_repository_path` cuts names at every slash first.
- The resources a fetch bundle travels in, and the client's request plumbing: bookkeeping of the transport. A bundle offered is its tips and the objects left out; a listing of repositories is the set of names that the sorted lines write.
- Base256 and the hex functions of `rnid`: a table lookup and a copy of the hex codec modelled in `Text.dfy`.
- Command lines, help texts, logging, metrics, page serving, sniffing, MCP plumbing, TOML and Python configuration, `wrap_rsg`, and the remote helper's fetch-batch parsing.
