# Sailor, verified

A Dafny model of Sailor, a client/server file transfer system: its wire format, its server, its client library and the
transfer queue of its desktop client. `dafny verify dfyconfig.toml` checks all of it.

The model follows the code, branch by branch. Where the code updates something in place, so does the model: the
transport, the packet buffers, the file, upload and server services, the client, and the two desktop notifiers are
classes and methods with loops. Each is proved equal to a function of the old state, and most also against what the
new state means; the theorems are about those functions.

| file | what it models |
|---|---|
| `bytes.dfy`, `digest.dfy` | fixed-width big-endian integers; a streaming digest and its hex form |
| `packets.dfy`, `packet_builder.dfy` | the grammar of payloads; the builders and parsers over buffers with a moving offset |
| `framing.dfy` | the 12-byte header, partial sends and receives, packet IO |
| `paths.dfy`, `filesystem.dfy` | path text against components; a tree of entries, inodes and contents; path resolution |
| `storage_services.dfy`, `listing.dfy` | mkdir, rmdir, delete, rename; directory listings and their codec |
| `uploads.dfy`, `upload_runs.dfy`, `session_runs.dfy` | the upload session table; arbitrary interleavings of requests; one session among others |
| `server.dfy`, `server_runs.dfy` | the dispatch loop of one connection; whole packet traces |
| `client.dfy`, `protocol.dfy`, `lock_step.dfy` | the client library; client and server together; what stays unread |
| `remote_browser.dfy`, `transfer_queue.dfy` | the desktop client's path normaliser; its transfer queue |

## Main results

* **An upload arrives.** From any valid tree and any session table, stale sessions and sessions on the same target
  included, the packets of any file that can be opened for upload end with the local bytes in the target and two SUCCESS
  replies (`Protocol.UploadArrives`, `Protocol.ConnectionUploads`); from a drained stream the client returns SAILOR_OK if
  and only if the upload can be opened (`LockStep.UploadSucceedsExactly`).
* **Sessions do not interfere**, in any interleaving with each other and with mkdir, rmdir, delete and rename in which
  nobody opens the session's id or inode (`SessionRuns.SessionsDoNotInterfere`). What its file needs beyond that is stated
  exactly (`SessionRuns.StepKeepsTargetExactly`, `SessionRuns.FinishedUploadIsThere`). The invariant of the whole table
  holds throughout a run if and only if every session is opened cleanly (`UploadRuns.RunKeepsInvariantExactly`).
* **Tree requests and listings arrive**: SAILOR_OK if and only if a condition on the tree holds, and then with exactly
  that effect (`Protocol.MkdirArrives`, `Protocol.RmdirArrives`, `Protocol.DeleteArrives`, `Protocol.RenameArrives`,
  `Protocol.ListSucceedsExactly`).
* **A download is sound for any server** (`Protocol.DownloadIsSound`) and complete for this one (`Protocol.DownloadArrives`).
* **Replies stay in step**, exactly as far as they do: from a drained stream the number of replies that each operation
  leaves unread is stated for lists, tree requests, uploads and downloads, and SAILOR_OK means none
  (`LockStep.OperationsStayInStep`). Over any run the client never waits in vain, and it ends drained if and only if
  nothing was ever left over (`LockStep.RunsStayInStep`, `LockStep.RunsNeverWait`; tied to the client methods by
  `LockStep.PerformIsTheClient`).
* **Nothing happens before login**, in any packet trace of a connection from its start (`Server.TcpServer.HandleClient`,
  `Server.NothingHappensBeforeAuth`), and a login succeeds if and only if the digests agree (`Server.LoginExactly`).
* **Rename is a subtree move** exactly when it is allowed, on all inputs (`StorageServices.RenameIsSubtreeMove`), and what
  keeps cycles out is settled for every directory (`StorageServices.WhatExcludesCycles`).
* **The two path normalisers agree** if and only if the path never climbs above the root
  (`RemoteBrowser.NormalisersAgreeExactly`).
* **Codecs undo each other** if and only if every length fits its field (`Packets.RoundTripExactlyWhenItFits`,
  `Framing.PacketRoundTrip`, `Listing.ListingRoundTripsExactly`).
* **The transfer queue loses no wake-up** and runs one transfer at a time, over any run of events
  (`TransferQueue.RunKeepsInvAndFinality`).

## What the code does not do

Each of these is stated as an exact condition or with a concrete input.

* A spelling such as `missing/..` resolves to the storage root with a trailing separator, which the root guards compare
  as a different path. Delete and rmdir then remove an empty storage root (`StorageServices.OpenRootIsDeleted`; exactly
  when: `StorageServices.DeleteKeepsRootExactly`, `StorageServices.RenameKeepsRootExactly`,
  `UploadRuns.StepKeepsRootExactly`).
* The prefix test of path resolution compares characters, so it accepts a sibling of the root whose name extends the
  root's name (`FileSystem.SiblingIsAccepted`), and outside the root exactly such siblings and what lies in them
  (`FileSystem.AcceptedExactly`).
* The guard against moving a directory into itself does not fire for a source that resolves with a trailing separator,
  such as `m/../d/` with `m` missing (`StorageServices.OpenSourceSlipsPastGuard`). Only rename(2) then refuses
  (`StorageServices.WhatExcludesCycles`).
* Renaming back fails exactly for a source spelling that ends in an empty, `.` or `..` component
  (`StorageServices.RenameBack`), such as `d/` (`StorageServices.OpenSpellingIsNotRenamedBack`).
* UPLOAD_END answered with success does not mean that the target holds the bytes. Two sessions may open one target, and
  the first one's UPLOAD_END then succeeds, under the digest of the bytes it sent, with the target empty
  (`SessionRuns.SharedTargetLosesUpload`). The target may be deleted, or it or a directory above it renamed, and
  UPLOAD_END still succeeds (`SessionRuns.UploadSucceedsWithoutItsFile`). Which requests do this is stated exactly
  (`SessionRuns.StepKeepsTargetExactly`; for the session's view: `SessionRuns.BeginIsInvisibleExactly`).
* A download whose local target cannot be opened leaves the server's stream unread, and the next request takes a chunk for
  its reply (`LockStep.DeniedDownloadLeavesTheStream`, `LockStep.DeniedDownloadFoolsTheNextRequest`).
* The sum that guards the announced size is taken modulo 2^64 (`Uploads.SizeGuardExact`).
* A transfer cancelled while it is in flight ends as completed or failed (`TransferQueue.CancelInFlightIsOverwritten`; a
  cancelled task stays cancelled exactly otherwise: `TransferQueue.FinalStatuses`).
* A download of 2^64 bytes or more would pass the size check modulo 2^64 (`Protocol.DownloadIsSound`).
* The repository's README describes a magic number in the packet header and a multi-threaded server. The header has two
  fields and the accept loop serves one client after another; the model follows the code.

## Model

| member | source | states |
|---|---|---|
| `Packets.RoundTripExactlyWhenItFits` | common/packet_builder.hpp:155-222 | for every list of fields, parsing what was built, with any bytes behind it, returns the fields and those bytes if and only if every string is under 2^16 bytes and every chunk under 2^32 |
| `Packets.RebuildGivesPrefix` | common/packet_builder.hpp:452-617 | for an arbitrary payload, a successful parse only yields fields that fit and consumes a prefix of known length; building them again gives back exactly those bytes if and only if every flag byte was 0 or 1 |
| `Packets.FieldRoundTrip` | common/packet_builder.hpp:199-222 | one field comes back if its length fits, and comes back as a different field if it does not |
| `Packets.FieldLayout` | common/packet_builder.hpp:199-222 | each field byte by byte: flags as 0 or 1, numbers in network order, and the narrowed length in front of strings and chunks |
| `PacketBuilder.OneText` | common/packet_builder.hpp:92-141 | the buffer filled by copying is the encoding of one string, with the header size equal to the payload |
| `PacketBuilder.TwoTexts` | common/packet_builder.hpp:30-58 | the buffer filled at a moving offset is the encoding of two strings |
| `PacketBuilder.StatusText` | common/packet_builder.hpp:355-378 | the buffer is the encoding of a flag and a string |
| `PacketBuilder.AuthResponse` | common/packet_builder.hpp:60-90 | the buffer is the encoding of a flag, a session number and a string |
| `PacketBuilder.UploadBegin` | common/packet_builder.hpp:155-197 | the buffer is the encoding of two numbers and three strings, in that order |
| `PacketBuilder.Chunk` | common/packet_builder.hpp:199-224 | the buffer is the encoding of id, offset and the length-prefixed data |
| `PacketBuilder.End` | common/packet_builder.hpp:226-238 | the buffer is the encoding of one number |
| `PacketBuilder.DownloadBegin` | common/packet_builder.hpp:259-293 | the buffer is the encoding of two numbers and two strings |
| `PacketBuilder.ParseOneText` | common/packet_builder.hpp:506-536 | succeeds exactly on the payloads that decode as one string, and returns it; never reads out of bounds |
| `PacketBuilder.ParseTwoTexts` | common/packet_builder.hpp:452-477 | succeeds exactly on the payloads that decode as two strings, and returns them |
| `PacketBuilder.ParseStatusText` | common/packet_builder.hpp:693-710 | succeeds exactly on the payloads that decode as flag and string; only a byte 1 is true |
| `PacketBuilder.ParseAuthResponse` | common/packet_builder.hpp:479-504 | succeeds exactly on the payloads that decode as flag, number and string |
| `PacketBuilder.ParseUploadBegin` | common/packet_builder.hpp:545-590 | its staged size checks accept exactly the payloads that decode as two numbers and three strings, on every input |
| `PacketBuilder.ParseChunk` | common/packet_builder.hpp:592-617 | accepts exactly the payloads that decode as two numbers and a chunk, and takes exactly the chunk's bytes |
| `PacketBuilder.ParseEnd` | common/packet_builder.hpp:619-625 | accepts exactly the payloads that hold a number |
| `PacketBuilder.ParseDownloadBegin` | common/packet_builder.hpp:642-677 | its staged size checks accept exactly the payloads that decode as two numbers and two strings |
| `Framing.HeaderRoundTrip` | protocol/packet_serializer.cpp:7-24 | type and size are read back from the first 12 bytes in network order, and the payload follows |
| `Framing.PacketRoundTrip` | protocol/packet_serializer.cpp:26-48 | a packet comes back off a stream, with everything behind it left over, if and only if its header size is its payload length |
| `Framing.FramesOfStream` | protocol/packet_io.cpp:9-34 | reading a stream of any number of serialized packets returns exactly those packets in order, then whatever the bytes behind them hold |
| `Framing.StreamDeterminesPackets` | protocol/packet_io.cpp:9-34 | two packet sequences with one byte stream are the same sequence |
| `Framing.ReadPacketRebuild` | protocol/packet_io.cpp:14-34 | whatever is read off arbitrary bytes is consistent, and writing it again gives the bytes back |
| `Framing.SerializePacket` | protocol/packet_serializer.cpp:7-24 | the filled buffer is the wire form of the packet |
| `Framing.DeserializePacket` | protocol/packet_serializer.cpp:26-48 | a whole packet exactly where the buffer begins with one, too short exactly otherwise, and undefined exactly for header sizes within 12 of 2^64, where the size check wraps |
| `Framing.TcpTransport.SendAll` | transport/tcp_transport.cpp:8-18 | under any schedule of partial sends, all bytes go out once and in order, or a proper prefix before a failure; the loop ends |
| `Framing.TcpTransport.RecvAll` | transport/tcp_transport.cpp:20-30 | under any schedule of partial receives the buffer is the next bytes of the stream and nothing more is consumed; it fails only if the stream ends early or a call fails |
| `Framing.SendPacket` | protocol/packet_io.cpp:9-12 | success means that the packet's wire form was appended to what the peer receives |
| `Framing.ReceivePacket` | protocol/packet_io.cpp:14-34 | success means that exactly the first packet of the stream was taken; on a reliable stream it fails exactly when no whole packet is there |
| `Digest.FoldIsAbsorb` | common/hash.cpp:47-54 | updating with pieces equals updating once with their concatenation |
| `Digest.DigestIgnoresChunking` | common/hash.cpp:47-66 | two ways of cutting the same bytes give the same hex digest, so the client's 64 KB loop and the server's per-chunk updates agree |
| `Digest.HexInjective` | common/hash.cpp:61-66 | equal hex strings come from equal digests |
| `Digest.HexDigits` | common/hash.cpp:61-66 | each byte is two lower-case hexadecimal digits, the high half first |
| `Digest.Sha256File` | common/hash.cpp:35-67 | the 64 KB read loop, a last short or empty read included, digests the whole file into 64 hex digits |
| `Paths.ClampedWalk` | filesystem/file_service.cpp:43-45 | resolving inside a base directory stays together with resolving from a clamped root if and only if no prefix of the path climbs above it, for paths of any shape |
| `Paths.StripExactly` | filesystem/file_service.cpp:37-41 | exactly the leading slashes and backslashes are stripped |
| `Paths.SlashPrefixIsProperPrefix` | filesystem/rename_service.cpp:102-105 | "starts with the other text plus a slash" holds if and only if the components are a proper prefix, or the texts differ by a trailing slash only |
| `Paths.BoundaryPrefixIsContainment` | filesystem/file_service.cpp:51-57 | a character prefix that ends at a separator or the end is containment of components, and conversely |
| `Paths.TextInjective` | filesystem/file_service.cpp:51-52 | different component lists have different texts |
| `FileSystem.ResolvedComponents` | filesystem/file_service.cpp:43-45 | existing or missing, a target resolves to the components of the lexical walk from the storage root, all of them proper names |
| `FileSystem.AcceptedIsNoAncestor` | filesystem/file_service.cpp:54-57 | an accepted path is never a proper ancestor of the root, nor "/" |
| `FileSystem.AcceptedIsInsideExactlyAtBoundary` | filesystem/file_service.cpp:54-57 | an accepted path lies at or below the root if and only if the root's text ends at a separator or at the end of the path's text |
| `FileSystem.AcceptedExactly` | filesystem/file_service.cpp:35-60 | a path is accepted if and only if the components of its walk from the root share all but the last of the root's components and the next one begins with the root's name; it is inside the root if and only if that component is the root's name |
| `FileSystem.SiblingIsAccepted` | filesystem/file_service.cpp:54-57 | for any storage root and any extension of its name, "../" and the extended name is accepted and resolves outside the root |
| `FileSystem.InsideIsAccepted` | filesystem/file_service.cpp:54-57 | every path at or below the root passes the prefix test |
| `FileSystem.CreateDirectoriesAddsPrefixes` | filesystem/directory_service.cpp:77 | succeeds exactly when no file is in the way; then exactly the missing prefixes appear, as directories, and the tree stays valid |
| `FileSystem.OpenTruncKeepsValid` | filesystem/upload_service.cpp:90-104 | opening the target keeps the tree rooted, one inode to a file; the target is empty and its inode is the old one exactly if the file existed |
| `FileSystem.MovedOutside` | filesystem/rename_service.cpp:113 | outside the destination exactly the entries outside the source subtree remain, unchanged |
| `FileSystem.MovedInside` | filesystem/rename_service.cpp:113 | dst+q exists after the move exactly if src+q existed before, and is the same node |
| `FileSystem.MovedKeepsValid` | filesystem/rename_service.cpp:113 | the subtree move keeps every parent a directory and every file's inode its own |
| `FileSystem.MoveBack` | filesystem/rename_service.cpp:113 | moving back is possible and restores the tree |
| `FileSystem.MovedSameSize` | filesystem/rename_service.cpp:113 | the move neither loses nor adds an entry |
| `StorageServices.FileService.ResolvePath` | filesystem/file_service.cpp:35-60 | the stripping loop and the prefix test compute the resolution that the lemmas speak about |
| `StorageServices.DeletePath` | filesystem/delete_service.cpp:44-95 | with a valid tree: succeeds exactly on an existing childless entry other than the plain root; then the new disk lacks that entry alone, otherwise it is unchanged |
| `StorageServices.RemoveDirectory` | filesystem/directory_service.cpp:88-141 | with a valid tree: succeeds exactly on an existing empty directory other than the plain root and removes that entry alone |
| `StorageServices.CreateDirectory` | filesystem/directory_service.cpp:46-86 | with a valid tree: succeeds exactly on a missing place with no file on the way; then exactly the missing prefixes are added |
| `StorageServices.RenamePath` | filesystem/rename_service.cpp:46-123 | with a valid tree: the outcome is the subtree move exactly when it is allowed, and no change otherwise; the tree stays valid |
| `StorageServices.DeleteRemovesOneChildlessEntry` | filesystem/delete_service.cpp:44-95 | delete succeeds exactly on an existing childless entry; the tree then has one entry less, contents are untouched, and a failure changes nothing |
| `StorageServices.DeleteSaysWhy` | filesystem/delete_service.cpp:44-95 | the message names the first check that failed, in terms of the path and the tree |
| `StorageServices.RemoveDirIsDeleteOfDirectory` | filesystem/directory_service.cpp:88-141 | rmdir succeeds exactly where delete does and the target is a directory, with the same effect |
| `StorageServices.RemoveDirSaysWhy` | filesystem/directory_service.cpp:88-141 | the message names the first check that failed, in terms of the path and the tree |
| `StorageServices.MakeDirAddsMissingPrefixes` | filesystem/directory_service.cpp:46-86 | mkdir adds exactly the missing prefixes as directories, exactly when the target is missing and no file is in the way |
| `StorageServices.MakeDirSaysWhy` | filesystem/directory_service.cpp:46-86 | the message names the first check that failed, in terms of the path and the tree |
| `StorageServices.RemoveDirUndoesMakeDir` | filesystem/directory_service.cpp:46-141 | rmdir of the same spelling restores the tree that an mkdir of one level started from |
| `StorageServices.RenameGuardExact` | filesystem/rename_service.cpp:101-111 | the string guard fires if and only if the source has no trailing separator and either its components are a proper prefix of the destination's or the destination is the source with a trailing separator |
| `StorageServices.GuardsLeaveMoves` | filesystem/rename_service.cpp:80-118 | the code's guards and the kernel's refusals together let through exactly the moves of a subtree to a free place outside it |
| `StorageServices.WhatExcludesCycles` | filesystem/rename_service.cpp:101-118 | moving any directory to a free place leaves a rooted tree if and only if it is not a move into itself; on such a move the string guard fires if and only if the source has no trailing separator, and the kernel's refusal always does |
| `StorageServices.OpenSourceSlipsPastGuard` | filesystem/rename_service.cpp:101-118 | for any names, moving "m/../d/", with m missing and d a directory, to "d/x" passes the string guard and is refused by rename(2) alone |
| `StorageServices.RenameIsSubtreeMove` | filesystem/rename_service.cpp:46-123 | on all inputs: rename succeeds exactly when the move is allowed, and then is that move; otherwise the tree is unchanged; the tree stays valid |
| `StorageServices.RenameSaysWhy` | filesystem/rename_service.cpp:46-123 | the message names the first check that failed, in terms of the paths and the tree |
| `StorageServices.RenameEntryByEntry` | filesystem/rename_service.cpp:46-123 | after a successful rename every path outside is as before, paths inside map one to one from source to destination, and nothing is lost or overwritten |
| `StorageServices.RenameBack` | filesystem/rename_service.cpp:46-123 | renaming back succeeds if and only if the source's spelling does not end in an empty, "." or ".." component, and then restores the whole disk; otherwise it changes nothing |
| `StorageServices.OpenSpellingIsNotRenamedBack` | filesystem/rename_service.cpp:46-123 | for any names, a directory spelled "d/" can be renamed to "e", and "e" cannot be renamed back to "d/" |
| `StorageServices.DeleteKeepsRootExactly` | filesystem/delete_service.cpp:62-67 | delete and rmdir keep the storage root exactly unless it is empty and the path resolves to it with a trailing separator |
| `StorageServices.RenameKeepsRootExactly` | filesystem/rename_service.cpp:74-78 | a successful rename keeps the storage root exactly unless its source resolves to it with a trailing separator |
| `StorageServices.OpenRootIsDeleted` | filesystem/delete_service.cpp:62-92 | on any empty storage root, deleting "missing/.." succeeds and removes the root |
| `RemoteBrowser.RemoteBrowserNotifier.NormalizeRemotePath` | flutter/lib/features/providers.dart:101-113 | the stack loop computes the text of the lexical walk from the root |
| `RemoteBrowser.RemoteBrowserNotifier.LoadPath` | flutter/lib/features/providers.dart:115-117 | the pane's path is again the text of a directory made of proper names |
| `RemoteBrowser.RemoteBrowserNotifier.NavigateUp` | flutter/lib/features/providers.dart:135-139 | drops exactly the last component, and does nothing at "/" |
| `RemoteBrowser.NormalizeIsNormalForm` | flutter/lib/features/providers.dart:101-113 | the result is absolute, free of empty, "." and ".." components, and its own normal form |
| `RemoteBrowser.DepthManyStepsUp` | flutter/lib/features/providers.dart:135-139 | going up drops one component at a time, and the path is "/" if and only if at least as many steps were taken as the directory is deep |
| `RemoteBrowser.DirnameIsParent` | flutter/lib/features/providers.dart:137-138 | the text up to the last slash is the text of the parent's components |
| `RemoteBrowser.ServerAcceptsNormalForm` | filesystem/file_service.cpp:35-60 | the server accepts the client's normal form of every backslash-free path and resolves it to root plus the client's components |
| `RemoteBrowser.NormalisersAgreeExactly` | filesystem/file_service.cpp:35-60 | the server takes a raw path to the place of the client's normal form if and only if no prefix of the raw path climbs above the root |
| `Listing.LessIsStrictTotal` | filesystem/file_service.cpp:104-109 | the comparator is irreflexive, transitive, and total on entries with distinct names |
| `Listing.SortedMeansDirectoriesFirst` | filesystem/file_service.cpp:102-109 | in a sorted listing no file stands in front of a directory, and entries of one kind stand by name |
| `Listing.NameLessIsLexicographic` | filesystem/file_service.cpp:108 | names are compared at the first byte where they differ, and a proper prefix comes first |
| `Listing.SortedPermutationIsUnique` | filesystem/file_service.cpp:103-111 | two ordered permutations of the same entries are equal, so any sort gives the same listing |
| `Listing.SortSorts` | filesystem/file_service.cpp:103-111 | the sort orders entries with distinct names and keeps each of them |
| `Listing.ListingIgnoresVisitOrder` | filesystem/file_service.cpp:73-111 | whatever order the directory is visited in, the listing is the same ordered sequence |
| `Listing.ListingIsTheDirectory` | filesystem/file_service.cpp:73-111 | the listing holds exactly one entry for each name in the directory: a directory with size 0, or a file with the length of its contents modulo 2^64, and the time stamp; and nothing else |
| `Listing.CollectAndSort` | filesystem/file_service.cpp:71-111 | the loop and the sort give an ordered listing with distinct names that holds exactly the directory's entries |
| `Listing.ListingRoundTripsExactly` | protocol/directory_serializer.cpp:9-83 | a listing comes back unchanged if and only if it has fewer than 2^32 entries and every name is under 2^16 bytes |
| `Listing.EntryIsFourFields` | protocol/directory_serializer.cpp:17-33 | the wire form of an entry is name, directory byte, size and time, in that order |
| `Listing.SerializeListing` | protocol/directory_serializer.cpp:9-36 | the loop of insertions produces the wire form |
| `Listing.DeserializeListing` | protocol/directory_serializer.cpp:38-83 | in bounds and terminating on every input; succeeds exactly when the bytes hold as many entries as announced, and returns them |
| `Uploads.UploadService.BeginUpload` | filesystem/upload_service.cpp:61-116 | with a valid tree: accepted exactly on a new id, a usable name and an accepted directory with no file on the way and no directory of that name; from a consistent table, an accepted session keeps it consistent if and only if its size is at most 2^64 - 2^32 and no live session has its target open |
| `Uploads.UploadService.Write` | filesystem/upload_service.cpp:118-152 | from a consistent table: accepted exactly if the chunk starts where the stored bytes end and fits the announced size; counter, file and digest move together |
| `Uploads.UploadService.FinishUpload` | filesystem/upload_service.cpp:154-197 | from a consistent table: succeeds exactly if the stored bytes have the announced size and, where a hash was announced, the digest that it starts with |
| `Uploads.UploadService.AbortUpload` | filesystem/upload_service.cpp:199-209 | drops the session and removes its target, and nothing else |
| `Uploads.ChunkAppends` | filesystem/upload_service.cpp:118-152 | an accepted chunk is appended to the stored bytes, the counter and the digest input, and to no other session; a refused one changes nothing |
| `Uploads.OwnChunkAppends` | filesystem/upload_service.cpp:118-152 | for one consistent session, whatever the others are: a chunk that cannot wrap the sum is accepted exactly if it continues the stored bytes and fits, and is appended to file, counter and digest |
| `Uploads.ChunkSaysWhy` | filesystem/upload_service.cpp:118-137 | the error of a refused chunk names the first check that failed, in terms of the stored bytes |
| `Uploads.BeginAcceptsExactly` | filesystem/upload_service.cpp:61-103 | an upload can begin if and only if the id is new, the name a proper one, the directory accepted, no file on the way to it and no directory in the target's place; missing directories are no obstacle |
| `Uploads.BeginSaysWhy` | filesystem/upload_service.cpp:61-104 | the error of a refused upload names the first check that failed, in terms of table, name and tree |
| `Uploads.BeginKeepsInvariantExactly` | filesystem/upload_service.cpp:61-116 | opening a session keeps the invariant if and only if the announced size leaves room for the 64-bit sum and the target is not open in a live session |
| `Uploads.FinishVerifiesExactly` | filesystem/upload_service.cpp:154-197 | success exactly if the stored bytes have the announced length and the announced digest, a 64-digit hash being all of it; success keeps the disk, failure removes the target, the session is gone either way |
| `Uploads.OwnFinishVerifies` | filesystem/upload_service.cpp:154-197 | for one consistent session, whatever the others are: success exactly if the stored bytes have the announced length and digest |
| `Uploads.FinishSaysWhy` | filesystem/upload_service.cpp:154-193 | the error of a failed end names the first check that failed, in terms of the stored bytes |
| `Uploads.SameHashSameDigest` | filesystem/upload_service.cpp:180-196 | two uploads that finish under one 64-digit hash, in whatever consistent states, have stored bytes of one digest |
| `Uploads.ShortHashNeverMatches` | filesystem/upload_service.cpp:187-193 | a hash string shorter than 64 digits never compares equal, since no hex digit is the terminating NUL |
| `Uploads.SizeGuardExact` | filesystem/upload_service.cpp:134-137 | an accepted chunk takes the stored bytes past the announced size if and only if the 64-bit sum wraps to a value that passes; the counter then differs from the number of stored bytes |
| `UploadRuns.StepKeepsInvariantExactly` | filesystem/upload_service.cpp:61-211 | every request, of uploads or of the tree, keeps the session invariant if and only if it does not open a session with a larger size or on a target that is open |
| `UploadRuns.RunKeepsInvariant` | filesystem/upload_service.cpp:61-211 | over any run whose sessions are all opened cleanly, counter, stored bytes and digest of every live session describe the same bytes at the end |
| `UploadRuns.RunKeepsInvariantExactly` | filesystem/upload_service.cpp:61-211 | over any run the session invariant holds throughout if and only if every session is opened with room below 2^64 - 2^32 and on a target that no live session has open |
| `UploadRuns.TreeStaysValid` | filesystem/directory_service.cpp:46-141 | over any run of mkdir, rmdir, delete, rename and uploads, clean or not, every entry's parent is a directory and every file has its own inode |
| `UploadRuns.StepKeepsRootExactly` | filesystem/delete_service.cpp:62-92 | one request keeps the storage root a directory exactly unless it is a delete, rmdir or rename that reaches it under a trailing separator |
| `UploadRuns.RootSurvivesRun` | filesystem/delete_service.cpp:62-92 | a run without such a request keeps the storage root |
| `SessionRuns.ForeignRequestsAreInvisible` | filesystem/upload_service.cpp:118-197 | requests of others that do not open the session's id or its inode leave its counters, digest and stored bytes alone, whatever the other sessions are |
| `SessionRuns.BeginIsInvisibleExactly` | filesystem/upload_service.cpp:61-116 | an UPLOAD_BEGIN leaves every live session's counters, digest and stored bytes alone if and only if it is refused or no live session has stored bytes in its target |
| `SessionRuns.SharedTargetLosesUpload` | filesystem/upload_service.cpp:61-197 | from any valid tree, for any data of one chunk and any target that can be opened: a stores its bytes, b opens the same target, and UPLOAD_END of a, announced with the real digest, succeeds while the target is empty |
| `SessionRuns.OwnRequestsSeeOnlyTheView` | filesystem/upload_service.cpp:118-197 | a session's own requests are answered from its counters, digest and stored bytes alone |
| `SessionRuns.LiveSessionIsNotReopened` | filesystem/upload_service.cpp:66-69 | opening the id of a live session again is refused and changes nothing |
| `SessionRuns.SessionsDoNotInterfere` | filesystem/upload_service.cpp:118-197 | in any interleaving in which nobody opens the session's id or its inode, its answers and stored bytes are those of running its own requests alone; other sessions may be inconsistent or share targets |
| `SessionRuns.LiveSessionIsItsAcceptedChunks` | filesystem/upload_service.cpp:118-152 | in any such interleaving a session that is consistent at the start, and announced at most 2^64 - 2^32 bytes, has stored, counted and digested exactly the concatenation of its accepted chunks, never more than announced |
| `SessionRuns.StepKeepsTargetExactly` | filesystem/upload_service.cpp:61-211 | for a live session alone on its inode, one request of somebody else keeps its stored bytes at its target if and only if it is none of: an accepted begin on the target when something is stored, a delete of the target, a rename of it or of a directory above it, the failed end of another session with the same target |
| `SessionRuns.FinishedUploadIsThere` | filesystem/upload_service.cpp:154-197 | over any run without such a request, and without a second session on its inode, the target holds the accepted chunks; UPLOAD_END succeeds if and only if they have the announced size and digest, and then leaves them there |
| `SessionRuns.UploadSucceedsWithoutItsFile` | filesystem/upload_service.cpp:154-197 | for every complete upload: after a delete of its target, or a rename of it or of a directory above it, UPLOAD_END is answered with success and the target is not there |
| `Server.TcpServer.HandlePacket` | server/tcp_server.cpp:120-461 | for every packet type the new disk, table and connection and the bytes sent back are those of the step function |
| `Server.TcpServer.HandleClient` | server/tcp_server.cpp:112-462 | the receive loop serves the packets that the byte stream holds, in order, under any schedule of partial receives: on any transport the state is that of serving a prefix of them, on a reliable one all of them, with exactly their replies sent; if no packet of the stream logs in, disk and table are as before, and nothing sent carries a listing or file data |
| `Server.ServeAppend` | server/tcp_server.cpp:117-462 | serving a trace in two parts gives the state and replies of serving it in one |
| `Server.TcpServer.HandleUploadChunk` | server/tcp_server.cpp:226-252 | gate, parse and service call in the code's order; no reply exactly when the chunk is accepted |
| `Server.TcpServer.HandleUploadBegin` | server/tcp_server.cpp:193-224 | gate, parse, service call and exactly one reply |
| `Server.TcpServer.HandleUploadEnd` | server/tcp_server.cpp:254-280 | gate, parse, service call and exactly one reply |
| `Server.TcpServer.HandleAuth` | server/tcp_server.cpp:128-160 | the connection becomes that of user u exactly if the packet decodes to u and a password whose hex digest is u's stored, non-empty hash, and stays as it was otherwise; disk and table never change |
| `Server.TcpServer.HandleList` | server/tcp_server.cpp:162-191 | the reply is the sorted listing, or an error that names the failed check |
| `Server.TcpServer.PrepareDownload` | filesystem/download_service.cpp:20-67 | ready exactly for a path that resolves to a file without a trailing separator; the metadata is then that file's inode, size modulo 2^64, name and digest |
| `Server.PreparesExactly` | filesystem/download_service.cpp:20-67 | for every tree and path: a download is prepared if and only if the path is not empty, accepted, and resolves to a file without a trailing separator; the metadata describes that file |
| `Server.TcpServer.StreamFile` | filesystem/download_service.cpp:69-115 | the loop with its buffer sends announcement, chunks and end of exactly the file's bytes |
| `Server.TcpServer.HandleDownload` | server/tcp_server.cpp:282-318 | an error reply, or the whole stream of the file |
| `Server.TcpServer.HandlePath` | server/tcp_server.cpp:320-349 | delete, mkdir and rmdir: gate, parse, service call and one status reply of the matching type |
| `Server.TcpServer.HandleRename` | server/tcp_server.cpp:351-380 | gate, parse, service call and one status reply |
| `Server.UnauthenticatedStepIsHarmless` | server/tcp_server.cpp:120-461 | before authentication no packet changes disk or table or returns data, and the connection becomes authenticated if and only if the packet is a matching AUTH_REQUEST |
| `Server.AuthenticatedSessionStays` | server/tcp_server.cpp:128-160 | a later failed AUTH_REQUEST, or any other packet, leaves the established session as it was |
| `Server.AuthenticatedExactlyByMatch` | server/tcp_server.cpp:112-462 | over a whole trace the connection is authenticated if and only if some packet was a matching AUTH_REQUEST |
| `Server.NothingHappensBeforeAuth` | server/tcp_server.cpp:112-462 | a trace without a matching AUTH_REQUEST, of any length, changes nothing and discloses nothing |
| `Server.LoginExactly` | auth/auth_manager.cpp:11-21 | where a user's stored hash is that of one password, an AUTH_REQUEST with another logs in if and only if the two have one digest; an unknown user, or one without a hash, never logs in; the flag of the reply says which |
| `Server.LoginByStoredHash` | server/tcp_server.cpp:128-160 | for every AUTH_REQUEST packet: malformed, refused or accepted, with the exact reply and connection of each |
| `Server.ConnectionLogsInExactly` | server/tcp_server.cpp:112-462 | a connection starts logged out: at its end it is logged in if and only if some packet of it logged in |
| `ServerRuns.ExactlyOneReply` | server/tcp_server.cpp:120-442 | these request types are answered by one packet in every state and for every payload |
| `ServerRuns.EveryTypeIsAnswered` | server/tcp_server.cpp:120-461 | which types of packets answer each type, in every state: PONG for PING, its own response type for each tree request, nothing for unknown types |
| `ServerRuns.LoginIsAskedFor` | server/tcp_server.cpp:162-455 | before login each type that needs one is turned down with "Authentication required", in the form of its own reply, and a false flag where that has one |
| `ServerRuns.MalformedIsSaid` | server/tcp_server.cpp:128-426 | a packet whose payload does not parse changes nothing and is answered by the name of its type, in the form of its own reply |
| `ServerRuns.ChunkReplies` | server/tcp_server.cpp:226-252 | a chunk is answered by nothing, or by one ERROR and no change |
| `ServerRuns.ChunksLeaveTheirRejections` | server/tcp_server.cpp:226-252 | a run of chunks is answered by exactly one ERROR for each rejected chunk |
| `ServerRuns.ConnectionIsARun` | server/tcp_server.cpp:112-462 | to disk and sessions any connection is a run of requests, so the run theorems hold of it |
| `ServerRuns.ParsedChunksFit` | common/packet_builder.hpp:592-617 | chunk data that came out of a packet is under 2^32 bytes |
| `ServerRuns.ConnectionKeepsSessionsExactly` | server/tcp_server.cpp:112-462 | any connection keeps all sessions consistent throughout if and only if each UPLOAD_BEGIN among its requests opens cleanly |
| `ServerRuns.AnyConnectionKeepsTree` | server/tcp_server.cpp:77-468 | after any bytes from any client the tree is rooted and every file has its own inode |
| `Client.InternalClient.Upload` | sdk/src/sailor_client_internal.cpp:162-224 | on a reliable transport status, bytes sent and replies read are those of the verdict on the reply stream; on any transport SAILOR_OK means that everything was sent and two packets of type SUCCESS came first, SAILOR_INTERNAL_ERROR that everything was sent, SAILOR_OPERATION_FAILED that only UPLOAD_BEGIN was |
| `Client.UploadSucceedsByReplies` | sdk/src/sailor_client_internal.cpp:187-223 | for any stream of replies, each status of an upload if and only if the types of the first two packets are as the code tests them |
| `Client.InternalClient.SendData` | sdk/src/sailor_client_internal.cpp:196-215 | the loop with its reused buffer sends all chunks of the file and UPLOAD_END, and reports every count once |
| `Client.InternalClient.ReceiveFile` | sdk/src/sailor_client_internal.cpp:263-293 | the file grows by exactly the accepted chunks, with one report for each that is not empty; success exactly if DOWNLOAD_END came and the sizes agree |
| `Client.InternalClient.FillFile` | sdk/src/sailor_client_internal.cpp:260-308 | every failure after the target was opened removes it, whatever the transport did |
| `Client.InternalClient.Download` | sdk/src/sailor_client_internal.cpp:226-308 | on any transport SAILOR_OK only as the verdict on the reply stream says, with the stream left right behind DOWNLOAD_END and the one local change at the path where a download of the announced name lands; on a reliable one status, local disk and what stays unread are those of the verdict |
| `Client.TargetExactly` | sdk/src/sailor_client_internal.cpp:250-258 | a destination that is no directory and does not end in a separator is the target; in any other one the target is the announced name behind exactly one slash, or the name itself if it starts with one |
| `Client.DownloadStatusExactly` | sdk/src/sailor_client_internal.cpp:236-307 | for any stream, each status of a download from the packets' types and fields, the size and the digest; nothing is touched before the target is opened |
| `Client.ChunkTakenExactly` | sdk/src/sailor_client_internal.cpp:271-286 | a chunk is taken if and only if it decodes to the announced id and the number of bytes received so far |
| `Client.InternalClient.DeletePath` | sdk/src/sailor_client_internal.cpp:310-326 | SAILOR_OK only on a positive status reply; a completed exchange has sent exactly the delete request and taken exactly one reply; on a reliable transport the status is that reply's |
| `Client.InternalClient.Rename` | sdk/src/sailor_client_internal.cpp:328-345 | SAILOR_OK only on a positive status reply; a completed exchange has sent exactly the rename request and taken exactly one reply; on a reliable transport the status is that reply's |
| `Client.InternalClient.Mkdir` | sdk/src/sailor_client_internal.cpp:347-363 | SAILOR_OK only on a positive status reply; a completed exchange has sent exactly the mkdir request and taken exactly one reply; on a reliable transport the status is that reply's |
| `Client.InternalClient.Rmdir` | sdk/src/sailor_client_internal.cpp:365-381 | SAILOR_OK only on a positive status reply; a completed exchange has sent exactly the rmdir request and taken exactly one reply; on a reliable transport the status is that reply's |
| `Client.InternalClient.List` | sdk/src/sailor_client_internal.cpp:139-160 | SAILOR_OK only if the first packet on the stream is a LIST_RESPONSE whose payload deserializes to the returned entries; on a reliable transport every status is fixed by that packet's type and payload; a completed exchange takes exactly one reply |
| `Client.ChunksByIndex` | sdk/src/sailor_client_internal.cpp:196-211 | ceil(n / 65536) chunks, the k-th at offset k * 65536 with the bytes found there, so only the last may be short |
| `Client.ReportsGrowToSize` | sdk/src/sailor_client_internal.cpp:209-210 | progress reports strictly increase, never exceed the size and end with it |
| `Client.ReportsByIndex` | sdk/src/sailor_client_internal.cpp:209-210 | one report for each chunk, the k-th with the number of bytes up to the end of that chunk |
| `Protocol.ChunksAreStored` | filesystem/upload_service.cpp:118-152 | whatever the other sessions are: the chunks of a file, from any position the session has reached, are all accepted without a reply and complete the stored bytes |
| `Protocol.ChunkIsAnsweredExactly` | server/tcp_server.cpp:226-252 | a chunk is met with silence if and only if it continues the stored bytes of a live session and fits, and with one ERROR and no change otherwise |
| `Protocol.EndIsVerified` | server/tcp_server.cpp:254-280 | with all bytes stored UPLOAD_END answers SUCCESS, drops the session and changes nothing on disk |
| `Protocol.EndIsAnsweredExactly` | server/tcp_server.cpp:254-280 | UPLOAD_END is answered with SUCCESS if and only if the id is live and its stored bytes have the announced size and digest, with ERROR otherwise, whatever the other sessions are |
| `Protocol.DataIsStored` | sdk/src/sailor_client_internal.cpp:196-215 | everything after an accepted UPLOAD_BEGIN ends with the file's bytes stored, the session gone and one SUCCESS |
| `Protocol.UploadArrives` | sdk/src/sailor_client_internal.cpp:162-224 | end to end, from any valid tree and any session table: an upload that can be opened leaves the local bytes in the target and the other sessions as before; the replies are two SUCCESS packets, and the client that reads them returns SAILOR_OK with none unread |
| `Protocol.UploadIsRefused` | server/tcp_server.cpp:193-224 | an upload that cannot be opened gets one ERROR, at which the client stops with SAILOR_OPERATION_FAILED and nothing unread |
| `Protocol.UploadCrossesTheWire` | protocol/packet_io.cpp:9-34 | the server's receive loop sees exactly the packets of the upload, for files and digests of any size |
| `Protocol.ConnectionUploads` | server/tcp_server.cpp:112-462 | from the bytes of a whole connection, any valid tree and any session table: a matching AUTH_REQUEST and the bytes of an upload that can be opened leave a file with the local contents |
| `Protocol.LoopReadsGapFreeChunks` | sdk/src/sailor_client_internal.cpp:266-293 | for any bytes, a receive loop that reached DOWNLOAD_END has read gap-free chunks of the announced id and nothing else |
| `Protocol.DownloadIsSound` | sdk/src/sailor_client_internal.cpp:243-307 | for any server, SAILOR_OK means that the stream was an announcement, chunks that decode to its id and to consecutive offsets, and DOWNLOAD_END, and the file is their concatenation, with the announced size modulo 2^64 and digest |
| `Protocol.FailedDownloadLeavesNothing` | sdk/src/sailor_client_internal.cpp:260-308 | once the target is open it is there afterwards if and only if the status is SAILOR_OK, and no other file is touched |
| `Protocol.StreamedChunksRebuild` | filesystem/download_service.cpp:87-105 | the server's chunks, read from any position, rebuild the rest of the file |
| `Protocol.StreamedChunksAreReported` | sdk/src/sailor_client_internal.cpp:282-286 | the progress reports of a download of the server's stream are those of an upload of the same file: one for each chunk, up to the size |
| `Protocol.DownloadArrives` | server/tcp_server.cpp:282-318 | from the DOWNLOAD_REQUEST on: for a path that names a file the server changes nothing, and the client that reads its stream returns SAILOR_OK with identical bytes at the path where a download of that name lands, and leaves what is behind the stream unread |
| `Protocol.DownloadIsStreamed` | filesystem/download_service.cpp:69-115 | for a path that names a file the replies are, packet by packet, the announcement with id, size, name and digest, the k-th block of 65536 bytes at offset k * 65536, and the end, under one id |
| `Protocol.DownloadIsRefused` | server/tcp_server.cpp:282-304 | for every other path there is one ERROR, which the client reads as SAILOR_FILE_NOT_FOUND without touching a file |
| `Protocol.TreeRequestArrives` | server/tcp_server.cpp:320-442 | mkdir, rmdir, delete and rename: the server performs the request the client sent, and the client reads SAILOR_OK exactly if it succeeded, leaving the rest of the stream unread |
| `Protocol.MkdirArrives` | filesystem/directory_service.cpp:46-86 | mkdir from request to status: SAILOR_OK if and only if the place is missing with no file on the way; exactly the missing prefixes are then there |
| `Protocol.RmdirArrives` | filesystem/directory_service.cpp:88-141 | rmdir from request to status: SAILOR_OK if and only if the path names an existing empty directory other than the plain root; exactly it is then gone |
| `Protocol.DeleteArrives` | filesystem/delete_service.cpp:44-95 | delete from request to status: SAILOR_OK if and only if the path names an existing childless entry other than the plain root; exactly it is then gone |
| `Protocol.RenameArrives` | filesystem/rename_service.cpp:46-123 | rename from request to status: SAILOR_OK if and only if the subtree move is allowed; exactly it is then made |
| `Protocol.ListingArrives` | server/tcp_server.cpp:162-191 | the client that lists a directory reads back the server's sorted listing if and only if its length and names fit their fields |
| `Protocol.ListingIsRefused` | server/tcp_server.cpp:177-189 | for a path that names no existing directory there is one ERROR that says which check failed, and the client returns SAILOR_OPERATION_FAILED with no entries |
| `Protocol.ListSucceedsExactly` | sdk/src/sailor_client_internal.cpp:139-160 | for every path: SAILOR_OK with the server's sorted entries if and only if the path names an existing directory and the listing fits its fields |
| `LockStep.OperationsStayInStep` | sdk/src/sailor_client_internal.cpp:139-381 | from a drained stream no operation, download included, waits in vain; the number of replies left unread is exact: none for a request, one for each rejected chunk of an upload that has begun, and for a download that the server streams and the client turns away the whole stream behind its announcement; none after SAILOR_OK |
| `LockStep.UploadSucceedsExactly` | sdk/src/sailor_client_internal.cpp:162-224 | from a drained stream, for any file and any session table: the client returns SAILOR_OK if and only if the id is new, the name proper, the directory accepted with no file on the way and no directory in the target's place; the target then holds the local bytes |
| `LockStep.DeniedDownloadLeavesTheStream` | sdk/src/sailor_client_internal.cpp:260-261 | a download whose target cannot be opened leaves ceil(n / 65536) chunks and DOWNLOAD_END unread |
| `LockStep.RunsStayInStep` | sdk/src/sailor_client_internal.cpp:139-381 | from a drained stream, over any sequence of operations, those behind a failure included: every one gets its answer, and the run ends drained if and only if no operation ever left anything over, in particular if all return SAILOR_OK |
| `LockStep.RunsNeverWait` | sdk/src/sailor_client_internal.cpp:139-381 | from any stream of replies, drained or not, in which every announcement is followed by the end of its stream or a packet that stops the client: no operation of any sequence waits in vain, and what is out of step stays out of step |
| `LockStep.ChunkReadAsStatus` | common/packet_builder.hpp:693-710 | a DOWNLOAD_CHUNK with id 2^56, parsed as a status reply, is a success, since the packet type is not looked at |
| `LockStep.DeniedDownloadFoolsTheNextRequest` | sdk/src/sailor_client_internal.cpp:260-326 | after a denied download with id 2^56 of a file that is not empty, a delete of "/" is refused by the server and reported as SAILOR_OK by the client |
| `LockStep.PerformIsTheClient` | sdk/src/sailor_client_internal.cpp:139-381 | on the serialized replies the client of these theorems has the status, takes the packets and leaves the bytes of the verdicts that the client methods are proved against |
| `TransferQueue.TransferNotifier.ProcessQueue` | flutter/lib/features/providers.dart:341-384 | the loop up to its next await, with the code's early return, is the step that the queue theorems speak about |
| `TransferQueue.TransferNotifier.EnqueueTask` | flutter/lib/features/providers.dart:280-314 | the notifier takes the step that TransferQueue.EnqueueExactly describes, and keeps the invariant |
| `TransferQueue.TransferNotifier.CancelTask` | flutter/lib/features/providers.dart:316-323 | the notifier takes the step that TransferQueue.CancelExactly describes, and keeps the invariant |
| `TransferQueue.TransferNotifier.RetryTask` | flutter/lib/features/providers.dart:329-339 | the notifier takes the step that TransferQueue.RetryExactly describes, and keeps the invariant |
| `TransferQueue.TransferNotifier.ClearCompleted` | flutter/lib/features/providers.dart:325-327 | the notifier takes the step that TransferQueue.ClearExactly describes, and keeps the invariant |
| `TransferQueue.TransferNotifier.OnProgress` | flutter/lib/features/providers.dart:269-277 | the notifier takes the step that TransferQueue.ReportExactly describes, and keeps the invariant |
| `TransferQueue.TransferNotifier.TransferEnded` | flutter/lib/features/providers.dart:366-383 | the notifier takes the step that TransferQueue.FinishedExactly describes, and keeps the invariant |
| `TransferQueue.PumpKeeps` | flutter/lib/features/providers.dart:341-384 | when the loop pauses or ends, one transfer at most is under way, and the loop runs exactly while one is awaited or none is queued |
| `TransferQueue.PumpStartsInListOrder` | flutter/lib/features/providers.dart:346-353 | the task that starts is the first queued one in list order, after those that failed before their await; if none starts, every queued task failed so |
| `TransferQueue.EventKeepsInv` | flutter/lib/features/providers.dart:263-385 | every event keeps: at most one transfer in flight, the loop flag set exactly while there is one, and no queued task without a running loop |
| `TransferQueue.CancelExactly` | flutter/lib/features/providers.dart:316-323 | exactly the listed queued and running tasks with this id become cancelled; nothing else changes |
| `TransferQueue.RetryExactly` | flutter/lib/features/providers.dart:329-339 | exactly the listed failed tasks with this id are queued again with no bytes transferred, all others are as before; on an idle queue the first of them in list order that does not throw starts, and those before it have thrown |
| `TransferQueue.EnqueueExactly` | flutter/lib/features/providers.dart:280-314 | the new task is last in the list with no bytes transferred; it waits while the loop runs, and otherwise starts or, if its attempt throws, fails; no other task changes |
| `TransferQueue.ClearExactly` | flutter/lib/features/providers.dart:325-327 | exactly the completed and cancelled tasks leave the list; the others keep their order, and no task changes |
| `TransferQueue.ReportExactly` | flutter/lib/features/providers.dart:269-277 | a report sets the byte count of the awaited task if it is listed and running, and changes nothing else |
| `TransferQueue.FinishedExactly` | flutter/lib/features/providers.dart:366-383 | the awaited task is completed with all its bytes, or failed; of the others only queued ones may start or fail |
| `TransferQueue.ReportReachesOnlyTheFlight` | flutter/lib/features/providers.dart:269-277 | a progress report reaches the awaited task or none |
| `TransferQueue.FinalStatuses` | flutter/lib/features/providers.dart:316-373 | completed is final; a cancelled task stays cancelled if and only if the event is not the end of its own awaited transfer |
| `TransferQueue.CancelInFlightIsOverwritten` | flutter/lib/features/providers.dart:316-373 | enqueue, cancel, end: a task cancelled while its transfer is under way ends as completed or failed |
| `TransferQueue.CancelledNeverStarts` | flutter/lib/features/providers.dart:316-352 | a task cancelled while it was not awaited is not started by any event |
| `TransferQueue.RunKeepsInvAndFinality` | flutter/lib/features/providers.dart:263-385 | over any run of events, with attempts that throw at one event and go through at another, the invariant holds, completed tasks stay completed, and tasks cancelled while queued stay cancelled and never start |
| `TransferQueue.WorkDecreases` | flutter/lib/features/providers.dart:341-384 | without new work no event adds to the pending transfers and each end of a transfer takes one away |
| `TransferQueue.LoopEnds` | flutter/lib/features/providers.dart:341-384 | without new work only boundedly many transfers end; once they have, the loop has stopped with nothing queued |

## Left out

- TLS, certificates, sockets, mutexes and the accept loop: a transport is a byte stream whose calls move any positive count of bytes or fail.
- connect and disconnect: the client starts authenticated; random ids and session numbers are parameters.
- SHA-256 itself: a digest is any streaming 32-byte function; its collisions are not excluded, so equal digests are the claim, not equal bytes. A digest library call that fails is not modelled.
- Uploads.UploadService.FinishUpload: an expected hash of 1 to 63 digits is compared past its end by the code; the model takes that comparison to fail at the terminating NUL.
- Framing.DeserializePacket: says of header sizes within 12 of 2^64 only that the copy is undefined.
- Listing.DeserializeListing: the announced count is also reserved for, up to 2^32 - 1 entries, before any entry is read; that this allocation can throw is not modelled.
- Client.InternalClient.Download: requires a local destination that is not empty, since the code reads its last character. Whether the target can be opened is a parameter, so creating local directories is not modelled.
- LockStep.PerformIsTheClient: is stated for replies whose payload is under 2^64 bytes, which is all that a vector can hold; the theorems about what stays unread need no such bound.
- Protocol.ListingArrives: likewise for the listing's payload.
- Protocol.DownloadArrives: is stated for files under 2^64 bytes and names under 2^16, beyond what a file system holds.
- Symbolic and hard links, permissions, a full disk, failing reads and writes, allocation failure for a huge header size: the tree primitives stand for a file system without them.
- Operating-system error texts: one constant stands for the text that errno selects, and the size-mismatch text carries no numbers.
- File name limits: a name with a NUL byte or of more than 255 bytes is an ordinary name here.
- `weakly_canonical`: an existing target has no trailing separator; a missing one ends in a separator exactly if its last component is empty, "." or "..". This is the behaviour of libstdc++ on a tree without links.
- A storage root of "/": the root is an absolute path of at least one name. How the server picks it at start is not modelled.
- Buffering in output streams: writes reach the inode at once. Files that are read, locally or on the server, do not change while they are read.
- Time stamps and the order in which a directory is visited: parameters. An insertion sort stands for `std::sort`.
- Dart strings: bytes here; the case-insensitive order of the panes, their entries and loading flags, and the local pane are not modelled.
- Task texts, ids built from the clock, start and end times, and the errors kept in tasks: left out. Pane refreshes are taken not to throw. Which transfers throw before their first await is a parameter.
- ConnectionState in the server: it is written and never read.
- Audit log, user database loading, console output, command line client, FFI, widgets, settings, formatting: plumbing.
