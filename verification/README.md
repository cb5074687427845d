# A verified model of the file-sharing server's core

The server shares files over TFTP and manages groups, directories and users over HTTP. This project
models the parts of it in which state, order and arithmetic interact, and proves what those parts
promise for all inputs, all runs or all reachable states.

* **TFTP transfer** (`TftpPacket`, `TftpSender`, `TftpAlignment`, `TftpRuns`, `TftpReceiver`, `TftpTransfer`,
  `TftpNetwork`, `TftpOptions`, `Checksum`, `Bytes`). The windowed sender and the cumulative-ACK receiver are written
  as the loops they are and proved equal to step functions; the theorems are about runs of those.
  Sender and receiver together are the identity on every file of up to 65535 blocks (as long as the
  sender's 32-bit products fit), and only on those. Against a network that loses, repeats, reorders and
  detectably damages datagrams the receiver's file is always the first blocks of the sender's file, under
  one hypothesis that is shown to be exact: the sender reads its file with a position that never moves
  back, so a window is right precisely when nothing is left to send or the last read that got anything
  began at the block position. `RepeatedBlockSpoilsFile` is the smallest transfer in which one repeated
  datagram leaves the wrong bytes in a transfer that completes.
* **Directories** (`Disk`, `Lookup`, `FileSystem`, `World`, `DirectoryTree`, `DirectoryExact`,
  `DirectoryAnswers`, `DirectoryStore`, `Controllers`). Rows with parent
  links and materialised paths, groups with codes, and the directories on disk. `Lookup` resolves a path as
  the kernel does, with repeated and trailing separators, "." and "..". `World` says what each
  operation does to database and disk together, `DirectoryTree` proves exactly which requests keep the
  two mirror images of each other, over every run; `DirectoryExact` says what each request changes and
  what a name with a separator does, `DirectoryAnswers` what each request answers and does for every
  combination of its arguments; `DirectoryStore` and `Controllers` are the objects and handlers that
  update the state, proved equal to `World`. The cascades of create_table.sql are in force because
  `init_database` (src/main.c:138-172) runs that file, whose first statement switches foreign keys on,
  over the one connection every model function uses.
* **Thread pool** (`ThreadPool`, `ThreadPoolProgress`, `ThreadPoolShutdown`). Workers and submitters as an
  interleaved step relation with one mutex, one condition variable with spurious wakeups, and the active
  flag: safety over every interleaving, the exact condition under which a queued job can still be taken,
  and that the destructor's flag and signals let every worker come to its end.
* **Base64** (`Base64`), **lists and queues** (`LinkedList`, `ListSearch`, `Queue`), **search tree and
  dictionary** (`SearchTree`, `Dictionary`), **request parsing** (`Strtok`, `HttpRequest`).

`dafny verify dfyconfig.toml` checks everything.

## Where the code does less than its comments or the standards say

* Section 6 of RFC 1350 ends a transfer with a short block; the receiver's rollover test
  (tftp_client_handle.c:465) compares a 16-bit number with 65536, so no transfer of more than 65535
  blocks completes (`TftpTransfer.CompletesIff`).
* Section 4 of RFC 7440 lets a receiver acknowledge part of a window. The sender accepts such an ACK but
  does not seek back. Which windows are then wrong `TftpRuns.GenuineAfterIff` says exactly: before the end
  of the file all that follow an ACK for less than a whole window, until the counter happens to meet the
  last read again (`TftpRuns.RightAgain`); a repeat of what was read last is harmless
  (`TftpRuns.HarmlessRepeat`). `TftpNetwork.NetworkIff` carries this through to the receiver's file.
* The second half of the ACK test (tftp_client_handle.c:589) is meant for a window that wraps. It also
  accepts stale numbers when nothing wraps, exactly as `TftpSender.AckStaysInWindow` says.
* `__send_blocks` multiplies block number and block size in an int (tftp_client_handle.c:608). The products
  of a transfer are all defined exactly when (size/blk + 1) * blk is below 2^31 (`TftpTransfer.DefinedIff`).
* `_recv_data` reads through the pointer that `_recv_packet` returns before `_recv_file` tests it for
  NULL. The receiver switches its timeouts off (tftp_client_handle.c:207), so only an error of the receive
  call yields NULL; it then ends the process, and the retry branch never runs. The model has no such step.
* A worker waits on the condition before it looks at the queue (thread_pool.c:104), so a job can be queued
  with nobody left to take it. `ThreadPoolProgress.TakenIff` says in which states.
* Directory names are not checked for `/`. Every such name that is saved makes a directory inside a sibling
  while its row hangs beside it, or a directory elsewhere than its row says (`DirectoryExact.SavedNameIff`).
* The file handlers pass a client's path to the C library's `remove`, which takes an empty directory too;
  its row then has no directory (`DirectoryTree.RemoveIff`, `DirectoryExact.SaveOnDirectoryBreaksMirror`). So do other
  spellings of the path, such as a trailing separator (`DirectoryExact.OtherSpellingsHit`).
* When the insert of `directory_save` fails, it removes a path without the upload prefix, and the second
  rollback of `group_save` leaves the folder. Neither is reachable from a state in which the mirror
  holds (`DirectoryTree.RollbackIsDead`, `DirectoryTree.GroupSaveCases`).
* `bubble_sort_ll` starts its outer loop at the first element's data rather than at the first node
  (linked_list.c:229), which is defined for the empty list only. `ListSearch.BubbleSort` starts at the head
  node.
* A form field without a value makes the parser read through a null pointer. The model returns `ok ==
  false` there, `HttpRequest.FieldParsesIff` says for which fields, and `HttpRequest.KeyAloneFails` is the
  shortest.

## Model

| member | source | states |
|---|---|---|
| Checksum.Checksum | src/networking/checksum.c:6-40 | The method computes the ones' complement checksum of the bytes alone: whatever the padding flag, it is 65535 minus the end-around-carry residue of the word sum |
| Checksum.WorkedExample | src/networking/checksum.c:6-40 | The example of section 3 of RFC 1071 comes out as it does there |
| Checksum.FoldCarries | src/networking/checksum.c:35-36 | The folding loop ends, with 0 for 0 and ((n-1) mod 65535)+1 otherwise |
| Checksum.SumBuffer | src/networking/checksum.c:29-34 | The summing loop over the zero-filled buffer stays inside it and yields the sum of the 16-bit words |
| Checksum.SumFits | src/networking/checksum.c:11-34 | The sum of n words is at most 65535 n, so the 64-bit accumulator cannot overflow |
| Checksum.SealedVerifies | src/networking/tftp/tftp_client_handle.c:489-493 | Prefixing any payload, of even or odd length, with its checksum makes the whole packet's checksum 0 |
| Checksum.ZeroChecksum | src/networking/checksum.c:29-39 | The checksum is 0 exactly when the word sum is a positive multiple of 65535 |
| Checksum.SingleWordError | src/networking/tftp/tftp_client_handle.c:444-449 | Replacing one aligned word of a valid packet by another goes unnoticed exactly when 0x0000 and 0xFFFF are exchanged and the packet is not left all zero |
| TftpPacket.DataRoundTrip | src/networking/tftp/tftp_client_handle.c:395-403 | A DATA datagram opens to the block number and bytes it was made from, with an intact checksum |
| TftpPacket.DataFormat | src/networking/tftp/tftp_client_handle.c:625-633 | Opcode 3, the block number in network order and the bytes stand where section 5 of RFC 1350 puts them, behind the checksum |
| TftpPacket.AckFormat | src/networking/tftp/tftp_client_handle.c:635-642 | Likewise opcode 4 and the block number |
| TftpPacket.KindsApart | src/networking/tftp/tftp_client_handle.c:405-411 | DATA is refused as an ACK and ACK as DATA |
| TftpPacket.DamagedData | src/networking/tftp/tftp_client_handle.c:444-449 | A DATA datagram with one word behind the opcode replaced opens as damaged, unless 0x0000 and 0xFFFF were exchanged |
| TftpPacket.DamagedAck | src/networking/tftp/tftp_client_handle.c:383-386 | An ACK with any one word replaced is refused, with the same exception |
| TftpPacket.DataInjective | src/networking/tftp/tftp_client_handle.c:625-633 | Two DATA datagrams are equal only if number and bytes are |
| TftpPacket.AckRoundTrip | src/networking/tftp/tftp_client_handle.c:379-393 | An ACK datagram opens to its block number |
| TftpSender.OnlyLastBlockIsShort | src/networking/tftp/tftp_client_handle.c:615-616 | Of the floor(size/blk)+1 blocks exactly the last is shorter than blk, and its length is size mod blk, possibly 0 |
| TftpSender.SendBlocks | src/networking/tftp/tftp_client_handle.c:600-623 | __send_blocks emits the window cut from the buffer, stopping at the first block past the file, returns 0 exactly when it emits nothing, and multiplies exactly the listed block numbers by the block size |
| TftpSender.ProductsBounded | src/networking/tftp/tftp_client_handle.c:607-608 | As long as the position is within the file none of these products exceeds block count times block size |
| TftpSender.SendFile | src/networking/tftp/tftp_client_handle.c:558-598 | The whole loop, against any script of replies, sends exactly what the step semantics SendRun says and ends the way it says; TftpNetwork.SendRunIs says what that is |
| TftpSender.AckUnwraps | src/networking/tftp/tftp_client_handle.c:588-596 | If the true count lies in the window, its low 16 bits are accepted and the two counters then hold the count in full |
| TftpSender.AckVerdict | src/networking/tftp/tftp_client_handle.c:588-596 | For every 16-bit number: if it stands for a count in the window that becomes the count; if it stands for none and is not stale, the sender is left exactly as it was; a stale one skips to the next 65536; file position and buffer are never touched |
| TftpSender.RefillBytes | src/networking/tftp/tftp_client_handle.c:571-571 | Byte by byte: fread puts what the file still has to give in front and leaves the old bytes behind it |
| TftpSender.AckStaysInWindow | src/networking/tftp/tftp_client_handle.c:589-595 | For any 16-bit number the position stays in the window if and only if the number is not stale; a stale one moves it forward by 65536 minus the gap |
| TftpAlignment.PositionTracksCounts | src/networking/tftp/tftp_client_handle.c:588-596 | Over any run of in-window counts, every ACK is accepted and the sender's position is the true count through any number of wraps |
| TftpAlignment.PositionNeverFalls | src/networking/tftp/tftp_client_handle.c:588-596 | Over any run of ACKs none of which is stale the position never decreases |
| TftpRuns.GenuineAfterIff | src/networking/tftp/tftp_client_handle.c:569-597 | After any ACKs at all, the next window carries the file's own blocks, for all files of a size, if and only if no bytes are left to send or p * blk equals Need * min(rounds, (size-1)/Need), where the last read that got anything began |
| TftpNetwork.SendRunIs | src/networking/tftp/tftp_client_handle.c:569-597 | Until the first reply that is no intact ACK the sender transmits exactly the windows its ACKs call for; it returns as soon as one of them is empty, is terminated by such a reply, and otherwise waits |
| TftpRuns.HarmlessRepeat | src/networking/tftp/tftp_client_handle.c:571-571 | A file that one read takes whole goes out right from block 0 after any number of rounds |
| TftpRuns.RightAgain | src/networking/tftp/tftp_client_handle.c:571-597 | Four bytes, two blocks a window, ACKs 0 and 2: the second window is wrong and the third right |
| TftpReceiver.RecvFile | src/networking/tftp/tftp_client_handle.c:413-481 | The receiver's two loops, against any script of datagrams, reach the state the step semantics RecvAll says |
| TftpReceiver.DamagedIsAnswered | src/networking/tftp/tftp_client_handle.c:444-480 | A damaged block is answered at once with exactly one ACK, for the last good number; the window starts over and nothing else changes |
| TftpReceiver.OutOfTurnIsCounted | src/networking/tftp/tftp_client_handle.c:450-480 | An intact block out of turn uses up a slot and changes nothing else, but for one ACK when the window is used up |
| TftpReceiver.NextBlockIsTaken | src/networking/tftp/tftp_client_handle.c:450-480 | The next block is written; it is acknowledged when it is short, which completes, or when the window is used up |
| TftpReceiver.OtherKindAborts | src/networking/tftp/tftp_client_handle.c:315-321 | Anything that is no DATA ends the transfer where it stands |
| TftpReceiver.AckEveryWindow | src/networking/tftp/tftp_client_handle.c:428-480 | No window's worth of datagrams, whatever they are, goes by without an ACK |
| TftpReceiver.StepIsFaithful | src/networking/tftp/tftp_client_handle.c:443-479 | Each datagram that is a block of the file or visibly damaged keeps the written bytes a block prefix of the file; an ACK carries the count just reached |
| TftpReceiver.ReceiverIsFaithful | src/networking/tftp/tftp_client_handle.c:413-481 | For any loss, repetition, reordering or detectable damage the bytes written are the first lastId blocks, ACK numbers never fall or run ahead, and a normal return means the file is complete |
| TftpReceiver.StuckAfter65535 | src/networking/tftp/tftp_client_handle.c:465-466 | After block 65535 nothing more is written and the receiver never completes |
| TftpTransfer.LosslessTransfer | src/networking/tftp/tftp_client_handle.c:558-623 | Over a lossless in-order link, for every file of at most 65535 blocks, every block size and window, the transfer ends with an equal file after exactly the blocks 1 .. floor(size/blk)+1, and the sender's next window is empty; no 32-bit product overflows on the way if and only if (size/blk + 1) * blk is below 2^31 |
| TftpTransfer.CompletesIff | src/networking/tftp/tftp_client_handle.c:413-481 | The lossless transfer completes, the sender returns and no 32-bit product has overflowed, if and only if size/blk + 1 is at most 65535 and (size/blk + 1) * blk is below 2^31 |
| TftpTransfer.EachFeedsTheOther | src/networking/tftp/tftp_client_handle.c:558-598 | Products being mathematical integers: the receiver fed the file's datagrams completes with the file and sends exactly one ACK per window; the sender fed those ACKs transmits exactly those datagrams and returns |
| TftpNetwork.UnreliableNetwork | src/networking/tftp/tftp_client_handle.c:413-481 | End to end over a lossy, repeating, reordering network, provided every window sent was on track in the sense of GenuineAfterIff, the receiver's file is a block prefix of the sender's and a completed one is equal to it |
| TftpNetwork.NetworkIff | src/networking/tftp/tftp_client_handle.c:569-597 | For any ACKs acted on: all files of a size (of at most 65535 blocks) arrive faithfully under every delivery of what was transmitted if and only if every window was on track; otherwise the good blocks in order and then the first bad one spoil some file |
| TftpNetwork.TranscriptIsDeliverable | src/networking/tftp/tftp_client_handle.c:600-633 | With every window on track, every datagram transmitted carries a block of the file under its own number |
| TftpNetwork.RepeatedBlockSpoilsFile | src/networking/tftp/tftp_client_handle.c:569-597 | Counterexample: one repeated datagram makes a two-byte transfer complete with the file [a, a] |
| TftpOptions.ParsePrint | src/networking/tftp/tftp_client_handle.c:533-546 | Parsing the bytes an OACK prints, followed by anything unprintable, gives back the options in order |
| TftpOptions.PrintParse | src/networking/tftp/tftp_client_handle.c:728-766 | Printing what was parsed reproduces the bytes consumed, so the OACK echoes the request |
| TftpOptions.ProcessOption | src/networking/tftp/tftp_client_handle.c:728-766 | The pointer walk returns ParseOptions of the buffer |
| TftpOptions.Handler.MapOptions | src/networking/tftp/tftp_client_handle.c:768-794 | Terminates the transfer exactly when some option is out of range; otherwise each size is set by its last occurrence |
| TftpOptions.AtoiReadsDecimal | src/networking/tftp/tftp_client_handle.c:776-785 | atoi undoes the decimal printer for every number, behind white space and either sign, and before any text that does not go on with a digit |
| TftpOptions.LastDecides | src/networking/tftp/tftp_client_handle.c:772-793 | The value of the last option of a name is the one that counts |
| TftpOptions.AcceptedSizes | src/networking/tftp/tftp_client_handle.c:774-790 | Of printed numbers exactly 0..65464 are accepted for blksize and 0..255 for windowsize |
| TftpOptions.NegotiateSizes | src/networking/tftp/tftp_client_handle.c:768-794 | A request that names both sizes in range, among any other options and in either order, leaves exactly those sizes |
| TftpOptions.RequestBytes | src/networking/tftp/tftp_client_handle.c:541-541 | Name, zero octet, value, zero octet |
| TftpOptions.NegotiatedInRange | src/networking/tftp/tftp_client_handle.c:774-790 | Sizes that start in range stay in 0..65464 and 0..255 |
| FileSystem.FileSystem.RemoveDirectory | src/utils/helper.c:92-139 | The recursive loop, in whatever order entries are read, removes exactly the subtree |
| Lookup.EntryIsFound | src/utils/helper.c:92-151 | The path an entry has leads the kernel's lookup to it, as it stands |
| Lookup.MkdirMakesRoom | src/utils/helper.c:148-151 | Where mkdir succeeds, for any spelling of the path, the entry is new, has a real name and lives in a directory |
| Lookup.StaysBelow | src/http/controller/file_controller.c:288-291 | A path whose components do not climb out of the upload directory never makes the lookup ask for its parent |
| Lookup.DotDotLeadsBack | src/utils/helper.c:92-151 | ".." behind a directory leads back to where that is |
| Disk.AncestorsExist | src/utils/helper.c:92-139 | In a well-formed tree every directory above an entry is an entry |
| Disk.AllClear | src/utils/helper.c:112-136 | When the subtrees of all entries read are gone, what is left below the path is the path itself, and it is empty |
| Disk.PruneUndoesMkdir | src/utils/helper.c:148-151 | Making a directory and removing its subtree restores the disk |
| World.DoomedIsLeast | create_table.sql:48-62 | The cascade along parent_id deletes the least set closed under it |
| DirectoryTree.CascadeIsSubtree | src/model/directory.c:196-217 | The rows the transitive cascade deletes are exactly the rows whose paths lie in the subtree removed from disk |
| DirectoryTree.GroupCascadeIsSubtree | src/model/group.c:181-202 | Deleting a group deletes exactly its own rows, which are exactly the rows below its code |
| DirectoryTree.GroupByPath | src/model/directory.c:147-158 | A row belongs to a group if and only if its path lies below the group's code |
| DirectoryTree.RollbackIsDead | src/model/directory.c:166-178 | Once mkdir has succeeded the insert cannot violate a constraint |
| DirectoryTree.GroupSaveCases | src/model/group.c:100-148 | group_save adds row, folder and membership together, or fails leaving nothing but a used key |
| DirectoryTree.DirectorySaveKeepsInv | src/model/directory.c:127-186 | directory_save with a parent in the same group keeps the mirror invariant |
| DirectoryTree.DirectoryRemoveKeepsInv | src/model/directory.c:196-217 | directory_remove keeps the mirror invariant |
| DirectoryTree.GroupRemoveKeepsInv | src/model/group.c:181-202 | group_remove keeps the mirror invariant |
| DirectoryTree.StepKeepsInvIff | src/http/controller/directory_controller.c:21-181 | Over every request of any user, with any arguments whose paths do not climb out of the upload directory (registering, groups made, deleted, joined, left, kicked from, directories made, deleted, updated, files uploaded, saved, deleted): the mirror invariant survives if and only if the request is safe, that is, saves no name with '/' and passes remove no path that the kernel resolves to an empty directory |
| DirectoryTree.RemoveIff | src/model/file.c:198-201 | Removing the path of a file row keeps the mirror if and only if the path, in whatever spelling, does not lead to an empty directory |
| DirectoryTree.SaveIff | src/http/controller/file_controller.c:283-313 | save_file keeps the mirror unless its insert fails and the client's path leads to an empty directory |
| DirectoryTree.MakeIff | src/http/controller/directory_controller.c:21-88 | make_directory keeps the invariant if and only if a name it saves has no '/'; names with ".", ".." or empty components are saved or refused as mkdir does |
| DirectoryTree.MirrorAlways | create_table.sql:48-62 | After any sequence of safe requests from an empty start (paths not climbing out), by owners, other members and outsiders: the directories on disk are the group codes and the row paths, row paths are distinct, parents are older rows of the same group, and each path is its parent's path or group code, '/', and its name |
| DirectoryTree.MirrorIffSafe | create_table.sql:48-62 | Over every sequence of requests from an empty start (paths not climbing out): the invariant holds in all its states if and only if each request was safe where it was made |
| DirectoryExact.SaveOnDirectoryBreaksMirror | src/http/controller/file_controller.c:288-313 | At a reachable state: whatever the names, a user with a group and an empty directory in it loses the directory from disk, but not its row, when any user saves a file with its path and the insert fails |
| DirectoryExact.MakeSucceedsIff | src/http/controller/directory_controller.c:21-88 | For a name without '/': make_directory answers 200 if and only if the group exists, the parent is in it, the user is a member, the name is usable and no file or directory has the path |
| DirectoryExact.MakeIsExact | src/model/directory.c:127-186 | For any name: on 200 there is one new row, owned by the user, with the parent's permission or READ, and one new directory where its path leads, and nothing else changes; in every other case nothing changes |
| DirectoryExact.OnlyOwnersRemove | src/http/controller/directory_controller.c:119-127 | Over all requests, a row goes if and only if the owner of the directory or of one above it asks for that one to be deleted, or its group's owner asks for the group to be |
| DirectoryExact.DirectoryRemoveIsExact | src/http/controller/directory_controller.c:98-130 | Deleting a directory leaves every row, group and disk entry outside its subtree untouched |
| DirectoryExact.GroupRemoveIsExact | src/model/group.c:181-202 | The group's row, its rows, its own memberships and everything below its code go; every other group, membership, row and entry stays, and so do users and key counters |
| DirectoryAnswers.DeleteAnswers | src/http/controller/group_controller.c:162-201 | Status and effect for every combination of arguments: only the owner of the group with that code deletes it, and exactly that group goes |
| DirectoryAnswers.CreateAnswers | src/http/controller/group_controller.c:17-48 | A group is made if and only if the user exists, name and code are new and there is room for the folder; then one group, one membership and one folder are added and nothing else |
| DirectoryAnswers.JoinAnswers | src/http/controller/group_controller.c:212-253 | Status and effect: anyone with the code becomes a member once, and nothing else changes |
| DirectoryAnswers.LeaveAnswers | src/http/controller/group_controller.c:263-302 | Status and effect: a member leaves that group and no other |
| DirectoryAnswers.KickAnswers | src/http/controller/group_controller.c:312-365 | Status and effect: the owner, and nobody else, takes out one member |
| DirectoryAnswers.MakeAnswers | src/http/controller/directory_controller.c:21-88 | Each refusal of make_directory as a condition on request and world |
| DirectoryAnswers.DropAnswers | src/http/controller/directory_controller.c:98-130 | Status and effect: only the directory's owner deletes it, and exactly its subtree goes |
| DirectoryAnswers.UpdateAnswers | src/http/controller/directory_controller.c:140-181 | Status and effect: only the owner, and only the permission of that row |
| DirectoryAnswers.DuplicateIsRefused | create_table.sql:61-61 | In any state, a second row of the same name, group and parent is refused |
| DirectoryAnswers.NullParentNeverCollides | create_table.sql:61-61 | In any state, without a parent mkdir alone decides |
| DirectoryAnswers.FileByItsPath | src/model/file.c:198-201 | A file is found and removed by its path, but not with a separator behind it |
| DirectoryAnswers.RemovedIsExact | src/model/file.c:201-201 | remove takes a file or an empty directory and nothing else |
| DirectoryAnswers.UploadIsExact | src/networking/tftp/tftp_client_handle.c:710-726 | An uploaded file is added where there is room for it; where something has its path nothing changes |
| DirectoryExact.RemoveUndoesSave | src/model/directory.c:127-217 | Making a directory and deleting it restores rows and disk |
| DirectoryExact.CascadeIsNeeded | create_table.sql:58-58 | What ON DELETE CASCADE is for: a delete that took the one row only would keep the mirror if and only if the directory has no child row |
| DirectoryExact.SavedNameIff | src/model/directory.c:127-186 | For every name make_directory saves, components ".", ".." and "" included: the disk is mirrored, then and after the deletion of any one directory, if and only if the name contains no '/' |
| DirectoryExact.OtherSpellingsHit | src/http/controller/file_controller.c:288-308 | Trailing and repeated separators and "." components lead remove to the same empty directory |
| DirectoryStore.Directory.Save | src/model/directory.c:127-186 | Database, disk and return value are those of the specification, and the object then holds the stored row |
| DirectoryStore.Directory.FindPath | src/model/directory.c:134-160 | Path and permission come from the parent row, or the group's code and the object's own permission; fails when they are missing |
| DirectoryStore.Directory.Remove | src/model/directory.c:196-217 | Row with its cascade and subtree on disk are gone, all else is as before |
| DirectoryStore.Directory.Update | src/model/directory.c:227-249 | Only the permission of the one row changes |
| DirectoryStore.Group.Save | src/model/group.c:100-148 | Database, disk and return value are those of the specification, rollbacks included |
| DirectoryStore.Group.Remove | src/model/group.c:181-202 | Group row with its cascades and the folder's subtree are gone, all else is as before |
| Controllers.MakeDirectory | src/http/controller/directory_controller.c:21-88 | For any name, the guards in their order give the specified status and state; the mirror invariant is kept if and only if the request is safe |
| Controllers.DeleteDirectory | src/http/controller/directory_controller.c:98-130 | delete_directory as specified, keeping the mirror invariant; likewise, in the same module, update_directory, create_group, delete_group, join_group, leave_group and kick_member_group |
| Controllers.SaveFile | src/http/controller/file_controller.c:269-320 | The disk side of save_file: specified status and state; the mirror invariant is kept if and only if the request is safe |
| ThreadPool.StepKeepsInv | src/systems/thread_pool.c:95-135 | Every step of every thread keeps the pool invariant |
| ThreadPool.OffersAreConserved | src/systems/thread_pool.c:129-135 | Over every run the jobs handed to add_work are, as multisets, those submitted and those submitters still carry |
| ThreadPool.JobsAreConserved | src/systems/thread_pool.c:95-135 | In every reachable state the jobs submitted are, in order, the jobs taken followed by the jobs queued, and at most one thread is between lock and unlock |
| ThreadPool.WorkerHistory | src/systems/thread_pool.c:99-120 | Each worker executes exactly the jobs it took, in order |
| ThreadPool.TakesAreBounded | src/systems/thread_pool.c:99-120 | Over every run, counting its steps: a worker never takes more jobs than its wait returns, and at most one after the flag is cleared |
| ThreadPool.EveryJobAccountedFor | src/systems/thread_pool.c:95-135 | As multisets: submitted equals executed plus in hand plus queued, over any number of workers |
| ThreadPoolProgress.TakenIff | src/systems/thread_pool.c:95-135 | In every reachable state with a queued job, for any number of threads: some continuation without spurious wakeups, new submissions or shutdown takes that job next, if and only if a worker is past the wait, or in it with a signal ahead, or can get into it before a signal ahead is sent |
| ThreadPoolProgress.StuckForGood | src/systems/thread_pool.c:99-120 | Where that condition fails, no such continuation ever takes anything or makes it hold again |
| ThreadPoolProgress.WakeupIsKept | src/systems/thread_pool.c:104-112 | Once a worker is past the wait with a job queued, along any run at all that job has been taken next or some continuation still takes it |
| ThreadPoolProgress.LostJob | src/systems/thread_pool.c:102-104 | Such stuck states are reachable: a job submitted before the worker waits is queued for good |
| ThreadPoolShutdown.StopLetsAllEnd | src/systems/thread_pool.c:67-82 | From every reachable active pool the destructor's flag and signals allow a continuation, without spurious wakeups or new submissions, in which every worker returns; a job queued while some worker was waiting, on its way there or past the wait is taken next in it |
| ThreadPoolShutdown.EveryEndTakesHead | src/systems/thread_pool.c:95-121 | Such a job is taken on every way to the end of all workers |
| Base64.DecodeEncode | src/http/helper/helper.c:206-277 | Decoding an encoding returns every non-empty byte sequence, of length n from a text of length 4 ceil(n/3) |
| Base64.EncodeDecodeIff | src/http/helper/helper.c:206-277 | Encoding a decoding returns the text if and only if the text is canonical (RFC 4648, sections 3.5 and 4) |
| Base64.EncodeIsCanonical | src/http/helper/helper.c:206-236 | Every encoding of non-empty input is canonical |
| Base64.SameNumber | src/http/helper/helper.c:217-233 | Each three octets and the four characters they become are the same number, most significant first (RFC 4648, section 4) |
| Base64.LetterIsAlphabet | src/http/helper/helper.c:10-17 | The letters are those of table 1 of RFC 4648, in that order |
| Base64.BuildDecodingTable | src/http/helper/helper.c:299-306 | Whatever the allocated memory held, the 64 letters map back to their values |
| Base64.EncodeText | src/http/helper/helper.c:206-236 | The loop over moving indices stays in range and produces Encode of the data |
| Base64.DecodeText | src/http/helper/helper.c:238-277 | NULL exactly when the length is no multiple of four; otherwise the loop stays in range and produces Decode of the text |
| LinkedList.List.Iterate | src/data_structures/lists/linked_list.c:102-118 | The node at an index inside the list, NULL otherwise |
| LinkedList.List.Insert | src/data_structures/lists/linked_list.c:130-156 | In place: the contents with the element inserted, or unchanged for an index outside 0..length |
| LinkedList.List.Remove | src/data_structures/lists/linked_list.c:168-198 | In place: the contents without the element at the index, or unchanged |
| LinkedList.RemoveUndoesInsert | src/data_structures/lists/linked_list.c:130-198 | Removing where one has just inserted restores the list, and retrieving there returns the element |
| LinkedList.OutsideIsIgnored | src/data_structures/lists/linked_list.c:102-118 | Outside the list, or its end for an insert, nothing is changed or found |
| ListSearch.BinarySearch | src/data_structures/lists/linked_list.c:254-292 | On a sorted list the loop ends, probes only valid indices and answers 1 exactly when an equal element exists |
| ListSearch.BubbleSort | src/data_structures/lists/linked_list.c:227-241 | As meant, that is, started at the head node: leaves a sorted permutation on the same nodes |
| ListSearch.SortThenSearch | src/data_structures/lists/linked_list.c:227-292 | With the sort as meant, started at the head node: sorting and searching decides membership in the original list |
| ListSearch.Narrow | src/data_structures/lists/linked_list.c:262-289 | One probe of a sorted list moves one bound past everything it rules out |
| ListSearch.OccurrenceIsInvariant | src/data_structures/lists/linked_list.c:227-241 | Lists with the same elements agree on what occurs in them |
| Queue.Queue.Push | src/data_structures/lists/queue.c:50-54 | Appends at the end of the queue |
| Queue.Queue.Peek | src/data_structures/lists/queue.c:63-68 | The first element, NULL for an empty queue |
| Queue.Queue.Pop | src/data_structures/lists/queue.c:76-80 | Removes the first element; an empty queue stays empty |
| Queue.FirstIsFirst | src/data_structures/lists/queue.c:50-80 | First in, first out |
| SearchTree.StrCmpIsLexicographic | src/data_structures/trees/binary_search_tree.c:308-324 | The comparator says -1 exactly when the first string stops, or has the smaller character, at the first difference |
| SearchTree.StrCmpTransitive | src/data_structures/trees/binary_search_tree.c:308-324 | The comparator's order is transitive |
| SearchTree.LocateDecides | src/data_structures/trees/binary_search_tree.c:96-141 | On an ordered tree the walk reports direction 0 exactly for bound keys and then stands on their entry |
| SearchTree.GraftKeepsOrder | src/data_structures/trees/binary_search_tree.c:196-222 | Hanging a new key where the walk ends keeps the order: smaller keys under next, larger under prev |
| SearchTree.GraftBinds | src/data_structures/trees/binary_search_tree.c:208-219 | A new key adds exactly one binding |
| SearchTree.GraftOfBound | src/data_structures/trees/binary_search_tree.c:220-221 | A bound key leaves the tree as it is |
| SearchTree.SearchTree.Search | src/data_structures/trees/binary_search_tree.c:173-187 | Returns the bound value, or NULL exactly for unbound keys |
| SearchTree.SearchTree.Insert | src/data_structures/trees/binary_search_tree.c:196-222 | On heap nodes: the bindings gain the key unless it was bound, order and links are kept |
| Dictionary.Dictionary.Search | src/data_structures/dictionary/dictionary.c:90-105 | Lookup in the first-insert-wins map of the whole insertion history |
| Dictionary.Dictionary.Insert | src/data_structures/dictionary/dictionary.c:117-122 | The history grows by the pair; tree and key list keep representing it |
| Dictionary.Dictionary.Iterate | src/data_structures/dictionary/dictionary.c:160-168 | One callback per past insert, in order, each with the looked-up value |
| Dictionary.CallsPassFirstValues | src/data_structures/dictionary/dictionary.c:160-168 | Each of those callbacks receives the value of the key's earliest insert, never NULL |
| Dictionary.EarliestInsertWins | src/data_structures/dictionary/dictionary.c:90-122 | Lookup returns the value of the earliest insert of a key |
| Dictionary.UnboundIffAbsent | src/data_structures/dictionary/dictionary.c:90-105 | A key is unbound exactly when it was never inserted |
| Strtok.Tokenizer.Strtok | src/networking/http/http_request.c:121-122 | The stateful tokenizer returns the token and leaves its hidden pointer where the pure Tok says |
| Strtok.TokensAreSegments | src/networking/http/http_request.c:109-114 | Tokenising call after call on one delimiter is splitting and dropping empty segments |
| HttpRequest.ParsePrint | src/networking/http/http_request.c:182-210 | Parsing k1=v1&k2=v2&... gives back the pairs in order, for all printable keys and values |
| HttpRequest.PrintedFormLookup | src/networking/http/http_request.c:182-210 | The resulting dictionary looks up each key's first value and lists the keys in order |
| HttpRequest.FormIsSplit | src/networking/http/http_request.c:186-206 | The two tokenising passes amount to splitting at '&', dropping empty pieces and parsing each |
| HttpRequest.FieldParsesIff | src/networking/http/http_request.c:196-199 | A field parses if and only if, behind leading '=', there is a '=' with something after it |
| HttpRequest.KeyAloneFails | src/networking/http/http_request.c:196-199 | The form "a" is the shortest that ends the process |
| HttpRequest.ParseFieldsAll | src/networking/http/http_request.c:193-206 | A form parses exactly when each field does, field by field |
| HttpRequest.ExtractForm | src/networking/http/http_request.c:182-210 | Queue, shared tokenizer and dictionary together compute the pure parse as the dictionary's history |
| HttpRequest.ExtractBody | src/networking/http/http_request.c:148-180 | The same for the body once a Content-Type header is present; without one the result is empty |
| HttpRequest.ExtractHeaders | src/networking/http/http_request.c:102-140 | The header dictionary's history is the pure parse of the lines, those without a value dropped |
| HttpRequest.ParsePrintHeaders | src/networking/http/http_request.c:102-140 | "Name: value\r\n" lines come back as names and values in order |
| HttpRequest.HeaderAround | src/networking/http/http_request.c:121-133 | A header line gives its name and value with or without the space and with or without the carriage return |
| HttpRequest.HeaderParsesIff | src/networking/http/http_request.c:121-123 | A line gives a header if and only if, behind leading ':', there is a ':' with something after it |
| HttpRequest.HeadersOneByOne | src/networking/http/http_request.c:118-137 | The headers of some lines and some more are those of the ones followed by those of the others |
| HttpRequest.HeadersCons | src/networking/http/http_request.c:121-136 | A line adds its own header in front of those of the lines behind it, or nothing when it has no value |
| HttpRequest.FieldAround | src/networking/http/http_request.c:196-203 | Leading '=' are no part of a key, one leading space is no part of a value, and a later '=' is |

## Left out

- TftpSender.SendFile: what the C code does once a 32-bit product has overflowed is undefined and not modelled; `TftpTransfer.DefinedIff` says when none does, and the theorems other than LosslessTransfer and CompletesIff take products as mathematical integers.
- TftpSender.SendFile: block size 0 and window 0, which negotiation lets through, are excluded; with block size 0 the loop would not end.
- TftpReceiver.RecvFile: write errors (disk full) and timeouts are not steps; datagrams from other peers are taken to have been filtered out.
- TftpOptions.ProcessOption: names and values of 256 bytes or more would overrun fixed arrays and are not modelled; values too large for atoi's int are read as mathematical integers.
- TftpNetwork.UnreliableNetwork: damage that keeps the checksum valid is outside the hypothesis, since no receiver can tell; `Checksum.SingleWordError` says which single-word damage that is.
- LinkedList.List.Remove: the length of a non-empty list is excluded as index, where the C code follows a NULL pointer.
- Base64.DecodeText: the empty text, for which the C code reads before its buffer, and characters from 128 up, which index below the table, are excluded.
- ListSearch.BubbleSort: starts at the head node, where linked_list.c:229 starts at the first element's data.
- Dictionary.Dictionary.Insert: keys are strings; the byte sizes copied, and with them the missing terminators of some callers, are not modelled.
- ThreadPoolShutdown.StopLetsAllEnd: the destructor also cancels the threads after signalling; cancellation, joining and wait() of the pool are not modelled.
- ThreadPoolProgress.TakenIff: says that a continuation exists, not that a scheduler picks it; job functions are taken to return.
- Controllers.MakeDirectory: number parsing, sessions and JSON output are parameters or left out; database and disk failures other than constraint violations and mkdir's two are not modelled.
- ListSearch.SortThenSearch: rests on that sort.
- Controllers.SaveFile: whether the insert into the files table succeeds is a parameter, because the table is not modelled: paths and directory ids in it come unchecked from the client, so no tree invariant holds for it. What its rows can do to the disk is: any path may be passed to `remove`.
- Group renaming: it touches neither rows nor disk.
- TFTP retransmission of the last packet, whose length the C code never stores; sockets, setjmp/longjmp, logging.
- The request line parser, static files and routing: they would add string handling of the kind already shown.
- Destructors and freeing of memory.
- DirectoryTree.StepKeepsInvIff: paths that climb out of the upload directory are excluded by a condition on their components; what lies above it, and the removal of the upload directory itself, are not modelled.
- Symbolic links.
