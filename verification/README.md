# Proofs about the HiBy R1 custom firmware tools

This project models, in Dafny, the parts of the R1 repository where a mistake costs data or a device, and proves what
they are for. `dafny verify dfyconfig.toml` checks all of it.

## What is modelled

**The microSD file service** (`r1-filectl`) and the Android client that drives it. `Tree` is the card: a map from paths
to directories, files and links. `Syscalls.Card` is an object with one method per system call; each call either makes
one change or fails, a failure that has nothing to do with the tree is counted in `faults`, and every tree that existed
after a call is appended to `log`. A crash state of a command is therefore one of the trees in `log`, and the contracts
of the commands speak about all of them. `Base64`, `Paths`, `Metadata`, `Numbers` and `Planner` are the texts that
travel between client and service; `Directories`, `Policies`, `Deletion`, `Mutators`, `TrashCan` and `Uploads` are the
commands; `Client` is the upload as the client runs it; `Runs` is any run of commands with a power loss after any call.

- The copies of a content are counted over user tree, trash and staging (`Tree.Copies`); "nothing is lost" means that no
  count goes down. The records of the service itself, `.r1-manager/<area>/<id>/metadata`, are not counted.
- One process changes the card at a time, which is what the lock in `context_open` is for. The tree is case-sensitive
  and has no hard links and no other kinds of entry. `payload.part` is a regular file.
- `join_path` runs after the move in `rename`, `move` and `upload-commit`, so these commands can report an error after
  they did their work; the contracts say so instead of excluding long paths.
- `valid_new_name` allows the name `.r1-manager`, and `move` can carry an entry of that name to the root, so a directory
  of the user can become the private directory while there is none. `Mutators.RenameToPrivate` says exactly when this
  costs a content; `Runs.Conserving` asks of each rename and move, in the state that it meets, that it is not that case.
- Sanitizing a tag twice is not always sanitizing it once: the cut at 180 units can leave a space or a dot at the end.
  `Planner.SanitizedTwice` is the exact condition and `Planner.SanitizedTwiceCanDiffer` a tag that shows it.
- The encoding of a Kotlin string replaces each unpaired surrogate by "?". What `statvfs` reports and the length of the
  root path of the card are parameters of `Uploads.Prepare`. The size that a client announces is not negative.

**The firmware containers** (`r1fw.py`, `genisoimage_compat.py`). `IsoScan` is the walk over ISO 9660 directories, Rock
Ridge System Use areas and their continuations as a function that collects the bytes it reads as structure, the
timestamp fields it would write and whether it fails; it ends on every image because each directory and each
continuation is entered once. `IsoReach` defines what can be reached from the root directory without the order of a
walk, as least fixpoints, and proves that a scan without an error finds exactly that. `IsoNormalize` is the walk as it is written, over an array that it overwrites while it
reads. The two agree when no byte of the structure lies in a timestamp field (`Clean`), and `IsoStamps` proves from that
that normalizing removes every difference and does nothing the second time. `OtaChunks`, `OtaMetadata`, `Ota` and
`OtaRoundTrip` are the chunked images with their digest chain; the digest is any function to 32 hexadecimal digits.

**The hand-over of display and touch** (`r1_cfw_hook.c`, `fbshim.c`, `r1_cfw_platform.c`, `bridge.py`). `VirtualDisplay`
and `InputGrab` are transition systems with proofs over every schedule of their steps, `Callback` is the callback with
its descriptors, open file descriptions and grabs, `Touch` the encoder and the decoder of touches, `DmaCopy` the row
copier.

- Capturing the frame and beginning the virtual display are one step, with no forwarded pan between them. What other
  threads of the player ask until the display ends is a schedule for each of three stretches; what they draw, they have
  drawn before the frame is restored.
- As on the card, a call of the callback that fails for no reason in the state is counted in `Process.faults`; what the
  callback comes to when none fails is stated exactly. Devices, their names and axes, the geometry of the frame buffer,
  the listings of `/proc/self/fd` and the end of the sidecar are parameters.
- That no gesture is replayed is not true of every run of the shim. `InputGrab.Disciplined` is the condition under which
  a close or a release does no harm, `DisciplinedIffNothingIsReplayed` proves that it is exact, and
  `CloseReplays`, `HalfOpenReplays` and `LateArrivalReplays` are three runs that break it.

**Generated code and layouts** (`patch_r1_ssh_toggle.py`, `patch_r1_launcher.py`, `r1ui.py`). `Mips` is a machine with
branch delay slots, the eight instructions that the patch emits, and callees that answer in any way that keeps the saved
registers. `SshToggle` builds the cave and applies the patches, and `SshHooks` runs the stock code and the patched code
side by side. `Json`, `LayoutText`, `Layout`, `LayoutReader` and `LayoutRoundTrip` print a layout and read it again, with
repeated keys, surplus braces and both line endings.

- A string can hold one character as two surrogates; JSON joins them. `LayoutRoundTrip.LayoutComesBack` says what is
  read back then, and that it is the printed tree exactly if there is no such character.

Shifts and masks of the sources are written as divisions and remainders by powers of two. Where C wraps around, the
model says so. `Spelling` states the words, names and texts that other programs read letter by letter. Every induction
is written out: lemmas for which Dafny would add a hypothesis by itself carry `{:induction false}`.

## Model

| member | source | states |
|---|---|---|
| Base64.Decode | mods/r1-filectl/src/r1_filectl.c:145-178 | the accumulator loop, whose 32-bit accumulator wraps around, returns for every C string the eight-bit cut at each byte position of its sextets, or the error for a bad character, an over-long text or a decoded NUL |
| Base64.AccumulatorStep | mods/r1-filectl/src/r1_filectl.c:154-167 | a wrapped accumulator still carries the bits that a later byte is taken from |
| Base64.Encode | mods/r1-filectl/src/r1_filectl.c:180-210 | the three-byte loop returns the unpadded text whose characters are the consecutive six-bit cuts of the value |
| Base64.DecodedEncoded | mods/r1-filectl/src/r1_filectl.c:145-210 | the decoder inverts the C encoder and `Protocol.encode` on every value: it gives the value back, refuses it when it holds a NUL, and refuses it for its length, and nothing else happens |
| Base64.ReencodedAccepted | mods/r1-filectl/src/r1_filectl.c:145-210 | an accepted text is the encoding of its own value exactly when it uses the url-safe alphabet and its length is not 1 modulo 4 |
| Spelling.AlphabetIsSpelled | mods/r1-filectl/src/r1_filectl.c:180-210 | the characters that are written, in order |
| Spelling.ReadableIsSpelled | mods/r1-filectl/src/r1_filectl.c:136-143 | read are exactly these and "+" and "/"; "-" alone stands for nothing |
| Numbers.ParseDecimal | mods/r1-filectl/src/r1_filectl.c:1075-1083 | every 64-bit size that printf writes is read back by `parse_size` |
| Numbers.NumeralIsRead | mods/r1-filectl/src/r1_filectl.c:1075-1083 | what strtoull takes for a number is read as its value, modulo two to the 64 after a minus sign, unless it does not fit |
| Numbers.OnlyNumeralsAreRead | mods/r1-filectl/src/r1_filectl.c:1075-1083 | nothing else is accepted, but for the empty text |
| Paths.ValidRelative | mods/r1-filectl/src/r1_filectl.c:217-240 | the one-pass scan accepts exactly the paths whose split at "/" meets the rule, and reports EPERM only for the private first name |
| Paths.NextComponent | mods/r1-filectl/src/r1_filectl.c:310-319 | one step of the walk: the name up to the next slash and the place behind it, or an error that leaves the cursor |
| Paths.Walk | mods/r1-filectl/src/r1_filectl.c:321-337 | on an accepted path the component walk visits exactly the split, and fails exactly when some name is longer than NAME_MAX |
| Paths.SplitParent | mods/r1-filectl/src/r1_filectl.c:339-350 | the text before and behind the last slash, or an error when one of the buffers is too small or the leaf is empty |
| Paths.ParentAndLeaf | mods/r1-filectl/src/r1_filectl.c:339-350 | on an accepted path parent and leaf are the split without and with only its last name, and `join_path` puts the path together again |
| Metadata.MetadataField | mods/r1-filectl/src/r1_filectl.c:602-618 | the strtok_r loop returns the value of the first line with the key, if it fits |
| Metadata.RecordReadsBack | mods/r1-filectl/src/r1_filectl.c:588-631 | a written record fits the reading buffer and gives back its path, its size and its policy, for every acceptable path up to 4095 bytes and every 64-bit size |
| Spelling.RecordIsSpelled | mods/r1-filectl/src/r1_filectl.c:588-600 | the text of a record, letter by letter |
| Spelling.WordsAreSpelled | mods/r1-filectl/src/r1_filectl.c:466-505 | the words for policies and modes, and the names in the private directory |
| Planner.Utf8IsRead | android/r1-manager/app/src/main/java/com/arfipod/r1manager/util/Protocol.kt:7-11 | the bytes of a Kotlin string, read as UTF-8, are its characters, with a question mark for each surrogate without a partner |
| Planner.SanitizeIsClean | android/r1-manager/app/src/main/java/com/arfipod/r1manager/util/MetadataPlanner.kt:13-19 | a sanitized tag is never empty, never dots only, and holds neither slash nor NUL, whatever the tag was |
| Planner.TidyStays | android/r1-manager/app/src/main/java/com/arfipod/r1manager/util/MetadataPlanner.kt:13-19 | a tag of at most 180 units without forbidden characters, doubled or odd white space and edges to trim is kept as it is, whatever the fallback |
| Planner.FallbackExactly | android/r1-manager/app/src/main/java/com/arfipod/r1manager/util/MetadataPlanner.kt:13-19 | the fallback is taken exactly when the tag is missing or has nothing but forbidden characters, white space and dots; otherwise it has no influence |
| Planner.SanitizedTwice | android/r1-manager/app/src/main/java/com/arfipod/r1manager/util/MetadataPlanner.kt:13-19 | sanitizing twice is sanitizing once exactly when the cut at 180 units leaves no space or dot behind |
| Planner.SanitizedTwiceCanDiffer | android/r1-manager/app/src/main/java/com/arfipod/r1manager/util/MetadataPlanner.kt:13-19 | a tag of 181 units that is shorter when it has been sanitized twice |
| Planner.DestinationFollowsTags | android/r1-manager/app/src/main/java/com/arfipod/r1manager/util/MetadataPlanner.kt:21-44 | for tidy tags the split of the destination is the names of the music root, the album artist or else the artist, the album, and the numbered title with the extension, in this order |
| Spelling.FallbacksAreSpelled | android/r1-manager/app/src/main/java/com/arfipod/r1manager/util/MetadataPlanner.kt:30-41 | the names that stand in for missing tags |
| Planner.ExtensionDefaults | android/r1-manager/app/src/main/java/com/arfipod/r1manager/util/MetadataPlanner.kt:36-39 | an extension without letters and digits becomes "mp3" |
| Planner.DestinationAccepted | android/r1-manager/app/src/main/java/com/arfipod/r1manager/util/MetadataPlanner.kt:21-44 | a planned destination is accepted and decoded to the very path that was planned exactly when the music root is acceptable and the path has at most 4095 bytes, for any tags |
| Tree.RenamedIsWellFormed | mods/r1-filectl/src/r1_filectl.c:429-441 | a rename that the kernel may grant keeps the tree a tree |
| Tree.RenamedMovesTree | mods/r1-filectl/src/r1_filectl.c:429-441 | everything below the source is found again below the target |
| Tree.TransferLosesNothing | mods/r1-filectl/src/r1_filectl.c:845-879 | moving a subtree to a place where nothing was loses no copy of any content |
| Tree.RenamedLosesNothing | mods/r1-filectl/src/r1_filectl.c:429-441 | a rename to a free name loses no copy of any content |
| Syscalls.Card.Renameat | mods/r1-filectl/src/r1_filectl.c:429-441 | one atomic step to the renamed tree, or no change; why it can fail, and that it does fail for no other reason when the device does not |
| Syscalls.Card.RenameNoreplace | mods/r1-filectl/src/r1_filectl.c:429-441 | with or without renameat2, a success never replaces an entry and a failure changes nothing |
| Directories.OpenDirectory | mods/r1-filectl/src/r1_filectl.c:321-337 | success means a directory; on a sound device a directory opens, a missing one is ENOENT and something else on the way ENOTDIR |
| Directories.EnsureDirectory | mods/r1-filectl/src/r1_filectl.c:359-378 | at every system call only directories on the way were added; with a sound device it succeeds whenever nothing is in the way |
| Directories.WriteText | mods/r1-filectl/src/r1_filectl.c:562-573 | all of the text in a new file; at every moment no other entry changes; one failure leaves no part of a file behind |
| Policies.ChooseKeepName | mods/r1-filectl/src/r1_filectl.c:443-464 | the chosen name is free; it is the requested one, or the requested one with " (n)" for an n from 2 to 9999 before its last dot, or behind it if there is none but at the start; with a sound device it is the choice of the rule |
| Policies.ChoiceIsLeast | mods/r1-filectl/src/r1_filectl.c:443-464 | the choice is the least-numbered free candidate, and there is none exactly if no candidate is free |
| Policies.CandidatesDiffer | mods/r1-filectl/src/r1_filectl.c:451-462 | the numbered candidates are pairwise different |
| Policies.CandidateIsKept | mods/r1-filectl/src/r1_filectl.c:451-462 | every numbered candidate has its number in this place |
| Policies.KeepSucceeds | mods/r1-filectl/src/r1_filectl.c:443-464 | by the pigeonhole principle a free name is found in every directory of fewer than 9999 entries, for names that leave room for the number |
| Policies.MoveWithPolicy | mods/r1-filectl/src/r1_filectl.c:466-505 | under each of the four policies: what moved and to which name, under "keep" with the number before the extension, that nothing is replaced except under "replace", that a skip or an error changes nothing, and when it succeeds |
| TrashCan.MakeItem | mods/r1-filectl/src/r1_filectl.c:906-924 | up to the new item directory only the way to it appears |
| TrashCan.FillAndMove | mods/r1-filectl/src/r1_filectl.c:925-944 | writing the record and moving the item, or the rollback: the item is at all times whole in one of its two places |
| TrashCan.TrashItem | mods/r1-filectl/src/r1_filectl.c:906-945 | at every system call the item is whole at home, or whole in trash beside a record that names its home; when it succeeds, when it fails, and when the rollback is complete |
| TrashCan.RestoreItem | mods/r1-filectl/src/r1_filectl.c:1000-1026 | at every system call the item is whole in trash beside its record, or whole at home; an unusable record changes nothing, and with a sound device a restorable item is restored |
| TrashCan.TrashedIsRestorable | mods/r1-filectl/src/r1_filectl.c:906-945 | an item that any interrupted trash run has taken away can be restored |
| TrashCan.RestoreCanGoOn | mods/r1-filectl/src/r1_filectl.c:1000-1026 | an interrupted restore has brought the item back or leaves it so that it can be restored |
| TrashCan.TrashThenRestore | mods/r1-filectl/src/r1_filectl.c:1000-1026 | a completed trash and a completed restore give back the same user tree, entry by entry |
| TrashCan.TrashLosesNothing | mods/r1-filectl/src/r1_filectl.c:906-945 | no content loses a copy at any moment of a trash run |
| TrashCan.RestoreLosesNothing | mods/r1-filectl/src/r1_filectl.c:1000-1026 | no content loses a copy at any moment of a restore run |
| Deletion.RemoveAt | mods/r1-filectl/src/r1_filectl.c:507-533 | recursive removal ends, takes away entries at or below its path only and at every moment only such, leaves none of them on success, and does not follow links |
| Deletion.Delete | mods/r1-filectl/src/r1_filectl.c:881-904 | the tree without the subtree on success, in mode "empty" only if there was nothing below; refused arguments change nothing |
| Deletion.RemovePrivateItem | mods/r1-filectl/src/r1_filectl.c:1028-1045 | purge and cancel take away exactly the directory of that identifier |
| Deletion.EmptyTrash | mods/r1-filectl/src/r1_filectl.c:1047-1073 | only entries of trash go; the report says how many items went, also when a listing that broke off made it end early; when no call failed no item with a valid identifier is left, and it succeeds exactly if nothing stands in the way of the trash directory |
| Mutators.MakeDirectory | mods/r1-filectl/src/r1_filectl.c:786-811 | one new directory or no change; no content is lost and the private directory is untouched; on a sound device it succeeds exactly if the parent is a directory, the name is free and the new path fits |
| Mutators.Rename | mods/r1-filectl/src/r1_filectl.c:813-843 | one move to a name that was free or no change, although the command can report an error after the move; a content is lost exactly if the entry becomes the private directory and looks like it; when it succeeds on a sound device, exactly |
| Mutators.UserRenameLoss | mods/r1-filectl/src/r1_filectl.c:429-441 | moving an entry of the user to a free place loses a content exactly if it becomes the private directory and a file below it takes the place of a record |
| Mutators.RenameToPrivate | mods/r1-filectl/src/r1_filectl.c:242-253 | giving an entry of the root the private name keeps every content exactly when nothing below it looks like a record of the service |
| Mutators.RenameToPrivateCanLose | mods/r1-filectl/src/r1_filectl.c:242-253 | a concrete tree for which that renaming makes a user file count as a record |
| Mutators.Move | mods/r1-filectl/src/r1_filectl.c:845-879 | one move as the policy dictates or no change, also when an error is reported after the move; under "keep" to the requested name or that with a number before its extension; outside "replace" a content is lost exactly if the entry becomes the private directory and looks like it; what it comes to on a sound device, exactly |
| Uploads.Prepare | mods/r1-filectl/src/r1_filectl.c:1085-1140 | outside its own staging directory only ways appear; on success the record and an empty payload are staged; with at most one failing call a failed preparation leaves no staging directory |
| Uploads.UploadStatus | mods/r1-filectl/src/r1_filectl.c:1152-1177 | the number of bytes received and what the record says, without any change |
| Uploads.CheckUpload | mods/r1-filectl/src/r1_filectl.c:1179-1203 | goes on to the move only for a payload of the recorded size |
| Uploads.Deliver | mods/r1-filectl/src/r1_filectl.c:1204-1214 | the payload is still in staging and the destination as before, or it is at the place that the policy allows, whole |
| Uploads.Finish | mods/r1-filectl/src/r1_filectl.c:1215-1228 | what is taken out of staging after the move does not touch what the move did |
| Uploads.Commit | mods/r1-filectl/src/r1_filectl.c:1179-1229 | at every system call the destination is as it was, or holds exactly the payload as the policy dictates, under "keep" at the requested name or at that with a number before its extension; a success leaves no staging entry; an incomplete payload changes nothing; when a commit succeeds |
| Uploads.CommitLosesNothing | mods/r1-filectl/src/r1_filectl.c:1179-1229 | under "fail" and "keep" no content loses a copy at any moment of a commit |
| Uploads.PrepareLosesNothing | mods/r1-filectl/src/r1_filectl.c:1085-1140 | nor at any moment of a preparation |
| Client.Send | android/r1-manager/app/src/main/java/com/arfipod/r1manager/ssh/SshTransport.kt:156-168 | the staged payload is at every moment a prefix of the source, and all of it, of the announced size, when the sending succeeds |
| Client.Upload | android/r1-manager/app/src/main/java/com/arfipod/r1manager/data/R1Repository.kt:15-34 | prepare, send, check, commit and cancel on error: at every moment of an upload that fails anywhere, the destination is as it was apart from new parent directories, or holds exactly the bytes of the source as its policy dictates; when nothing fails on its own, it succeeds if there is room, a way to the destination and a place that the policy allows |
| Runs.Perform | mods/r1-filectl/src/r1_filectl.c:1257-1279 | one command keeps what the whole run keeps, at each of its system calls |
| Runs.Run | mods/r1-filectl/src/r1_filectl.c:1257-1279 | from any card and over every run of commands, each of which may be cut short after any system call: without delete, purge, empty-trash, cancel, the replacing and skipping policies and a rename or move that makes a directory with the layout of the private directory into it, no content loses a copy; and an item in trash that no command names stays as it is beside its record |
| IsoScan.ScanLocal | tools/r1fw.py:72-198 | the walk depends on nothing but the bytes that it takes as structure |
| IsoScan.VolumeIsClean | tools/genisoimage_compat.py:69-98 | the dates of a volume descriptor are never among the bytes that the descriptor loop reads |
| IsoReach.ScanFindsAll | tools/r1fw.py:91-198 | a scan without an error has visited exactly the directories that can be reached from the root directory of the first primary descriptor over records with the directory flag, exactly the continuations that CE entries in their records or in other such continuations name, and has found exactly the TF entries in all of these |
| IsoReach.ScanReachesAll | tools/r1fw.py:112-126 | the fields to be written are exactly the timestamps of these entries |
| IsoReach.VolumeFindsAll | tools/genisoimage_compat.py:69-98 | the pass over the descriptors succeeds exactly if all are valid up to a terminator and one of them is primary or supplementary, and then it has found exactly the three dates of each of these |
| IsoNormalize.Walker.NormalizeTf | tools/r1fw.py:112-126 | the in-place stamping of one TF entry: exactly the timestamps that its flags announce, inside the entry and inside the area, or an error that writes nothing; with clean fields it is the recorded stamping |
| IsoNormalize.Walker.NormalizeSusp | tools/r1fw.py:128-157 | a System Use area and its continuations, each continuation once: it ends on every image, cycles included, and every field that it adds is a TF entry of a System Use area that was noted |
| IsoNormalize.Walker.VisitRecord | tools/r1fw.py:171-195 | one directory record: its System Use area and the directory that it names |
| IsoNormalize.Walker.VisitChild | tools/r1fw.py:186-194 | the directory that a record names, if it is one and not the entry for itself or its parent; with clean fields what the scan of the record does |
| IsoNormalize.Walker.VisitDirectory | tools/r1fw.py:159-196 | a directory and those below it, each once: it ends on every image, loops included |
| IsoNormalize.NormalizeRockRidge | tools/r1fw.py:72-217 | on every image the walk ends, stays in bounds, keeps the length and changes only bytes inside the timestamps of entries that were TF entries when it came to them, at most seven each and inside the length that the entry gave; with clean fields it does what a scan of the untouched image says, and without an error it writes exactly the TF entries that can be reached from the root directory |
| IsoNormalize.NormalizeVolume | tools/genisoimage_compat.py:69-98 | on every image the descriptor loop writes the dates that a scan of the untouched image finds |
| IsoNormalize.NormalizeFile | tools/genisoimage_compat.py:69-109 | on every file the two passes write descriptor dates and then timestamps of TF entries and nothing else, or report an error; with clean fields the result is the declared normalization, and without an error every TF entry that can be reached is in it |
| IsoStamps.RockRidgeAgrees | tools/r1fw.py:72-217 | two images that differ in TF fields only come out as the same image |
| IsoStamps.NormalizedAtOnce | tools/r1fw.py:72-217 | both passes together are one stamping of all fields |
| IsoStamps.NormalizedAgrees | tools/genisoimage_compat.py:69-109 | two images that differ in descriptor dates and TF fields only normalize to the same image |
| IsoStamps.NormalizedIsFixed | tools/genisoimage_compat.py:69-109 | normalizing a second time changes nothing |
| OtaChunks.SplitImage | tools/r1fw.py:388-402 | the chunk files, each named after the digest before it, the manifest, the size and the digest |
| OtaChunks.PaddedIndex | tools/r1fw.py:396 | an index is printed with four digits exactly if it is below 10000 |
| OtaChunks.ChunkNameParses | tools/r1fw.py:293-303 | a chunk name with such an index is read back to image, index and digest |
| OtaChunks.LongIndexIsNoChunk | tools/r1fw.py:293-303 | from index 10000 on a chunk is not found again |
| OtaChunks.OnlyChunkNamesParse | tools/r1fw.py:25-25 | only chunk names with four digits are chunk names, with or without a line feed at the end |
| Spelling.NamesAreSpelled | tools/r1fw.py:386-392 | the names of the files of an update |
| OtaChunks.FindImages | tools/r1fw.py:293-303 | the chunks of every image, sorted by index, for any listing |
| OtaChunks.RebuildImage | tools/r1fw.py:306-350 | the image exactly if indexes, digest chain and manifest fit, and then the concatenation of the chunks |
| OtaChunks.SameManifestSameBytes | tools/r1fw.py:306-350 | two directories accepted with the same manifest hold the same chunks, or two different chunks with the same digest |
| OtaMetadata.ParseOtaMetadata | tools/r1fw.py:353-385 | the line loop is the fold of what one line does, and reads from any printed text exactly the entries that were printed |
| OtaMetadata.PrintedParses | tools/r1fw.py:353-438 | the printed metadata is read back to exactly the entries that were printed |
| Spelling.UpdateIsSpelled | tools/r1fw.py:412-432 | the lines that the updater of the device is given |
| OtaRoundTrip.PrepareTree | tools/r1fw.py:405-438 | the files of an update directory, which in any listing order unpack to the same two images exactly if both have 1 byte to 10000 times 512 KiB |
| Ota.Unpack | tools/r1fw.py:512-542 | unpacking succeeds exactly if every image is accepted and agrees with the metadata, and returns the rebuilt images |
| OtaRoundTrip.FewPieces | tools/r1fw.py:388-402 | at most 10000 chunks are at most 10000 times 512 KiB |
| OtaRoundTrip.OneImage | tools/r1fw.py:293-350 | an image is found exactly if it is not empty, accepted exactly if it has at most 10000 chunks, and then rebuilt as it was |
| OtaRoundTrip.PackThenUnpack | tools/r1fw.py:405-542 | whatever the digest and the order of the listing, unpacking a packed pair succeeds exactly for images of 1 byte to 10000 times 512 KiB and gives both back |
| VirtualDisplay.Hook.Begin | mods/cfw-ui/src/r1_cfw_hook.c:149-157 | the player sees the same panel before and after |
| VirtualDisplay.Hook.Finish | mods/cfw-ui/src/r1_cfw_hook.c:159-173 | the panel stands where the player saw it, or at the snapshot if no display was active |
| VirtualDisplay.Hook.Filter | mods/cfw-ui/src/r1_cfw_hook.c:175-219 | while active, exactly the answer and the offset of a panel of its own, and the panel is not touched |
| VirtualDisplay.Hook.Forward | mods/cfw-ui/src/r1_cfw_hook.c:125-132 | otherwise the panel itself answers |
| VirtualDisplay.Run | mods/cfw-ui/src/r1_cfw_hook.c:149-226 | over every interleaving of player threads, sidecar, begin and finish the player gets the answers and offsets of a panel without a sidecar, each thread all of its requests in its order but for one on its way; while the display is virtual the panel itself stands where the sidecar last put it since the begin, and afterwards at the player's last accepted pan, or where it stood |
| VirtualDisplay.ProgramOrder | mods/cfw-ui/src/r1_cfw_hook.c:222-226 | the requests of a thread that were served, and the one on its way, are the requests that it made, in order |
| VirtualDisplay.ServedAsAlone | mods/cfw-ui/src/r1_cfw_hook.c:175-226 | all requests in the order of service get the answers of a panel that nobody else uses |
| InputGrab.Shim.RecordOpen | tools/r1-qemu-ui/fbshim.c:485-501 | an endpoint joins the known descriptors unless all slots are taken |
| InputGrab.Shim.Close | tools/r1-qemu-ui/fbshim.c:694-710 | a descriptor goes, and the grab with it without any flush |
| InputGrab.Shim.Read | tools/r1-qemu-ui/fbshim.c:788-824 | reading takes events out and hides them from everybody but the owner of the grab |
| InputGrab.Shim.Grab | tools/r1-qemu-ui/fbshim.c:973-990 | one owner at a time |
| InputGrab.Shim.FlushInputQueues | tools/r1-qemu-ui/fbshim.c:868-881 | every known queue is drained in the order of the slots, and what arrives in a queue behind its drain, or in one that is not known, is exactly what is left |
| InputGrab.Shim.Release | tools/r1-qemu-ui/fbshim.c:990-1003 | the owner drains all queues and gives the grab up |
| InputGrab.Run | tools/r1-qemu-ui/fbshim.c:485-1003 | any run of the shim is a run of the state machine, delivery by delivery |
| InputGrab.DrainedIsQuiet | tools/r1-qemu-ui/fbshim.c:868-881 | a release leaves no event of its owner in a queue exactly if the queue is drained after all that arrives in it, or is not drained and holds and gets none |
| InputGrab.CloseSettles | tools/r1-qemu-ui/fbshim.c:694-710 | a close keeps everything settled exactly if the descriptor has no grab, or no other queue holds an event from under it |
| InputGrab.ReleaseSettles | tools/r1-qemu-ui/fbshim.c:990-1003 | a release keeps everything settled exactly if every other queue is quiet around it |
| InputGrab.SettledIffDisciplined | tools/r1-qemu-ui/fbshim.c:788-1003 | a run stays settled throughout exactly if each of its closes and releases meets that condition |
| InputGrab.NothingIsReplayed | tools/r1-qemu-ui/fbshim.c:788-1003 | over every such run an event that is delivered was written while nobody or the same descriptor held the grab |
| InputGrab.DisciplinedIffNothingIsReplayed | tools/r1-qemu-ui/fbshim.c:694-1003 | exactly the disciplined closes and releases are harmless: after any other step some disciplined run delivers an event that was written under the grab of another descriptor |
| InputGrab.UnsettledIsReplayed | tools/r1-qemu-ui/fbshim.c:788-808 | an unsettled event of a known descriptor is delivered to it by its next read when nobody holds the grab |
| InputGrab.CloseReplays | tools/r1-qemu-ui/fbshim.c:694-710 | an owner that closes without releasing: a gesture made under its grab is replayed |
| InputGrab.HalfOpenReplays | tools/r1-qemu-ui/fbshim.c:485-533 | an endpoint that is recorded only after the release: likewise |
| InputGrab.LateArrivalReplays | tools/r1-qemu-ui/fbshim.c:868-881 | an event that arrives behind the drain of its queue: likewise |
| Callback.Process.TransferStockGrab | mods/cfw-ui/src/r1_cfw_hook.c:420-456 | for any listing of /proc/self/fd the grab moves to the fresh description and a duplicate of the old one is kept, or nothing changes; unless a call fails it moves exactly if the listing has a descriptor of the description that holds it |
| Callback.Process.FindTouchDevice | mods/cfw-ui/src/r1_cfw_hook.c:473-506 | one new descriptor of a touch screen, or the descriptors as before; unless a call fails it is the first of eight devices with the name of the R1 touch screen, else the second if it has touch axes, and none exactly if there is neither |
| Callback.Process.AcquireTouch | mods/cfw-ui/src/r1_cfw_hook.c:508-528 | the touch screen is taken from nobody or from this process, or nothing changes; unless a call fails it is taken exactly if there is one and its grab is free or held by a listed descriptor of this process |
| Callback.Process.ReleaseTouch | mods/cfw-ui/src/r1_cfw_hook.c:530-541 | descriptors and grabs are again what they were before the acquisition |
| Callback.Process.Capture | mods/cfw-ui/src/r1_cfw_hook.c:543-578 | a copy of the frame, or no mapping left behind; unless a call fails a copy exactly of a frame buffer with the geometry that the sidecar draws on |
| Callback.Process.Restore | mods/cfw-ui/src/r1_cfw_hook.c:580-591 | the frame of the snapshot, and the page that the player believes to show |
| Callback.Process.LaunchUi | mods/cfw-ui/src/r1_cfw_hook.c:601-707 | whatever fails, descriptors and grabs are as before, and while a sidecar runs the player is answered as by a display of its own; the sidecar starts with the two descriptors and none of the others that it found; unless a call fails it starts, and its exit status is the result exactly if it exited with one other than 127 |
| Callback.ChildDescriptors | mods/cfw-ui/src/r1_cfw_hook.c:383-418 | of the descriptors that the child lists it keeps the standard streams and its two arguments |
| Callback.Process.RunChild | mods/cfw-ui/src/r1_cfw_hook.c:728-738 | either duplicate or the launch can fail; nothing but the duplicates is left open, and the grabs are as before; unless a call fails the sidecar gets duplicates of the frame buffer and of the touch screen |
| Callback.Process.CleanUp | mods/cfw-ui/src/r1_cfw_hook.c:742-746 | whatever was acquired and duplicated, descriptors and grabs are those from before, without the frame buffer |
| Callback.Process.CfwCallback | mods/cfw-ui/src/r1_cfw_hook.c:709-748 | whatever acquisition or launch call fails, afterwards no display is virtual, frame, mappings, descriptors and every grab are as at entry; what the threads of the player ask before, during and after the sidecar, or without any, is answered as by a display of their own, and the panel stands where that leaves it; a sidecar has the frame buffer and the description that holds the grab of a touch screen; unless a call fails and unless a callback is active it runs exactly if the frame buffer can be drawn on and the touch screen can be had, and the stock route is taken exactly if it then exits with 21 or 22 |
| Touch.UnpackPack | tools/r1-qemu-ui/bridge.py:80-81 | the 16 bytes of an event are read back |
| Touch.FeedAppend | mods/cfw-ui/src/r1_cfw_platform.c:201-257 | how events are split across calls does not matter |
| Touch.Decoder.TouchRead | mods/cfw-ui/src/r1_cfw_platform.c:201-257 | one call goes through the queued events up to the first gesture |
| Touch.Decode | mods/cfw-ui/src/r1_cfw_platform.c:201-257 | over events in any portions and any number of calls after each: the gestures are those of the whole sequence, one for each touch of the bridge |
| Touch.StrokesDecoded | tools/r1-qemu-ui/bridge.py:84-111 | any sequence of encoded touches yields exactly one gesture per touch, in order: a tap exactly if no reported point is more than 16 away on an axis, at the last reported position |
| DmaCopy.CopyDmaRows | tools/r1-qemu-ui/fbshim.c:745-768 | for any signed strides exactly the rows before the first one out of range are copied, and it succeeds exactly if there is none; no access is out of bounds |
| DmaCopy.CopiedInRow | tools/r1-qemu-ui/fbshim.c:745-768 | with a destination stride of at least a row in magnitude each byte of a row is that of its source row |
| DmaCopy.CopiedOutside | tools/r1-qemu-ui/fbshim.c:745-768 | bytes in no row are as before, whatever the strides |
| Mips.EncodersDecode | tools/patch_r1_ssh_toggle.py:82-136 | every encoder writes the instruction that it is named after, with its fields |
| Mips.LoadAddress | tools/patch_r1_ssh_toggle.py:139-143 | LUI and ADDIU put every 32-bit address together |
| SshToggle.PlaceStep | tools/patch_r1_ssh_toggle.py:241-248 | the check of one more piece accepts exactly those that fit beside the others, and placing it keeps the others |
| SshToggle.BuildCave | tools/patch_r1_ssh_toggle.py:237-278 | for any pieces: a cave with all of them in place and zeros elsewhere, exactly if they fit and do not overlap |
| SshToggle.PiecesArePlaceable | tools/patch_r1_ssh_toggle.py:249-278 | the eight pieces of the patch do |
| SshToggle.KeySetupWords | tools/patch_r1_ssh_toggle.py:152-166 | the words of the key setup |
| SshToggle.StateHookWords | tools/patch_r1_ssh_toggle.py:169-198 | the words of the state hook, with every register, immediate and target |
| SshToggle.ClickHookWords | tools/patch_r1_ssh_toggle.py:201-234 | the words of the click hook, with every register, immediate and target |
| SshToggle.RangesAreValid | tools/patch_r1_ssh_toggle.py:289-327 | the four patches keep their sizes and do not overlap |
| SshToggle.ApplyBinaryPatch | tools/patch_r1_ssh_toggle.py:333-355 | all patches and no other byte, exactly if every preimage is there |
| SshToggle.VerifyBinaryPatch | tools/patch_r1_ssh_toggle.py:358-371 | accepts exactly the data that holds every patched range |
| SshToggle.AppliedOnce | tools/patch_r1_ssh_toggle.py:333-371 | what was patched is verified, and cannot be patched again |
| SshHooks.StockSites | tools/patch_r1_ssh_toggle.py:289-307 | the two sites of the stock binary are the branches on v0 that the hooks replace |
| SshHooks.PatchedSites | tools/patch_r1_ssh_toggle.py:289-313 | the two sites of the patched binary jump into hooks that are in the cave |
| SshHooks.Strings | tools/patch_r1_ssh_toggle.py:260-276 | in the patched binary the third key of the row loop is "ssh_server", the wide key is the same in UTF-16LE, and the marker path and the toggle command are spelled out, each up to its first zero |
| SshHooks.StateHook | tools/patch_r1_ssh_toggle.py:169-198 | for every machine state and any behaviour of the callees: identical registers when v0 is 0; otherwise the key is compared with the UTF-16LE text of the third key of the row loop, with the same continuation for another key, and for this one v0 = 1 exactly if access to the marker path returned 0, on a machine with delay slots |
| SshHooks.ClickHook | tools/patch_r1_ssh_toggle.py:201-234 | likewise, and for this key exactly one call of system with the toggle command and one refresh before the common epilogue |
| SshHooks.KeySetup | tools/patch_r1_ssh_toggle.py:152-166 | the row loop is reached with the bounds of the three keys that the cave holds, the third spelled "ssh_server" |
| Json.PairedLength | tools/patch_r1_launcher.py:263-264 | a string with a high surrogate before a low one is read shorter than it was written, every other string as it was |
| Json.EscapedScans | tools/patch_r1_launcher.py:263-264 | the scanner reads an escaped string back up to its split characters |
| Json.StringSurvives | tools/patch_r1_launcher.py:263-264 | a string is read back with the halves of each character joined, so it survives exactly if no character of it is split into two surrogates |
| Spelling.EscapesAreSpelled | tools/patch_r1_launcher.py:263-264 | the escapes with a letter |
| Spelling.CodesAreSpelled | tools/patch_r1_launcher.py:263-264 | a control character, a sign beyond ASCII and a character beyond the first plane as their codes |
| LayoutText.ScalarReads | tools/patch_r1_launcher.py:263-264 | every printed scalar is read back, strings up to joined halves |
| LayoutText.ValueReads | tools/patch_r1_launcher.py:263-286 | every printed object is read back, pair by pair and up to joined halves, at its place in any text |
| Layout.SerializeNode | tools/patch_r1_launcher.py:267-286 | the list of lines, with commas put behind the last line of a child, makes the text of the node |
| Layout.Document | tools/patch_r1_launcher.py:289-291 | the text of a document |
| LayoutReader.BuildNode | tools/r1ui.py:142-172 | the loop with its two counters builds the declared node: children in order, one property for each key with its last value, and one warning for every other pair |
| LayoutReader.ParseLayout | tools/r1ui.py:175-204 | the whole reader, with its refusals; every pair of the document is a node, a property or exactly one warning |
| LayoutReader.PropertiesAreDistinct | tools/r1ui.py:142-172 | a node holds one property for each key that occurs outside its children |
| LayoutReader.LastValueWins | tools/r1ui.py:142-172 | and it is the last value |
| LayoutReader.NothingIsSilent | tools/r1ui.py:142-172 | of any layout every pair becomes a child, a property or exactly one warning |
| LayoutReader.NothingIsSilentOnTop | tools/r1ui.py:175-204 | likewise on the top level, where unknown keys are warned about |
| LayoutRoundTrip.NodeComesBack | tools/r1ui.py:142-172 | the pairs of a node build the node again, without a warning |
| LayoutRoundTrip.DocumentIsReadAsText | tools/r1ui.py:175-176 | with either line ending the reader sees the same text |
| LayoutRoundTrip.PairsComeBack | tools/r1ui.py:104-129 | behind a document nothing but closing braces is taken, with one warning; its pairs come back up to joined halves |
| LayoutRoundTrip.LayoutComesBack | tools/patch_r1_launcher.py:263-291 | a printed layout is read back exactly if only braces follow it, as the tree with the halves of each character joined; it is the printed tree exactly if no key and no string has a character split into two surrogates |
| LayoutRoundTrip.SoundExactlyStays | tools/patch_r1_launcher.py:263-264 | joining leaves a tree as it is exactly if no key and no string of it has a split character |
| LayoutRoundTrip.SurplusBracesOnlyWarn | tools/r1ui.py:104-129 | any number of surplus braces changes nothing but one warning, whatever the tree |

## Left out

- The listing and status commands of the service (`list`, `stat`, `health`, `trash-list`) and its JSON output: they read only.
- `fsync`, permissions, owners and times of entries; a call that has returned is taken to be on the card.
- SSH sessions and the framing of SCP: the device receives some prefix of what was written.
- The directory of a download on the Android side, and the rest of the client and its screens.
- The date arithmetic behind the ISO timestamps: the two texts are parameters of the right length.
- Writing the normalized image to a temporary file and moving it over the old one: the result is a value.
- 7z, squashfs and genisoimage runs, uImage headers, splash images and rootfs manifests.
- Digests are uninterpreted. The whole-file SHA-256 checks of the binary patch are not part of this model; they only refuse more.
- OtaChunks.FindImages: decimal digits outside ASCII in a chunk name, and image names with pattern characters of `glob`, are not modelled.
- OtaMetadata.ParseOtaMetadata: text outside ASCII and Python's limit on the digits of an integer are not modelled.
- IsoNormalize.Walker.VisitDirectory: Python's recursion limit is not modelled.
- VirtualDisplay.Run: the display begins while no forwarded request is on its way; the requests are page flips and queries; other requests go to the device unfiltered and are not modelled, and the x offset, which the display ignores, is left out.
- InputGrab.NothingIsReplayed: a descriptor made by `dup` is unknown to the shim and bypasses it; only descriptors that were opened occur.
- Callback.Process.CfwCallback: if waiting for the sidecar itself fails, what a sidecar that is still running does afterwards is not modelled; nor is the environment of the child beyond that preparing it can fail. What the player asks before the display begins and after it ends goes to the device itself; only VirtualDisplay.Run covers it.
- Touch.Decoder.TouchRead: differences of coordinates are exact; the 32-bit overflow that extreme events could cause is not modelled. The bridge keeps its points on the panel.
- The signal handlers and the symbol interposition of the shim, and the drawing routines of the sidecar.
- SshHooks.StateHook: the machine has the instructions that the stock sites and the hooks use; memory changes by stores and callees only.
- The contents of the launcher layouts, the masks, the icons and the string tables: finite tables.
- LayoutText.ScalarReads: a float is the text that Python prints for it; that the same float is read from this text is not part of this model. Lists and objects as property values do not occur in printed layouts.
- LayoutReader.ParseLayout: decoding of UTF-8 and Python's recursion limit; the printed text is ASCII.
- The painting of layouts, their linting and the preview server.
- The QEMU validation matrix and its evidence files.
