# Verification of the node control daemon

Dafny models of the stateful parts of a control daemon for a radio node, with proofs
about whole runs, raw bytes and arbitrary failures. Each module follows one part of the
daemon:

- `CText`, `CNumbers`: C strings in the "C" locale, the pieces in which `fgets` reads a
  file, decimal numbers.
- `ConfigLine`, `ConfigText`, `ConfigWrite`, `ConfigExact`, `ConfigFile`, `ConfigPromises`,
  `ConfigRuns`: the key/value store in a text file. `ConfigFile` is the code (buffers cut up
  in place, the copy to a temporary file, the rename); the others say what the text means as
  a map, what is written for keys of every length, exactly on which files that is a map
  update, and what whole runs of calls make of the file.
- `Lengths`, `Frames`, `Upload`: the upload frame byte for byte against a strict decoder,
  partial sends, the handshake with two acknowledgements and its retries, and the flag
  that asks for an upload.
- `SinglyLinkedList`: the generic list on the heap.
- `Heartbeats`, `HeartbeatService`: the bounded table of multicast peers and the timed
  loop around it.
- `AppUpgrade`: backup, replacement and rollback as effects on a map of files.
- `MacHistory`, `AutoJoin`: the poll of the link with its three remembered access points,
  and the watcher and joiner threads interleaved over their locks and conditions.
- `PostBody`: the body of a POST request that arrives in pieces.
- `LogLine`: the line buffer of the logger and the choice of the log mode.

## How to read the models

One `char` stands for one byte; strings that C functions take are free of NULs. Files,
the network, the clock, the driver's answers and bytes of memory that the daemon reads
without having written them are parameters: every theorem holds for all of them. Imperative code is a method over arrays or a class; its `ensures` ties the
result to a specification function, and the lemmas are about that function. Lemmas carry
`{:induction false}`: every induction is written out. `hide` keeps definitions that a
proof does not need out of it.

Results that differ from what one might expect of the code:

- The parser never writes the last byte of its two buffers. A key of 63 bytes is found only
  if that byte happens to be a NUL. If it is not, setting such a key adds a line each time:
  the map keeps the old value (`SetIsUpdateExactly`), the last write does not win
  (`LastWriteWins`), and getting finds nothing (`SetThenGetExactly`).
- Setting a key that is found, or new, is a map update only if the key has no blanks around
  it and the file ends a line, already has the key, or ends in a blank stretch with room for
  the entry (`SetIsUpdateExactly`). An entry appended to any other unfinished last line joins
  that line.
- Lines are copied up to their first NUL. The lines without the key stay as they are exactly
  if none of them holds one and none is joined by the entry (`OthersStayExactly`); a NUL
  before a newline joins the next line, whose entry survives only behind blanks
  (`NulJoinsLines`).
- `config_set` looks at no result of a write. When it reports success, the file is the new
  text exactly if there was room for all of it and the original opened or held nothing
  but the key (`WholeExactly`, `Config.ConfigSet`); otherwise other keys can be lost
  (`SuccessNeedsRoom`).
- `config_get` checks its output buffer as if it were a value, so `config_get_int` depends
  on what its local buffer happens to hold (`SetIntThenGetInt`).
- With passes of the service loop of up to d seconds, d being at least 1, the oldest entry of
  the heartbeat table that can be met is 74 + 2d seconds old, and 74 + d at the head of the
  loop (`OldestEntry`); 15 + 60 + d is a bound for all of a pass if and only if d <= 1
  (`SingleBoundExactly`). By their own readings of the clock, cleanups are at least 60
  seconds apart if and only if they read it when their pass begins (`MinuteApartExactly`).
- The upgrade does not look at the results of its backups. It is all-or-nothing exactly if
  it goes through, has nothing to install, or no backup and no restore fails
  (`AllOrNothingExactly`). All three libraries depend on the presence of the core library
  in the package, as lines 188-190 of the source have it.
- A comment calls `address_to_little_endian` a conversion to network byte order. The code
  packs the fields into a number and copies it in host order; the model has the
  little-endian bytes that result.
- A request without a content length is never complete (`UnknownLengthNeverCompletes`).

## Model

| member | source | states |
|---|---|---|
| CText.TrimIs | src/wtsl_core/utils/wtsl_cfg_manager.c:17-33 | a span with blank surroundings and non-blank ends is what trimming gives, and there is only one |
| CText.PiecesOfConcat | src/wtsl_core/utils/wtsl_cfg_manager.c:132 | reading with `fgets` undoes writing out lines, when every line but the last ends itself by a newline or by filling the buffer |
| ConfigLine.ParseOfPrint | src/wtsl_core/utils/wtsl_cfg_manager.c:66-102 | a printed entry with a trimmed key parses to that key and the trimmed value |
| ConfigLine.ParseTrimmed | src/wtsl_core/utils/wtsl_cfg_manager.c:88-99 | keys and values found on any line are valid and have no blanks around them |
| ConfigLine.MeansExactly | src/wtsl_core/utils/wtsl_cfg_manager.c:66-102 | a line means an entry if and only if, between its blanks, it is no comment and holds a valid key and value around its first `=` |
| ConfigText.StoreOfSetLines | src/wtsl_core/utils/wtsl_cfg_manager.c:132-163 | rewriting all lines with a key, or appending one, is an update of the map in which the first line with a key decides |
| ConfigWrite.LinesOfWritten | src/wtsl_core/utils/wtsl_cfg_manager.c:127-163 | the new file reads back as exactly the lines that were written, has no NULs, and ends a line if the old one did |
| ConfigWrite.SetIsUpdate | src/wtsl_core/utils/wtsl_cfg_manager.c:105-178 | on raw text with duplicates, comments, malformed lines, and NULs on lines found to have the key, setting is a map update, unless the key is there and is not found: then the map stays |
| ConfigWrite.SetKeepsOtherLines | src/wtsl_core/utils/wtsl_cfg_manager.c:137-155 | all lines that are not found to have the key stay in place byte for byte, all that are become the entry, at most one line is added at the end |
| ConfigExact.OthersStayExactly | src/wtsl_core/utils/wtsl_cfg_manager.c:129-155 | all lines without the key stay in place byte for byte if and only if none of them holds a NUL and none is joined by the entry; for all files if the key is found or new, for all text files otherwise |
| ConfigWrite.LastWriteWins | src/wtsl_core/utils/wtsl_cfg_manager.c:127-163 | setting v1 and then v2 gives the bytes of setting v2 if and only if the second write finds the trimmed key and the first did or it was new, or the second does not and the first changed nothing; so repeating a write is idempotent exactly if the key is found |
| ConfigRuns.RunRefinesMap | src/wtsl_core/utils/wtsl_cfg_manager.c:105-178 | over any run of valid, invalid and failing calls the file stays a clean text file; it is the map after every call if and only if each call that takes effect has a trimmed key that is found, new, or unchanged |
| ConfigWrite.NewlineEndedKept | src/wtsl_core/utils/wtsl_cfg_manager.c:127-163 | if every line is finished and so fits the buffer, that stays so |
| ConfigExact.SetIsUpdateExactly | src/wtsl_core/utils/wtsl_cfg_manager.c:105-178 | for every value, every stack, and every file without NULs outside the key's lines: setting a key that is found or new is a map update if and only if the key is trimmed and the file ends a line, has the key, or ends in blanks that leave room; setting one that is there and not found, in a clean file, if and only if it has the value already |
| ConfigExact.NonBlankKeepsKeyOut | src/wtsl_core/utils/wtsl_cfg_manager.c:75-96 | an unfinished line that is not blank and lacks the key never becomes a line with the key by having an entry appended |
| ConfigExact.NulJoinsLines | src/wtsl_core/utils/wtsl_cfg_manager.c:148-154 | for every line with a NUL and every entry after it: setting another key is a map update if and only if only blanks come before the NUL and leave room for the entry |
| ConfigFile.TrimWhitespace | src/wtsl_core/utils/wtsl_cfg_manager.c:17-33 | the in-place loops give the trimmed string and change one byte at most |
| ConfigFile.IsValidKey | src/wtsl_core/utils/wtsl_cfg_manager.c:35-49 | true exactly for non-empty keys under 64 bytes without `=`, `#` and line ends |
| ConfigFile.ParseConfigLine | src/wtsl_core/utils/wtsl_cfg_manager.c:66-102 | the in-place parser computes the meaning of the line |
| ConfigFile.Config.CopyLines | src/wtsl_core/utils/wtsl_cfg_manager.c:127-158 | the temporary file gets all lines of the original, rewritten, as far as there is room, while the live file is untouched |
| ConfigFile.Config.ConfigSet | src/wtsl_core/utils/wtsl_cfg_manager.c:105-178 | result code and exact contents for every way calls can fail; on success the file is the new text if and only if that was whole; in every state a crash can leave, the live file is the old text up to one point and the final text after it |
| ConfigFile.WholeExactly | src/wtsl_core/utils/wtsl_cfg_manager.c:127-177 | what is written is the new text if and only if there was room for all of it, and the original opened or held nothing but at most one line with the key; or, when the key is there and not found, if its lines are the entry already and there was room for just the old text |
| ConfigFile.Config.ConfigGet | src/wtsl_core/utils/wtsl_cfg_manager.c:180-224 | succeeds if and only if arguments and buffer are valid and the key is on a line and compares equal, and then fills the buffer from the first such line; INVALID_PARAM and NOT_FOUND exactly in the other cases, with the buffer untouched |
| ConfigFile.Config.ConfigGetInt | src/wtsl_core/utils/wtsl_cfg_manager.c:226-245 | for a key that is listed: the number that its first line has for a value, or FORMAT if that is not blanks, a sign and digits to its end; INVALID_PARAM and NOT_FOUND exactly in the other cases; the caller's variable is untouched on every error |
| ConfigFile.Config.ConfigSetInt | src/wtsl_core/utils/wtsl_cfg_manager.c:346-351 | sets the decimal text of the number |
| ConfigPromises.SetThenGet | src/wtsl_core/utils/wtsl_cfg_manager.c:105-224 | after a set, get returns the value, or the one from before if the key was there and not found, cut to the buffer, if it finds the key; and what it returned before for every other key |
| ConfigPromises.SetThenGetExactly | src/wtsl_core/utils/wtsl_cfg_manager.c:98-224 | with keys of all lengths and any stack: what was set is got if and only if the key is found when got, and was when set or was new or had that value |
| ConfigPromises.SetIntThenGetInt | src/wtsl_core/utils/wtsl_cfg_manager.c:226-245 | every 32-bit number set is the number got, through printing, text, trimming and parsing, if and only if the local buffer passes for a value, the key is found when got, and was when set or was new or had that number |
| ConfigPromises.SuccessNeedsRoom | src/wtsl_core/utils/wtsl_cfg_manager.c:123-177 | what success means for the map: what `SetIsUpdate` says if the original opened and all bytes fitted; only the new entry if the original did not open, an update exactly if there were no other keys; empty with no room |
| CNumbers.StrtolOfIntText | src/wtsl_core/utils/wtsl_cfg_manager.c:236-241 | reading a printed number gives it back and stops at its end |
| CNumbers.StrtolExactly | src/wtsl_core/utils/wtsl_cfg_manager.c:236-241 | a string is read to its end if and only if it is blanks, a sign and at least one digit, and then as that number kept within a `long` |
| CNumbers.PlaceValue | src/wtsl_core/utils/wtsl_cfg_manager.c:236-237 | digits count by their places |
| CNumbers.ToIntIs | src/wtsl_core/utils/wtsl_cfg_manager.c:243 | the result is the one `int` that differs by a multiple of 2^32 |
| Frames.PackUnpack | src/wtsl_core/utils/wtsl_client_upload.c:61-72 | packing an address into 32 bits is a bijection |
| Lengths.Length24 | src/wtsl_core/utils/wtsl_client_upload.c:117-118 | the three length bytes give the length back if and only if it is below 2^24 |
| Frames.DecodeOfEncode | src/wtsl_core/utils/wtsl_client_upload.c:75-144 | a strict decoder gives back number, addresses, type, identifier and data of a built frame if and only if the data is shorter than 2^24 bytes |
| Frames.EncodeOfDecode | src/wtsl_core/utils/wtsl_client_upload.c:82-141 | whatever the decoder accepts is the frame built from what it returns |
| Frames.AddressBytes | src/wtsl_core/utils/wtsl_client_upload.c:61-72 | the four bytes of a packed address are device, node and the subnet below the reserved bits |
| Frames.FrameBytes | src/wtsl_core/utils/wtsl_client_upload.c:89-141 | the value of every byte of a frame around its data |
| Frames.EncodeInjective | src/wtsl_core/utils/wtsl_client_upload.c:75-144 | different messages make different frames, at every length of the data |
| Frames.XorOfChange | src/wtsl_core/utils/wtsl_client_upload.c:51-58 | changing one byte changes the checksum by exactly that change |
| Frames.DamageIsDetected | src/wtsl_core/utils/wtsl_client_upload.c:133-141 | no frame with one changed byte, anywhere, is accepted |
| Upload.Uploader.CalculateChecksum | src/wtsl_core/utils/wtsl_client_upload.c:51-58 | the loop computes the exclusive or of the bytes |
| Upload.Uploader.BuildFrame | src/wtsl_core/utils/wtsl_client_upload.c:75-144 | the bytes written are exactly the frame of the message, 26 more than the data; the number steps on and wraps, unless there is no data or memory |
| Upload.Uploader.SendFrameData | src/wtsl_core/utils/wtsl_client_upload.c:244-260 | what reaches the network is a prefix of the frame, all of it exactly on success, for every pattern of partial sends |
| Upload.SendsWholeWhen | src/wtsl_core/utils/wtsl_client_upload.c:248-256 | a frame goes out whole if and only if positive results in a row from the first call on add up to its length |
| Upload.SentByIs | src/wtsl_core/utils/wtsl_client_upload.c:244-260 | what goes out is the sum of the results up to the first that is not positive, and never more than the frame |
| Upload.AcknowledgesIs | src/wtsl_core/utils/wtsl_client_upload.c:408-446 | a reply acknowledges if and only if what C reads of it is some text, the wanted words, and some text |
| Upload.SucceedsExactly | src/wtsl_core/utils/wtsl_client_upload.c:471-549 | an attempt succeeds if and only if it connects, has memory for both frames, both are sent whole, and both replies have their words |
| Upload.AttemptSeen | src/wtsl_core/utils/wtsl_client_upload.c:471-549 | which events are seen of an attempt: each step exactly if all before it went well, with as much of its frame as was sent; the close exactly if there was a connection and no acknowledgement on it failed |
| Upload.Uploader.StageBytes | src/wtsl_core/utils/wtsl_client_upload.c:89-141 | the kind bytes 0x82000000 or 0x87000000, the identifier 3 or 2, and number, addresses, length and data of the information and the data frame |
| Upload.Uploader.TryUpload | src/wtsl_core/utils/wtsl_client_upload.c:471-549 | one attempt succeeds exactly if connection, information frame, its acknowledgement, data frame and its acknowledgement all do; earlier events stay, and the events added and the next frame number are fixed for every way it can fail |
| Upload.Uploader.TcpUploadLogs | src/wtsl_core/utils/wtsl_client_upload.c:451-560 | returns 0 if and only if one of the allowed attempts goes through, the last one made being the first that does; what is seen is what was seen before and then exactly the events of the attempts made; no data frame is sent but right after its connection's acknowledged information frame |
| Upload.ServerReadsUpload | src/wtsl_core/utils/wtsl_client_upload.c:484-548 | after an upload that went through, the server decodes the information, and the whole log if and only if it is shorter than 2^24 bytes |
| Upload.Trigger.WakeUp | src/wtsl_core/utils/wtsl_client_upload.c:607-646 | the thread uploads exactly if the file is full or there was a request since it last woke up |
| SinglyLinkedList.InsertRemove | src/wtsl_core/utils/wtsl_core_list.c:63-184 | removing undoes inserting at the same index, and inserting undoes removing |
| SinglyLinkedList.PlacesAfter | src/wtsl_core/utils/wtsl_core_list.c:63-184 | where every element is after an insertion and after a removal |
| SinglyLinkedList.List.InsertHead | src/wtsl_core/utils/wtsl_core_list.c:32-41 | the element comes before all others; the chain stays finite and without repeats |
| SinglyLinkedList.List.InsertTail | src/wtsl_core/utils/wtsl_core_list.c:44-60 | the element comes after all others |
| SinglyLinkedList.List.Insert | src/wtsl_core/utils/wtsl_core_list.c:63-86 | the element is inserted at the index, or the index is refused and nothing changes |
| SinglyLinkedList.List.Find | src/wtsl_core/utils/wtsl_core_list.c:89-102 | the first index where the comparison gives 0, or -1 if it does so nowhere |
| SinglyLinkedList.List.Get | src/wtsl_core/utils/wtsl_core_list.c:104-117 | the node at the index, or null outside the list |
| SinglyLinkedList.List.RemoveHead | src/wtsl_core/utils/wtsl_core_list.c:120-134 | the first element goes and exactly its node is freed |
| SinglyLinkedList.List.RemoveTail | src/wtsl_core/utils/wtsl_core_list.c:137-158 | the last element goes and exactly its node is freed |
| SinglyLinkedList.List.Remove | src/wtsl_core/utils/wtsl_core_list.c:161-184 | the element at the index goes and exactly its node is freed, or the index is refused |
| SinglyLinkedList.List.RemoveByValue | src/wtsl_core/utils/wtsl_core_list.c:187-193 | the first match goes, or nothing changes |
| SinglyLinkedList.List.Traverse | src/wtsl_core/utils/wtsl_core_list.c:196-204 | the callback sees all elements once, in order |
| SinglyLinkedList.List.Destroy | src/wtsl_core/utils/wtsl_core_list.c:212-229 | every node is freed once, in order, and no node is ever freed twice |
| Heartbeats.McTable.UpdateNodeList | src/wtsl_core/slal/wtsl_core_splink_mc.c:174-193 | the array becomes the table with the heartbeat recorded |
| Heartbeats.McTable.CleanTimeoutNodes | src/wtsl_core/slal/wtsl_core_splink_mc.c:196-212 | the in-place compaction computes the order-preserving filter of fresh peers, and ends |
| Heartbeats.McTable.ReceiveHeartbeat | src/wtsl_core/slal/wtsl_core_splink_mc.c:255-269 | only a message that starts like a heartbeat is recorded |
| Heartbeats.TouchIs | src/wtsl_core/slal/wtsl_core_splink_mc.c:174-193 | a heartbeat is recorded without repeats and without touching other peers, unless its sender is new and the table full |
| Heartbeats.TouchPlaces | src/wtsl_core/slal/wtsl_core_splink_mc.c:178-192 | a known peer keeps its place and a new one comes last, if there are fewer than 1024 |
| Heartbeats.FreshIs | src/wtsl_core/slal/wtsl_core_splink_mc.c:196-212 | a cleanup keeps exactly the peers whose time is at most 15 seconds old, without repeats |
| Heartbeats.FreshInOrder | src/wtsl_core/slal/wtsl_core_splink_mc.c:200-211 | the peers that stay keep their order |
| Heartbeats.TableTracks | src/wtsl_core/slal/wtsl_core_splink_mc.c:174-212 | over every run: at all times no address repeats, stored times are the latest heartbeats and only timed-out peers are missing, if and only if no heartbeat ever found the table full |
| Heartbeats.FewSendersFit | src/wtsl_core/slal/wtsl_core_splink_mc.c:186-192 | with at most 1024 distinct senders none ever does |
| Heartbeats.CleanupIsExact | src/wtsl_core/slal/wtsl_core_splink_mc.c:174-212 | right after a cleanup, if no heartbeat found the table full, a peer is listed if and only if its latest heartbeat is at most 15 seconds old |
| Heartbeats.CleanupOfFewSenders | src/wtsl_core/slal/wtsl_core_splink_mc.c:174-212 | so it is in every run with at most 1024 distinct senders |
| HeartbeatService.Service.RunPass | src/wtsl_core/slal/wtsl_core_splink_mc.c:283-298 | after any passes the array holds what their events make of the table, and the time of the last send is kept |
| HeartbeatService.LoopIsRun | src/wtsl_core/slal/wtsl_core_splink_mc.c:283-298 | the state after any passes is the table after their cleanups and heartbeats in order, every pass taking in its heartbeat and a cleanup coming exactly a minute or more after the last send |
| HeartbeatService.ServiceListsExactly | src/wtsl_core/slal/wtsl_core_splink_mc.c:283-298 | in every run of the service, right after a cleanup, if no heartbeat found the table full, a peer is listed if and only if its latest heartbeat is at most 15 seconds old |
| HeartbeatService.AgeAtLoopHead | src/wtsl_core/slal/wtsl_core_splink_mc.c:272-298 | with passes of at most d seconds, no entry is 15 + 60 + d seconds old when a pass begins |
| HeartbeatService.AgeWithinPass | src/wtsl_core/slal/wtsl_core_splink_mc.c:272-298 | at no moment of any pass is an entry 15 + 60 + 2d seconds old, nor 15 + 60 + d in a pass without cleanup |
| HeartbeatService.OldestEntry | src/wtsl_core/slal/wtsl_core_splink_mc.c:272-298 | both bounds are reached for every d of at least 1: a run with an entry of 74 + d seconds at the head of the loop, and of 74 + 2d just before the cleanup |
| HeartbeatService.SingleBoundExactly | src/wtsl_core/slal/wtsl_core_splink_mc.c:272-298 | in all runs no entry is older than 15 + 60 + d at any time of a pass, if and only if d is at most 1 |
| HeartbeatService.CleanupsApart | src/wtsl_core/slal/wtsl_core_splink_mc.c:287-292 | sends are at least 60 seconds apart, and clock readings of their cleanups at least 60 - e if they are made at most e seconds into a pass |
| HeartbeatService.ClosestCleanups | src/wtsl_core/slal/wtsl_core_splink_mc.c:287-292 | that least distance is reached for every e up to d and every d of at least 1 |
| HeartbeatService.MinuteApartExactly | src/wtsl_core/slal/wtsl_core_splink_mc.c:287-292 | for d of at least 1: in all runs cleanups read the clock at least 60 seconds apart, if and only if e is 0 |
| AppUpgrade.Device.PerformAppUpgrade | src/wtsl_core/dataparser/wtsl_core_dataparser_ota.c:159-313 | 0 exactly when the replacements and the start succeed, and then the new program with all new or untouched libraries; on -1, if backups and restores work, the program and every `*.so` that was there are what they were |
| AppUpgrade.IsSoIs | src/wtsl_core/dataparser/wtsl_core_dataparser_ota.c:202 | the pattern `*.so` matches exactly the names that end so and do not begin with a dot |
| AppUpgrade.LibrariesRestored | src/wtsl_core/dataparser/wtsl_core_dataparser_ota.c:296-306 | on -1 with what a rollback needs, the three libraries and all others that were there are what they were |
| AppUpgrade.PackageAfter | src/wtsl_core/dataparser/wtsl_core_dataparser_ota.c:282-285 | the unpacked package goes on success as far as it can be removed, and stays on failure |
| AppUpgrade.OtherFilesStay | src/wtsl_core/dataparser/wtsl_core_dataparser_ota.c:159-313 | no other file of the application changes, and on success no other library |
| AppUpgrade.BackupsKept | src/wtsl_core/dataparser/wtsl_core_dataparser_ota.c:195-203 | backups that were made are there afterwards, on success and on failure |
| AppUpgrade.SucceedsWhen | src/wtsl_core/dataparser/wtsl_core_dataparser_ota.c:227-293 | the return code is 0 exactly if every replacement and the start succeed, whatever failures leave behind |
| AppUpgrade.SuccessUpgrades | src/wtsl_core/dataparser/wtsl_core_dataparser_ota.c:227-293 | on 0 the program is the new one and the three libraries are all new or all untouched |
| AppUpgrade.UpgradeIsAllOrNothing | src/wtsl_core/dataparser/wtsl_core_dataparser_ota.c:174-313 | with working backups and restores: for every point of failure and all garbage, new on 0, and the old program and libraries on -1 |
| AppUpgrade.AllOrNothingExactly | src/wtsl_core/dataparser/wtsl_core_dataparser_ota.c:174-313 | that holds for all garbage if and only if the upgrade goes through, has nothing to install, or no needed backup or restore fails |
| MacHistory.SlotsAppend | src/wtsl_core/api/wtsl_core_api.c:252-256 | the shift of the slots keeps them the newest three entries of the history with repeats collapsed |
| MacHistory.ThreeWrites | src/wtsl_core/api/wtsl_core_api.c:257-259 | the three writes to the configuration file are one update of three keys |
| MacHistory.WritesPersist | src/wtsl_core/utils/wtsl_cfg_manager.c:309-311 | after them a restart reads the same three slots |
| MacHistory.OtherKeysKeepSlots | src/wtsl_core/api/wtsl_core_api.c:317-323 | setting any other key, found or not, keeps the file clean and what a restart reads |
| MacHistory.SeeAllIs | src/wtsl_core/api/wtsl_core_api.c:222-274 | for every run of lines: an address is wanted exactly if none was taken since the link was last down, those taken are the ones captured, the slots are the newest three of that history with repeats collapsed, and link, users, refresh flag and signals follow the role lines |
| MacHistory.LastRoleDecides | src/wtsl_core/api/wtsl_core_api.c:232-246 | link, users and refresh flag come from the last role line |
| MacHistory.MovedIs | src/wtsl_core/api/wtsl_core_api.c:250-256 | the slots move in a run of lines if and only if an address was captured that was not the newest |
| MacHistory.OnePerOutage | src/wtsl_core/api/wtsl_core_api.c:247-270 | between two captures the link was down |
| MacHistory.Watcher.ProcessLine | src/wtsl_core/api/wtsl_core_api.c:232-271 | one line changes link state, user count, refresh flag, address, wish, slots and signals as the run of one line does, whether or not the writes succeed; if they do, the file stays clean and a restart reads the slots if it would have before or they changed |
| MacHistory.Watcher.Poll | src/wtsl_core/api/wtsl_core_api.c:222-274 | all lines of an answer in order: exactly the captured addresses go into the slots; one signal for each line that leaves the link down, so at least one when the answer is not empty and the link ends down |
| MacHistory.Watcher.NoteChannel | src/wtsl_core/api/wtsl_core_api.c:317-323 | a channel that is new and not 0 is noted and, with working writes, is an update of its key alone in the file; otherwise nothing is written |
| MacHistory.ChannelReread | src/wtsl_core/utils/wtsl_cfg_manager.c:296 | a restart comes up on the channel that is in the file |
| MacHistory.Watcher.GetSplinkInfo | src/wtsl_core/api/wtsl_core_api.c:311-324 | the lines of an answer, and then the channel: with working writes the file has the slots, if they moved, and the channel, if it is new, and nothing else changes |
| MacHistory.Watcher.Watch | src/wtsl_core/slal/wtsl_core_splink_state.c:74-91 | over any sequence of rounds the state is that after all their lines, the slots are the newest three of all that was captured, the channel is the last one read; with working writes on a clean file the map of the file is the old one with the slots, if they ever moved, and the channel, if it ever did, and every other key keeps its value |
| AutoJoin.InvStep | src/wtsl_core/slal/wtsl_core_splink_state.c:69-137 | every step of every thread, a new link state between the joiner's test and its wait included, keeps lock ownership, the absence of lost wake-ups and the turn of the slots |
| AutoJoin.NoWaitWhileDown | src/wtsl_core/api/wtsl_core_api.c:264-270 | in every interleaving, when no line is being handled, a joiner blocked on the condition or about to block is so with the link up |
| AutoJoin.WokenSoon | src/wtsl_core/api/wtsl_core_api.c:264-270 | in every interleaving a joiner blocked while the link is down is woken by the watcher's third step from then on, however other threads step in between |
| AutoJoin.CloserToSignal | src/wtsl_core/api/wtsl_core_api.c:264-270 | until then the watcher is never held up, each of its steps brings the signal closer, and no step of another thread takes it back |
| AutoJoin.NoDeadlock | src/wtsl_core/slal/wtsl_core_splink_state.c:75-131 | whoever holds a lock can go on or is held up by a joiner that can |
| AutoJoin.LinkWasDown | src/wtsl_core/slal/wtsl_core_splink_state.c:110-125 | in every interleaving a joiner that decides or joins found the link down before, and did nothing else since |
| AutoJoin.AttemptsAreDue | src/wtsl_core/slal/wtsl_core_splink_state.c:103-125 | every attempt follows a test that found the link down and one that found auto-join on, with the net lock held all the time |
| AutoJoin.FlagWasOn | src/wtsl_core/slal/wtsl_core_splink_state.c:103-108 | the joiner gets past the flag only by finding it on |
| AutoJoin.FailedTestsWait | src/wtsl_core/slal/wtsl_core_splink_state.c:104-115 | a test that fails leads to a wait, which only a signal for the cause, or a spurious wake-up, ends |
| AutoJoin.AttemptSoon | src/wtsl_core/slal/wtsl_core_splink_state.c:96-131 | while the link stays down and auto-join on, a joiner that is not waiting makes an attempt by its seventh step, however other threads step in between |
| AutoJoin.WatcherKeepsUp | src/wtsl_core/api/wtsl_core_api.c:229-271 | in every interleaving the link is that of the last line handled that has one, and each line that left it down was signalled once or is about to be |
| AutoJoin.FlagNotLost | src/wtsl_core/slal/wtsl_core_splink_state.c:103-108 | a joiner that waits for the flag while it is on is about to be signalled, which nothing can hold up |
| AutoJoin.FlagIsLast | src/wtsl_core/slal/node/wtsl_core_node_callback.c:643 | the flag is what was set or cleared last |
| AutoJoin.FirstAfterWake | src/wtsl_core/slal/wtsl_core_splink_state.c:111-125 | the first attempt after a wake-up uses slot 0 |
| AutoJoin.ThreeCoverAll | src/wtsl_core/slal/wtsl_core_splink_state.c:122-130 | three attempts without a wake-up between them cover all three slots |
| PostBody.SplitDoesNotMatter | src/wtsl_core/protocol/http/wtsl_core_httpmain.c:147-173 | however a body is split, the concatenation is stored, and it is complete if and only if a positive expected length is reached |
| PostBody.UnknownLengthNeverCompletes | src/wtsl_core/protocol/http/wtsl_core_httpmain.c:169-171 | without an expected length no request is complete |
| PostBody.RequestData.Store | src/wtsl_core/protocol/http/wtsl_core_httpmain.c:147-173 | the buffer grows as needed, holds the body and a NUL, and its size stays below its capacity |
| PostBody.RequestData.Handle | src/wtsl_core/protocol/http/wtsl_core_httpmain.c:145-191 | what is dispatched is the whole body, and only when complete and allowed |
| LogLine.FormatLine | src/wtsl_core/utils/wtsl_log_manager.c:627-657 | for every prefix shorter than the buffer and every content the buffer ends up with prefix and content, cut to leave room, a newline and a NUL |
| LogLine.ParseConfigMode | src/wtsl_core/utils/wtsl_log_manager.c:203-217 | the 31-letter copy decides like a comparison of the whole word in any case |
| LogLine.ModeLetters | src/wtsl_core/utils/wtsl_log_manager.c:212-216 | letter by letter, which lines name which mode |
| LogLine.HeaderNamed | src/wtsl_core/utils/wtsl_log_manager.c:301-312 | a bracketed name begins a section whatever follows it, and the one for the mode if the name between its blanks is `chip log_system` in any case |
| LogLine.HeaderHasName | src/wtsl_core/utils/wtsl_log_manager.c:301-304 | only lines with a bracketed name begin a section |
| LogLine.LogSystem.ParseConfigFile | src/wtsl_core/utils/wtsl_log_manager.c:278-347 | the mode is that of the first line naming one inside a `[chip log_system]` section, and ALL if there is none |
| LogLine.ChosenIsUnique | src/wtsl_core/utils/wtsl_log_manager.c:291-344 | that determines the mode |

## Left out

- ConfigFile.WholeExactly: not stated when a 63-byte key is on a line, is not found, and that line holds a NUL. What the file then holds is in the contract of `ConfigSet`: the old lines and the new entry after them, as far as there is room.
- ConfigExact.SetIsUpdateExactly: not stated when a key is there, is not found, and the file is not clean; the added entry can then join the last line.
- ConfigFile.Config.ConfigGet: the bytes that the parser leaves unwritten are the same for all lines of one call.
- ConfigPromises.SetIntThenGetInt: `strtol` is modelled with a 64-bit `long`; for 32-bit numbers the width makes no difference.
- Order of data and rename on the storage after a power failure: the file system is a map of whole files.
- Upload.Uploader.TcpUploadLogs: the descriptor that stays open when an acknowledgement fails has no consequence in the model; there is no claim that every socket is closed.
- Frames.DecodeOfEncode: lengths whose frame size overflows `size_t` are left to the failing allocation.
- SinglyLinkedList.List.Insert: allocation succeeds, and list and data are not null. Element data is a value, so its own memory is not modelled apart from its node.
- Heartbeats.McTable.UpdateNodeList: addresses come from `inet_ntoa`, so the copy of 15 bytes keeps them whole.
- HeartbeatService.Service.RunPass: sending, socket set-up and the wait for data only take time.
- AppUpgrade.Device.PerformAppUpgrade: stopping and restarting processes, file modes and the restart after a rollback; only file contents are modelled.
- MacHistory.Watcher.ProcessLine: addresses fit their 18-byte buffers.
- MacHistory.Watcher.Watch: versions and signal strength, which a round reads last, and what other threads do to the slots.
- AutoJoin.NoDeadlock: the run flag stays set, and the node stays a terminal. Other threads that take the global lock are not modelled.
- PostBody.RequestData.Store: allocation succeeds; the content length is not negative.
- LogLine.FormatLine: the prefix is shorter than the 4096-byte buffer, as every module name in the daemon makes it; lines 634-645 do not check this.
- Message texts, time formatting, the log file on disk and reloading of the log configuration by its modification time.
- URL dispatch, JSON fields, users and the database, firmware and web files of the update, and vendor interfaces: long tables or calls into code that is not part of this model.
