# Stet: a verified model of its protocols, parsers and stores

Stet is a desktop application that captures the text selected in another program, has a local language model correct
it, and pastes the correction back. Much of what can go wrong in it happens between threads, between processes and on
other people's clipboards. This project models those parts in Dafny and proves what they keep.

| files | what they model |
|---|---|
| `FrameCodec`, `IncomingStream` | the length-prefixed frames of the IPC connection, and any chunking of a byte stream |
| `Json`, `ReplyTable`, `IpcClient`, `ReplyRouting` | the client object, and the routing of JSON-RPC replies to the calls that wait for them, over every interleaving of callers and reader (sections 4, 4.1 and 5 of the JSON-RPC 2.0 specification) |
| `HelloProof` | the byte layout that the handshake signs (section 2 of RFC 2104 stays abstract) |
| `Pasteboard`, `MacInput`, `ClipboardProtocol` | who owns the macOS clipboard during capture, paste and delayed restore |
| `Gguf`, `GgufReader`, `GgufFormat`, `GgufCache` | the reader of GGUF model headers, the section "File Structure" of the GGUF format it must agree with, and its cache |
| `StreamText`, `StreamWorker` | the thread that streams an answer, with its stop flag and watchdog timers |
| `SamplePacker` | the greedy packer of the evaluation script |
| `Hotkeys`, `HotkeyPasses`, `MacHotkeys`, `BusyLock` | hotkey registration on Windows and macOS, and the lock around captures |
| `PromptText`, `StripSettling`, `ConfigMigration`, `ConfigSettling` | the migration of templates and modes of an older configuration |
| `History` | the correction history and the undo token |
| `ArchiveSafety`, `Updater` | which archives an update takes, when it touches the installation, and what is on disk wherever it stops |
| `Icns`, `Newlines` | the icon container with its checker, and the two line-ending normalisers |
| `Bytes`, `Strings`, `Wrappers` | byte order, searching, splitting and trimming text, options and results |

Code that changes things step by step is modelled by classes, methods and loops, each proved equal to a function of the
old state; what the program is for is then proved of those functions. Threads are modelled as steps that may come in any
order: `ReplyRouting.Next`, `ClipboardProtocol.Step`, `StreamWorker.Worker.Interfere` (any number of steps of other
threads between any two of the run thread) and `BusyLock.Next`.

JSON printing and parsing, UTF-8, lower-casing, clocks, permissions, the operating system's answers and the order of
directory listings are parameters. A law about one of them (a round trip, injectivity) is a `requires` of exactly the
results that need it. The prompt texts of `stet/constants.py` and `stet/core/config.py` that the migration compares with
are the fields of `ConfigMigration.Wording`, and `Fits` lists the facts about them that the proofs use.

## Where the code does not do what one would expect

Each of these is a proved statement about the code as it is.

- **Silent captures can leave the target's copy on the clipboard.** The silent worker returns on a blank selection, and
  leaves on an exception, an empty correction or a paste that ends before it touches the board, without restoring what
  its capture displaced: `ClipboardProtocol.SilentWorkerExactly` gives the exact condition.
- **The user's clipboard is not always safe, and it is known exactly when it is.** `ClipboardProtocol.Harmless` says for
  every step, under every failure of the pasteboard, what must be the case; `StepExactly` and `RunExactly` prove that
  the user's content survives if and only if every step meets it. The losing cases are: a paste that goes through while
  an earlier one is still to be undone (`OverlappingPasteExactly`; from a fresh start, `TwoPastesLeaveStetsText`), a
  capture over the copy of an earlier one or over a restore still to come (`CaptureDisplaces`;
  `TwoCapturesLeaveTheCopy` begins with a blank silent capture), a user copy that a poll takes for the target's
  (`CopyWhilePollingExactly`), a copy made by the target after the last poll or while polls fail, and writes that are
  refused or raise halfway - each unless the board happens to show the right content anyway.
- **A stop between building and starting the first watchdog ends the run thread without any signal**, or lets it start
  a timer that is already cancelled: `Timer.start` is called outside the lock on a field another thread may just have
  cleared (`StreamWorker.Worker.ArmFirst`).
- **The GGUF cache evicts on a missing file only.** Its documentation says that errors evict; over any run, a path that
  is only looked up in vain loses its entry if and only if one of those lookups finds no file
  (`GgufCache.ParseErrorKeepsEntry`). It can be trusted if and only if equal size and time mean an equal reading
  (`FreshExactly`).
- **An array of arrays ends the metadata loop of the GGUF reader**, and the tensor scan then takes the elements of that
  array for tensor records (`GgufFormat.NestedArrayStops`, `NestedArrayMisleads`).
- **Hotkey ids restart at 1000 on every pass**, so adding one combination to a running configuration can take the id
  and the action of another: `HotkeyPasses.DistinctExactly` says exactly when, `AddingOneShadows` gives the smallest
  case. Ids once given back stay among the handles, because the code looks for the combination's text among the ids.
- **The hotkey lock is lost for good** if the feedback before a silent capture, or the clipboard restore after a panel
  capture, raises (`BusyLock.HeldExactly`, `LostForGood`).
- **A configuration can need two starts to settle**; `ConfigSettling.OneStartExactly` says exactly when. "Polish &
  Refine" is renamed by one start and, being legacy under its new name, replaced by the next (`RenameIsReplaced`). A
  prompt of the old structure that still carries a mark of it when stripped, and whose kept lines are indented, loses
  the indentation on the second start, because the stripper is not idempotent (`StripSettling.IdempotentExactly`, `OneStartIsNotEnough`). And a first prompt that strips
  into an old spelling prompt makes the second start replace all three built-in prompts, the user's own second one
  included (`SecondStartOverwrites`). Two starts are always enough (`StartsSettle`).
- **A history read that breaks off is taken for the whole history**, and the next save throws the rest away
  (`History.BrokenRead` with `History.CorrectionHistory.Add`).
- **An archive that holds both a file and its `.updating` neighbour loses the neighbour** if it comes first
  (`Updater.InPlaceExactly`, `NeighbourIsLost`).

## Model

| member | source | states |
|---|---|---|
| `FrameCodec.Encode` | stet/core/ipc_client.py:96-102 | fails exactly on payloads over 4 MiB; otherwise the 8-byte big-endian length and the payload |
| `FrameCodec.Decode` | stet/core/ipc_client.py:104-135 | the cursor loop computes the frame-at-a-time scan, with its two kinds of error |
| `FrameCodec.DecodeExact` | stet/core/ipc_client.py:104-135 | decoding gives these frames and this count if and only if the buffer is exactly those frames followed by less than one frame |
| `FrameCodec.DecodeInvertsEncode` | stet/core/ipc_client.py:96-135 | decoding the concatenation of any encoded values and a strict prefix of one more frame gives back the values and leaves the prefix |
| `FrameCodec.ScanExtends` | stet/core/ipc_client.py:581-586 | decoding a longer stream is decoding its beginning and then, from the leftover, the rest; an error once met stays |
| `IpcClient.Client.HandleIncomingBytes` | stet/core/ipc_client.py:581-611 | the new buffer, the frames or the exception, and the notifications handed on, for any buffer and chunk |
| `IncomingStream.HandleContinues` | stet/core/ipc_client.py:581-611 | one more chunk goes through exactly when the longer stream has no bad frame, and yields exactly its new frames |
| `IncomingStream.ChunkingIrrelevant` | stet/core/ipc_client.py:238-297 | any chunking of any stream: the reader goes on exactly if the whole stream is clean, then with the frames of one decode of the whole and a buffer under 8 bytes and 4 MiB; what was handed on before an error is a beginning of them |
| `IncomingStream.WellFormedStream` | stet/core/ipc_client.py:581-611 | encoded frames and part of another one, in any chunks, come out as those frames and that part |
| `IncomingStream.LeftoverBounded` | stet/core/ipc_client.py:583-586 | what an error-free scan leaves in the buffer is less than one frame |
| `IpcClient.Client.BuildCommandFrame` | stet/core/ipc_client.py:562-575 | refused unless authenticated or ready; otherwise the next id, used up even when the frame is too large, in a JSON-RPC request |
| `IpcClient.Client.DeliverReplies` | stet/core/ipc_client.py:324-337 | replies go in order to the waiter of their id or to the stash, up to the first frame whose id does not hash |
| `IpcClient.Client.BeginWaiting` | stet/core/ipc_client.py:374-384 | first locked section: take a stashed reply, refuse a second waiter, or register |
| `IpcClient.Client.FinishWaiting` | stet/core/ipc_client.py:392-394 | last locked section: deregister and return what the record holds by then |
| `IpcClient.Client.OnReaderExit` | stet/core/ipc_client.py:339-352 | every waiter is woken with nothing, and none is left registered |
| `ReplyRouting.StepKeeps` | stet/core/ipc_client.py:324-394 | every step of callers and reader keeps the invariant that ties stash, waiters and records to the log of routed frames |
| `ReplyRouting.TablesDisjoint` | stet/core/ipc_client.py:324-394 | over every interleaving no id is both waited for and stashed, and a waiter entry belongs to a call still waiting |
| `ReplyRouting.AnswersExact` | stet/core/ipc_client.py:374-394 | over every interleaving of callers, deliveries, time-outs and reader exit: an answer is the last reply routed before the call asked, failing that the first one up to its final look, else nothing |
| `ReplyRouting.AnswerOrSilence` | stet/core/ipc_client.py:374-394 | an answer carries the call's own id, and silence means that no frame with it was routed in time |
| `ReplyRouting.FirstIsEarliest` | stet/core/ipc_client.py:324-337 | the first reply in the log is the one with none before it |
| `ReplyRouting.LastIsLatest` | stet/core/ipc_client.py:324-337 | the last reply in the log is the one with none after it |
| `ReplyRouting.OneReplyIsDelivered` | stet/core/ipc_client.py:324-394 | with one reply per id the call gets it exactly if it was routed before its final locked look, whether before or after it registered |
| `ReplyRouting.EndToEnd` | stet/core/ipc_client.py:238-394 | bytes to answers: from any part of an encoded reply stream in any chunks, what is routed is a beginning of the replies sent, all of them once everything was read, and a call is left unanswered only if none of those was its own |
| `HelloProof.CanonicalHelloPayload` | stet/core/ipc_client.py:46-60 | the layout, or an error for numbers and lengths beyond 32 bits |
| `HelloProof.LayoutInjective` | stet/core/ipc_client.py:46-60 | two handshakes have the same layout only if version, minimum core, process id and nonce are all the same |
| `Pasteboard.GeneralPasteboard.SnapshotPasteboard` | stet/core/clipboard_macos.py:41-60 | every readable representation of every item in order, and the change count; an error if the board cannot be read |
| `Pasteboard.GeneralPasteboard.WriteText` | stet/core/clipboard_macos.py:81-95 | clears and writes; a refused write leaves the board empty with a new count, an exception leaves it as it was or written, and is an error either way |
| `Pasteboard.GeneralPasteboard.RestoreSnapshot` | stet/core/clipboard_macos.py:98-132 | goes ahead only on the expected count and with items available; refused or broken off it leaves an empty board; an empty snapshot clears a second time |
| `Pasteboard.ReadablePut` | stet/core/clipboard_macos.py:41-58 | a snapshot of a restored snapshot is that snapshot |
| `MacInput.InputBackend.CaptureSelection` | stet/core/input_macos.py:384-420 | front application, accessibility, then copy and poll: the outcome, the board and the owned count for every answer of the environment, failed snapshots included |
| `MacInput.InputBackend.PasteText` | stet/core/input_macos.py:471-505 | what is on the board, what the restore after the delay will put back and under which count, in every branch, failed snapshots and writes included |
| `MacInput.InputBackend.RestoreCaptureIfOwned` | stet/core/input_macos.py:457-469 | puts the original back only while the board can be read and still is what the capture left |
| `ClipboardProtocol.RunShape` | stet/core/input_macos.py:384-505 | in every run whatever: the capture record is consistent, and of the delayed restores at most the last can still go ahead |
| `ClipboardProtocol.EndsWithRecoverable` | stet/core/input_macos.py:453-469 | in whatever order the outstanding restores come, the board ends up with one and the same content |
| `ClipboardProtocol.FinishesAlways` | stet/core/input_macos.py:453-469 | from every reachable state some restores leave nothing outstanding |
| `ClipboardProtocol.StepExactly` | stet/core/input_macos.py:384-505 | a step keeps the user's content safe if and only if it is harmless, for every step and every failure |
| `ClipboardProtocol.RunExactly` | stet/core/input_macos.py:384-505 | over any run, user copies in between: the user's content was safe all along if and only if every step was harmless |
| `ClipboardProtocol.UserContentComesBack` | stet/core/input_macos.py:453-505 | after any harmless run the outstanding restores, in whatever order, end with what the user last placed on the board: never Stet's text, never something older |
| `ClipboardProtocol.UserContentAtRest` | stet/core/input_macos.py:384-505 | at the end of any harmless run the user's content is on the board, or in the restore that will go ahead, or in the capture record |
| `ClipboardProtocol.OrderlyIsHarmless` | stet/core/input_macos.py:384-505 | starting nothing over unsettled copies or restores, no foreign copies, and writes that go through, are enough |
| `ClipboardProtocol.PanelWorkerExactly` | stet/core/app.py:2028-2055 | a panel capture keeps the user's content safe if and only if the capture was harmless or the user copies something afterwards; with no earlier restore to come the board then shows it |
| `ClipboardProtocol.SilentWorkerExactly` | stet/core/app.py:2057-2182 | a silent capture leaves the target's copy on the board if and only if it made one and the selection was blank, or nobody copied since and its last step did nothing; the content stays safe exactly by the capture and that step |
| `ClipboardProtocol.OverlappingPasteExactly` | stet/core/input_macos.py:478-505 | a paste over a pending restore is safe if and only if that can no longer go ahead or the board shows the user's content; otherwise the earlier paste's text comes back for good |
| `ClipboardProtocol.TwoPastesLeaveStetsText` | stet/core/input_macos.py:478-505 | from a fresh start two pastes inside the delay leave the first of Stet's texts on the user's clipboard |
| `ClipboardProtocol.CaptureDisplaces` | stet/core/input_macos.py:393-419 | an undone capture ends with what the board showed before, be it the user's, an earlier capture's copy or Stet's text |
| `ClipboardProtocol.TwoCapturesLeaveTheCopy` | stet/core/input_macos.py:393-419 | from a fresh start a blank silent capture and then another leave the first copy for good |
| `ClipboardProtocol.CopyWhilePollingExactly` | stet/core/input_macos.py:401-419 | a user copy taken for the target's is lost if and only if it changed what the board shows |
| `GgufReader.ReadGgufBinary` | stet/llm/gguf_info.py:63-154 | the cursor-driven reader computes the specified result, errors included, on every file |
| `GgufReader.ReadMetadataEntry` | stet/llm/gguf_info.py:84-136 | key, type, value: read, loop left, or raised, with the cursor where it ends up |
| `GgufReader.SkipStringArray` | stet/llm/gguf_info.py:112-117 | vocabularies are skipped string by string without decoding |
| `GgufFormat.ReadsHeader` | stet/llm/gguf_info.py:63-154 | for every well-formed header without arrays of arrays, followed by anything: exactly its dictionary, and true exactly if some tensor name contains nextn |
| `GgufFormat.DictMeaning` | stet/llm/gguf_info.py:83-136 | the dictionary holds exactly the keys that occur, each with its last value; skipped arrays as None |
| `GgufFormat.SkipMatchesDecode` | stet/llm/gguf_info.py:111-131 | skipping an array by arithmetic lands where decoding every element would, if and only if the array is all there |
| `GgufFormat.NestedArrayStops` | stet/llm/gguf_info.py:132-133 | an array of arrays ends the metadata loop with what was read before it and the cursor behind its head |
| `GgufFormat.NestedArrayMisleads` | stet/llm/gguf_info.py:132-154 | such a file gives the entries before the array and whatever the tensor scan makes of the bytes behind its head |
| `GgufCache.InfoCache.GetInfoCached` | stet/llm/gguf_info.py:268-288 | the answer and the new cache for every state of cache and files |
| `GgufCache.LookupIsFresh` | stet/llm/gguf_info.py:268-288 | over any run of file changes, failed reads and lookups with honest stamps, a lookup agrees with a fresh read on success and on everything from the file itself |
| `GgufCache.EqualStampsGoStale` | stet/llm/gguf_info.py:282-284 | after a version of equal size and time that reads otherwise the old answer comes back |
| `GgufCache.FreshExactly` | stet/llm/gguf_info.py:268-288 | lookups are fresh in every run over given file states if and only if equal stamps of a readable state mean equal readings |
| `GgufCache.ParseErrorKeepsEntry` | stet/llm/gguf_info.py:274-287 | over any further run of lookups in vain the entry goes if and only if one of them finds no file, and is unchanged otherwise |
| `StreamWorker.Worker.Run` | stet/llm/worker.py:65-138 | with any steps of stop and watchdogs in between: at most one terminal signal, exactly one if never stopped; an answer is determined by the response and equals the tokens emitted when there were any; no timer is live afterwards |
| `StreamWorker.Worker.ReadStream` | stet/llm/worker.py:80-106 | what was accumulated is the content and reasoning of the whole response, unless a flag or an exception cut it short |
| `StreamWorker.Worker.KickWatchdog` | stet/llm/worker.py:52-64 | the running timer is cancelled before another is started, and none is started once stopping |
| `StreamWorker.Worker.OtherStep` | stet/llm/worker.py:25-50 | stop, abort and timer expiry, one step at a time: flags only rise, no new timer starts, only the current one can be live |
| `StreamWorker.Worker.ArmFirst` | stet/llm/worker.py:70-74 | the first timer is live, or a stop came in between: then the thread ends without a signal, or starts a timer already cancelled |
| `StreamText.ReasoningPayloadClean` | stet/llm/worker.py:111-117 | the fallback answer never contains the mark it was cut at |
| `SamplePacker.PackSamples` | scripts/eval_matrix.py:3315-3347 | all samples in order, every pack of several packable and within 40 words with separators, and no such packing of the samples has fewer packs |
| `SamplePacker.AheadOpen` | scripts/eval_matrix.py:3330-3345 | when the next sample does not fit, every other packing needs another pack too |
| `Hotkeys.ParseHotkey` | stet/core/app.py:217-236 | the union of the modifiers and the last key, or (0, 0) exactly if some part is unknown |
| `Hotkeys.ComputeDiff` | stet/core/app.py:239-255 | the three differences, each in code point order |
| `Hotkeys.Registrar.Register` | stet/core/app.py:1429-1562 | one pass: the new table, the retry count and the retry delay, for every answer of the system |
| `Hotkeys.Registrar.Unregister` | stet/core/app.py:1471-1483 | exactly the combinations the system lets go are gone |
| `Hotkeys.Registrar.Claim` | stet/core/app.py:1485-1518 | exactly the combinations that parse and are granted are added, the k-th under id 1000 + k |
| `Hotkeys.Registrar.ReleaseAll` | stet/core/app.py:1564-1582 | every handle is given back, and the table and a waiting retry are gone |
| `HotkeyPasses.HeldAfterPass` | stet/core/app.py:1465-1521 | held afterwards: the kept, the newly granted, and the ones the system would not let go |
| `HotkeyPasses.KeptUntouched` | stet/core/app.py:1459-1468 | a combination that stays keeps its id |
| `HotkeyPasses.RunsAfterPass` | stet/core/app.py:1485-1512 | a new combination runs its own action; one that stays runs its old one unless its id was handed out again, and then the action of the new owner |
| `HotkeyPasses.DistinctExactly` | stet/core/app.py:1495-1504 | ids stay distinct if and only if no combination that stays holds an id handed out in the pass |
| `HotkeyPasses.FromEmpty` | stet/core/app.py:1485-1512 | from an empty table all ids are distinct and every combination runs its own action |
| `HotkeyPasses.AddingOneShadows` | stet/core/app.py:1495-1497 | f9, then f9 and f8: pressing f9 runs f8 |
| `HotkeyPasses.RunSettles` | stet/core/app.py:1429-1562 | after any run, a pass in which everything is granted leaves exactly the wanted combinations that parse, and a further pass changes nothing |
| `HotkeyPasses.RunSound` | stet/core/app.py:1485-1512 | over any run: only what parses is held, and every id in use is among the handles given back on release |
| `HotkeyPasses.RetriesEnd` | stet/core/app.py:1540-1562 | a chain of retries has at most twelve passes |
| `MacHotkeys.NormalizedOnce` | stet/core/input.py:138-149 | a normal form is its own normal form and is read as the same modifiers and key |
| `MacHotkeys.SameNormalExactly` | stet/core/input.py:138-149 | two shortcuts have the same normal form if and only if they hold the same modifiers, in any order and spelling, and the same key |
| `MacHotkeys.ShortcutKey` | stet/core/input_macos.py:146-161 | the key code and the combined masks of the written modifiers; nothing for an unknown key |
| `MacHotkeys.KeyOfNormal` | stet/core/input_macos.py:146-161 | from the written text to the event key the modifiers and the key stay the ones that were read |
| `MacHotkeys.CollideExactly` | stet/core/input_macos.py:146-161 | two shortcuts answer to the same events if and only if modifiers and key codes are equal |
| `MacHotkeys.HotkeyTable.Register` | stet/core/input_macos.py:267-307 | all shortcuts or none: success exactly if permitted, known, free of conflicts and granted a tap; refusals leave the old table, a refused tap an empty one |
| `MacHotkeys.HotkeyTable.Dispatch` | stet/core/input_macos.py:163-199 | a key press runs a shortcut if and only if its key code and its four modifiers match, whatever other flags are set |
| `BusyLock.OneAtATime` | stet/core/app.py:1700-1743 | over any run of fires, spawn failures and worker ends at most one capture is in flight, and none while a handler is inside |
| `BusyLock.HeldExactly` | stet/core/app.py:1700-1743 | the lock is held exactly while a handler is inside or a worker is alive, if and only if no feedback and no clean-up ever raised; acquires and releases then match |
| `BusyLock.LostForGood` | stet/core/app.py:1713-1721 | after such a failure the lock stays held and no capture ever starts again |
| `PromptText.StripStructuralRules` | stet/core/text_utils.py:1671-1712 | the line loop computes headline and kept lines |
| `StripSettling.StripSettles` | stet/core/text_utils.py:1671-1712 | stripping a third time changes nothing |
| `StripSettling.IdempotentExactly` | stet/core/text_utils.py:1671-1712 | stripping twice differs from once if and only if something is kept below the headline and begins with white space |
| `StripSettling.StrippedShape` | stet/core/text_utils.py:1671-1712 | any result is a trimmed headline and at most one block in which no line is a structural rule |
| `ConfigMigration.MigrateTemplates` | stet/core/config.py:228-296 | the new templates, and no request to save unless they changed |
| `ConfigMigration.MigrateModes` | stet/core/config.py:298-341 | the new modes place by place, and no request to save unless they changed |
| `ConfigMigration.ResetThresholds` | stet/core/config.py:57-107 | a built-in threshold is kept exactly if it is a number in range that no older version shipped |
| `ConfigMigration.RefreshPrompts` | stet/core/config.py:307-324 | retired prompts are replaced, and all three built-in ones if the first is an old spelling prompt |
| `ConfigMigration.ReducePrompts` | stet/core/config.py:333-341 | every prompt with structural marks is stripped once |
| `ConfigSettling.ConfigManager.constructor` | stet/core/config.py:110-116 | after a start the file holds what was loaded, whether or not a save was asked for |
| `ConfigSettling.TemplatesSettle` | stet/core/config.py:228-296 | two loads are enough for any templates |
| `ConfigSettling.TemplatesSettleAtOnce` | stet/core/config.py:228-296 | one load is enough if and only if the templates were empty or all legacy, or not all names are legacy after it |
| `ConfigSettling.RenameIsReplaced` | stet/core/config.py:258-290 | the renamed template is thrown away by the next load |
| `ConfigSettling.ModesSettle` | stet/core/config.py:298-341 | two loads are enough for any modes, with the stripper as it is |
| `ConfigSettling.ModesSettleAtOnce` | stet/core/config.py:298-341 | one load is enough for the modes if and only if no structured prompt strips into an old spelling prompt at the first place, a retired one at the third, or a still structured one that begins its kept lines with white space |
| `ConfigSettling.OneStartExactly` | stet/core/config.py:111-341 | one start is enough if and only if it is for the templates and for the modes, in terms of what was saved |
| `ConfigSettling.StartsSettle` | stet/core/config.py:111-341 | from the second start on templates and modes on disk do not change any more |
| `ConfigSettling.OneStartIsNotEnough` | stet/core/config.py:333-341 | a prompt that loses its indentation on the second start |
| `ConfigSettling.SecondStartOverwrites` | stet/core/config.py:314-341 | a first prompt that makes the second start replace the user's own second prompt |
| `History.CorrectionHistory.Load` | stet/core/history.py:122-140 | the entries up to the end or to a read error, other lines passed over |
| `History.CorrectionHistory.Add` | stet/core/history.py:66-86 | the log is the last entries up to the limit of what was read and the new one; the id comes back even if saving failed |
| `History.CorrectionHistory.MarkUndone` | stet/core/history.py:99-107 | the first entry with the id is marked, and nothing else changes |
| `History.CorrectionHistory.Remove` | stet/core/history.py:109-116 | all entries with the id go, and nothing else changes |
| `History.UndoToken.Consume` | stet/core/history.py:41-46 | usable exactly if it was not used before and has not expired, and used from then on |
| `History.CorruptLinesPassOver` | stet/core/history.py:129-137 | a line that is no entry changes nothing wherever it stands |
| `History.RunKeepsOrder` | stet/core/history.py:66-120 | over any run what is stored is what was there and what was added, in that order, with some left out and some marked |
| `History.RunKeepsDistinct` | stet/core/history.py:66-120 | with fresh ids the stored ids stay distinct over any run |
| `History.AddsKeepTheLast` | stet/core/history.py:82-85 | a run of additions keeps exactly the last entries up to the limit |
| `History.BoundedAfterAdd` | stet/core/history.py:82-85 | from the first addition on there are never more entries than the limit |
| `History.BrokenRead` | stet/core/history.py:138-140 | a read that breaks off sees the whole log if and only if no entry stands behind the break |
| `ArchiveSafety.CheckMembers` | stet/update.py:202-224 | nothing is extracted unless every member is no link, not absolute, on no other drive and resolves into the destination; otherwise the first that is not is refused |
| `ArchiveSafety.InsideExactly` | stet/update.py:218-223 | a name resolves into the destination if and only if it names no other drive and, with all dots cancelled, it does not climb out, or comes back down through the destination's own names |
| `Updater.Installer.CopyFileAtomic` | stet/update.py:241-252 | done: the new file in place and no temporary; stopped anywhere: nothing but the temporary has changed |
| `Updater.Installer.Apply` | stet/update.py:465-481 | every unprotected file up to the first stop is installed, in order |
| `Updater.Installer.Update` | stet/update.py:298-481 | files change if and only if the version is newer, the digest matches or is missing and unsigned is allowed, the members are safe and the program is among them; then to the extracted files of its directory, up to the first stop; a wrong digest always ends it |
| `Updater.FindProgram` | stet/update.py:449-461 | the first listed directory with the program, else the top if it is there |
| `Updater.OnlyOldOrChecked` | stet/update.py:428-481 | after an update every path but a temporary holds its old bytes or, whole, those of an archive member that passed the check |
| `Updater.TempNeverProtected` | stet/update.py:227-252 | the temporary of an updated file never has the name of a protected file |
| `Updater.ProtectedKept` | stet/update.py:227-238 | models, configuration and logs keep their bytes |
| `Updater.ProtectedKeptWhereStopped` | stet/update.py:227-252 | also wherever an update stops |
| `Updater.OldOrNewWhereStopped` | stet/update.py:241-252 | wherever an update stops, every path but a temporary holds its old bytes, or whole the new ones of the last file for it |
| `Updater.InPlaceExactly` | stet/update.py:241-246 | after a full run a file of the archive is in place if and only if no later file has it for its temporary |
| `Updater.NeighbourIsLost` | stet/update.py:243-245 | an archive with a.updating before a loses the first |
| `Icns.BuildIcns` | build.py:196-221 | succeeds exactly for seven PNG strings of together under 2^32 bytes, and builds the container of their chunks |
| `Icns.VerifyIcns` | scripts/macos/verify_bundle.py:97-117 | no complaint exactly on accepted files; the scan ends on every input |
| `Icns.AcceptedExactly` | scripts/macos/verify_bundle.py:97-117 | accepted if and only if the file is a header and a run of chunks that covers all seven types |
| `Icns.ChunksUnique` | scripts/macos/verify_bundle.py:103-115 | the bytes determine the chunks |
| `Icns.WrittenIsAccepted` | build.py:196-221 | whatever the writer builds, the verifier accepts |
| `Newlines.CanonicalExpanded` | stet/core/input.py:191-198 | both normalisers are idempotent, the canonical form undoes the expansion, and texts without CR are their own canonical form |
| `Newlines.ExpandedSameIffCanonicalSame` | stet/core/clipboard.py:202-205 | two texts look the same on the clipboard if and only if they count as the same selection |
| `Newlines.PairedMeaning` | stet/core/clipboard.py:202-205 | the left-to-right test for paired line endings holds exactly if every CR is followed and every LF preceded by the other |
| `Newlines.ExpandedFixedExactly` | stet/core/clipboard.py:202-205 | expansion leaves a text alone if and only if every CR is followed and every LF preceded by the other |
| `Newlines.PasteRecognisedExactly` | stet/core/app.py:2612-2620 | the test whether the clipboard still holds the pasted text can succeed if and only if its line endings are paired and it holds no NUL |

## Left out

- JSON, UTF-8, HMAC and SHA-256 are functions given from outside; ids that are NaN, which equal nothing, are not JSON numbers here.
- The reader-less receive path (`_read_reply`), the hello exchange around the payload, reconnecting, and `_pending_requests`, which nothing ever fills.
- Writing a request is one step that works or not; partial writes and their lock are not modelled.
- ReplyRouting.EndToEnd: speaks of replies whose printing parses back; what a core sends that is not such a reply is covered by ReplyRouting.AnswersExact alone.
- Each clear of the pasteboard is taken to move its change count by one; a snapshot with the write after it, and the check of the count with the restore after it, are single steps.
- Whether the right application is in front is an answer of the environment; `AppIdentity.matches` is not modelled. The board's contents are compared as far as a snapshot can read them.
- ClipboardProtocol.UserContentComesBack: is for harmless runs. The runs it leaves out are those with a paste over a restore that can still go ahead, a capture over a held copy or over such a restore, a user's copy taken by a poll, a target's copy that no poll sees, or a write that fails; StepExactly shows that each of them loses the user's content unless the board shows it anyway.
- Windows clipboard calls, COM and the Windows capture path.
- GGUF values of `read_gguf_info` beyond the dictionary and the tensor flag, and draft models found beside the file, which are a parameter that the cache cannot see change.
- A file that changes between the examination and the read of one GGUF lookup.
- StreamWorker.Worker.Run: takes HTTP as a list of lines or an exception, and signals as a list; the closing of the session by stop is the exception the response may raise at any point.
- The pairing of packed answers with samples in the evaluation script, and its sample corpus.
- The Rust-hosted hotkey path, debouncing by time, and the notifications shown to the user.
- Hotkeys.Registrar.Register: takes the verdict of the parser and the answers of the system as functions of the combination, each of which is asked for at most once in a pass.
- MacHotkeys.HotkeyTable.Register: takes the event tap as granted or refused; the thread that runs it is not modelled.
- BusyLock covers the main thread and its workers; a handler that is killed together with the process is no case.
- Configuration: entries that are not JSON objects, names and prompts that are not strings, and the keys other than templates and modes. A key that is missing from the file has its default here.
- ConfigMigration.ResetThresholds: compares real numbers, without the rounding of floating point.
- History lines are values; that an entry is written on one line and read back the same is the round trip of JSON. Bytes that are not UTF-8 raise in the original and are not lines here.
- Updater.Installer.Update: takes the downloaded digest, the parsed checksum lines, the archive's members, where the library extracts each of them, and honest directory listings as inputs; downloads, asset names and version texts are not modelled.
- ArchiveSafety.CheckMembers: resolves names in a fresh directory, where no links lie in the way; how the library places a name with dots or a drive in it is an input of the update.
- File names are compared as they are written, as on a case-sensitive file system; directories in the way of a file are one of the errors at its replacement.
- User interface, prompts, the correction pipeline, installers, signing and packaging.
