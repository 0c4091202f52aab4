# Ruuvi firmware loader: a verified model

A Dafny 4.11 model of the parts of the Ruuvi Air firmware loader in which something can go wrong without a
driver being at fault: the search for the hardware revision in an MCUboot image, the threads that share the
LEDs and the reset, the inactivity timeout, the upload gate, the version strings and the error blink.
`dafny verify dfyconfig.toml` checks all of it.

| file | what it models |
|---|---|
| `Bytes.dfy` | integer widths, bitwise OR and shift, byte order, C strings |
| `TlvScan.dfy` | decoded TLV entries, the search over them, and its declarative meaning |
| `FlashScan.dfy` | the search over flash, with explicit 32-bit offsets (`fw_img_hw_rev.c`) |
| `FileScan.dfy` | the search over a file, with a cursor and short reads, and how it refines the other |
| `CutOff.dfy` | exactly where the two searches part, and two whole images on which they do |
| `TlvTheorems.dfy` | what the search does not depend on, serialisation, and the round trip |
| `Device.dfy` | the running device as a transition system: main, work queue, Bluetooth, interrupt, mutex, watchdog, clock |
| `DeviceLeds.dfy` | LED safety over all interleavings |
| `DeviceWatchdog.dfy` | feeding in time, the way to the reset, and clock, reset and request from the actions of a run |
| `DeviceHandlers.dfy` | the whole effect of a button work item that is taken up |
| `DeviceProgress.dfy` | from the button's edges and timers to their effects and back, and the display in runs without the button |
| `DeviceReset.dfy` | the timed reset bound and the reset funnel |
| `DeviceIdle.dfy` | the inactivity reboot over all runs of the device |
| `DeviceButton.dfy` | the work queue items of the button, and what a button reboot follows |
| `IdleTimeout.dfy` | the FS command counter, its poll, and main's count of inactive iterations |
| `Mgmt.dfy` | the mcumgr notifications |
| `PendingUpdates.dfy` | the file access hook and the reboot path's test for pending updates |
| `SemVer.dfy` | `semver_move_build_before_extra` and the shell's `-prod` test |
| `VersionText.dfy` | the printed image version that is compared in place of the version |
| `LedErr.dfy` | the error blink |

## How the source is represented

Code that fills structures, buffers and counters in place is a class or an array with methods (`HwRev`,
`FsFile`, `UploadMonitor`, `UpdateFs`, `ErrorBlink`, `MoveBuildBeforeExtra`); each is proved against a function
of its input or old state, or against a declarative statement, and the theorems are about those. The threads
are a transition system (`Device.dfy`): a state, an action for every statement of every thread that locks,
unlocks, or writes a flag, an LED, a timer or the watchdog, and an action for everything the environment
does. Program counters are named after the source line they stand at. A run is any sequence of enabled
actions, so a theorem over runs covers every interleaving. The state carries a log of what has happened, which
nothing in the device reads; the main theorems tie it to the actions of the run, or do without it.

Assumed interfaces:

- Flash reads deliver all bytes or fail and leave the buffer alone; file reads may be short, and leave the
  buffer alone where nothing is delivered. Which reads and seeks the device refuses is arbitrary.
- `off_t` is a signed 32-bit number on this target, so a read or seek at 2^31 or beyond is refused. This is
  why no 32-bit offset of the scan loops wraps, for any header: the only sum that can wrap is `ih_hdr_size +
  ih_img_size`, and `ImageEnd` wraps it as the code does.
- `boot_image_load_header` is not part of this model; whether it accepts the header is a parameter. The file
  search reads the header itself and does not look at its magic. The two Ruuvi type numbers are any two
  distinct 16-bit numbers: the header that defines them is not part of this model.
- `k_work_submit` leaves a queued item where it is, `k_work_reschedule` restarts the delay, cancelling removes
  the item from timer and queue. The mutex goes to any waiting thread. Bluetooth callbacks run one after
  another. The watchdog was started (`src/fwloader_watchdog.c:33-49`) and every feed succeeds; it resets the
  device when its deadline comes. LED writes succeed.
- The poll of the two upload counters (`src/fwloader_mcumgr_mgmt_callbacks.c:165-166`) is one step, after the
  test for a connection (`src/main.c:215`), which is a step of its own.
- A press before the modelled phase may have been handled, timed out or been followed by a release and its reboot
  work: the latch, the work items, the reboot request, the place of the work queue outside its LED sections and,
  with the latch set, the common state of the LEDs are arbitrary at the start. The reset bound after such a press
  counts from the start.

Where the code and what is said about it part:

- The code takes `it_tlv_tot` to count from the end of the TLV info header, MCUboot's design document (section
  "Image format") from its start. So the code examines one record header past the protected area.
  `ExtraHeaderExactly` says when that changes the answer; `ExtraHeaderMatters` has an image where it does.
- The scan does not check that a value ends before the TLV area does, and no theorem says so.
- The offset and the cursor search are meant to be one search, and differ at a value that is wanted and that the
  end of the image cuts short: the one rejects it, the other takes the bytes that are left, of a name or of an
  ID. `SearchesAgreeExactly` gives the exact condition, for the answer and for the contents; `LostByteOfName` and
  `LostBytesOfId` are whole images on which only the file search succeeds, with a wrong name and a wrong ID. The
  name is then followed by whatever the caller's buffer held (`NameCutShort`).
- Bluetooth is up before main's own LED section (`src/main.c:193`, `src/main.c:197-202`). A connection in
  between ends with both LEDs on (`BothLedsOn`); `DisplayExactly` says when the display is right.
- Files can be uploaded from `src/main.c:193` on, and the hook that gates them is registered at `src/main.c:195`.
  The theorems of `PendingUpdates.dfy` are about file systems whose files all came through the hook.
- The FS command counter has 32 bits, so a poll that finds a positive multiple of 2^32 new commands reports no
  activity (`FullRoundIsMissed`). So main can leave its loop early, never late, and `TimeoutsExactly` says exactly
  when it is early.
- The comment on `semver_move_build_before_extra` calls the strings core, EXTRA and BUILD of Semantic Versioning
  2.0.0. Its item 10 allows hyphens in BUILD, and with one two versions collide (`DashInBuildCollides`,
  `CollidesExactly`); `UndoneExactly` says which strings the inverse recovers.

## Model

| member | source | states |
|---|---|---|
| `Bytes.U32FromBytesBe` | src/fw_img_hw_rev.c:27-36 | the loop of shifted ORs reads four bytes as a big-endian number |
| `Bytes.OrByte` | src/fw_img_hw_rev.c:33 | each ORed byte lands below the ones already in place, so OR loses nothing |
| `TlvScan.ScanCharacterised` | src/fw_img_hw_rev.c:200-235 | over every entry list, from a cleared structure: success if and only if the list declares an ID and a name (first nonzero ID, first nonempty name, nothing malformed and no second ID or name up to the later of them), and then the result is that ID and that name up to its first NUL |
| `TlvScan.ScanExhibits` | src/fw_img_hw_rev.c:104-170 | soundness from any partly filled structure: a successful search comes with the indices of the two declaring entries |
| `TlvScan.DeclaredScans` | src/fw_img_hw_rev.c:104-170 | completeness from any partly filled structure: declared entries are found, with what was already held kept |
| `TlvScan.SuccessIsComplete` | src/fw_img_hw_rev.c:217-227 | success means that both items are there |
| `TlvScan.FailureLeaves` | src/fw_img_hw_rev.c:104-170 | from any unfinished structure: where a failing search stops, and the first ID and the first name it leaves, or what was held |
| `TlvScan.StopsOnce` | src/fw_img_hw_rev.c:203-230 | there is one such place |
| `TlvScan.ScanTerminated` | src/fw_img_hw_rev.c:142-166 | the 16-byte name holds a NUL after any search, found or not |
| `FlashScan.FlashAreaRead` | src/fw_img_hw_rev.c:48 | a flash read fills the buffer with the area's bytes, or fails and leaves it alone |
| `FlashScan.FindTlvsInFlashArea` | src/fw_img_hw_rev.c:38-66 | for every magic: the area is found exactly when its info header can be read and has the magic; its bounds do not wrap |
| `FlashScan.HandleTlvInFlashArea` | src/fw_img_hw_rev.c:104-170 | one record updates the structure in place as the entry with its decoded value does, or fails and leaves it as it was |
| `FlashScan.ScanTlvsInFlashArea` | src/fw_img_hw_rev.c:200-235 | the byte-level loop is the search over the decoded entries, ends on all data after at most a quarter as many rounds as there are bytes, and never wraps an offset |
| `FlashScan.FindInFlashAreaInternal` | src/fw_img_hw_rev.c:172-236 | result and structure after the whole search, for every area and every structure it starts from |
| `FlashScan.FindInFlashArea` | src/fw_img_hw_rev.c:238-258 | true if and only if the area opens and its records declare an ID and a name; then the structure holds exactly that ID and that name. When it fails over records, it has stopped at the first that is malformed or repeats an item already held, or at the end, with the first nonzero ID and the first nonempty name before that, each cleared where there is none; without records the structure is the cleared one. The name buffer always holds a NUL |
| `FlashScan.FlashFailureLeaves` | src/fw_img_hw_rev.c:232-235 | what a failed search leaves, for every content of the area |
| `FlashScan.ImageEndInBytes` | src/fw_img_hw_rev.c:193 | both sizes count: the TLV info header is looked for at the sum of the little-endian 16-bit number at byte 8 and the little-endian 32-bit number at byte 12, modulo 2^32 |
| `FlashScan.LoadedEndInBytes` | src/fw_img_hw_rev.c:181-193 | the same for a header that is read and accepted |
| `FlashScan.HeaderInBytes` | src/fw_img_hw_rev.c:202-205 | a record header is a little-endian type and a little-endian length |
| `FlashScan.ProtectedTotalInBytes` | src/fw_img_hw_rev.c:46-63 | the protected area begins with the bytes 08 69 and its little-endian total |
| `FlashScan.FlashCharacterised` | src/fw_img_hw_rev.c:172-236 | for every content of the area and every set of failing reads: success, ID and name are what the records declare |
| `FlashScan.FlashTerminated` | src/fw_img_hw_rev.c:166 | no search over flash leaves the name without a NUL |
| `FlashScan.ScanRound` | src/fw_img_hw_rev.c:203-230 | the search from an offset is one record and the search from the next offset |
| `FileScan.FsFile.Seek` | src/fw_img_hw_rev.c:78 | a seek moves the cursor or fails and leaves it |
| `FileScan.FsFile.Read` | src/fw_img_hw_rev.c:84 | a read delivers what is left of the file, moves the cursor by that much, and leaves the rest of the buffer alone |
| `FileScan.FindTlvsInFile` | src/fw_img_hw_rev.c:68-102 | for every magic: the info header, zero-filled if short, decides whether there is such an area and where it ends |
| `FileScan.HandleTlvInFile` | src/fw_img_hw_rev.c:260-318 | one record is handled with its value taken from wherever the cursor stands |
| `FileScan.SeekReadAndHandle` | src/fw_img_hw_rev.c:363-379 | a round of the loop: seek, read a header over the stale one, handle it |
| `FileScan.ScanTlvsInFile` | src/fw_img_hw_rev.c:358-393 | the cursor loop computes the recursive search on all files, stale headers and failing reads included, in at most a quarter as many rounds as there are bytes |
| `FileScan.ReadImageEnd` | src/fw_img_hw_rev.c:326-343 | the image end is known exactly when all 32 header bytes can be read, and is then the sum of both sizes in its bytes, modulo 2^32 |
| `FileScan.FindInFile` | src/fw_img_hw_rev.c:320-394 | result and structure after the whole search of a file; the name buffer always holds a NUL |
| `FileScan.FileTerminated` | src/fw_img_hw_rev.c:308-314 | also after short reads the name holds a NUL |
| `FileScan.SameHandling` | src/fw_img_hw_rev.c:284-314 | with the cursor four bytes past the record's start, both parsers do the same to the structure |
| `FileScan.SameScan` | src/fw_img_hw_rev.c:361-391 | loop against loop: same result and same structure, found or not found, whatever the stale header holds |
| `FileScan.FileRefinesFlash` | src/fw_img_hw_rev.c:320-394 | on the same bytes, with every read of the flash search inside the area, both searches return the same and leave the same ID and the same sixteen name bytes |
| `FileScan.FlashSuccessCarriesOver` | src/fw_img_hw_rev.c:172-236 | what the flash search finds the file search finds, with no condition on offsets |
| `CutOff.PastEnd` | src/fw_img_hw_rev.c:361-391 | once no record header fits, no stale or partial header ever makes the file search succeed or change its ID or name |
| `CutOff.LoopsCompared` | src/fw_img_hw_rev.c:200-230 | loop against loop on every content, from any unfinished structure: same answer, ID and name unless a wanted value is cut short with something left of it; then the flash search fails and the file search holds what is left |
| `CutOff.SearchesAgreeExactly` | src/fw_img_hw_rev.c:320-394 | for every image with an accepted header, without I/O errors: the two searches give the same answer, ID and name if and only if no wanted value is cut short; the file search succeeds if and only if the flash search does or what is left of a value completes the pair |
| `CutOff.RemainsExactly` | src/fw_img_hw_rev.c:284-314 | what is left of an ID counts if and only if one of its bytes is nonzero, of a name if and only if its first byte is, and it completes the pair if and only if the other item is held |
| `CutOff.CutOffNameParts` | src/fw_img_hw_rev.c:308-314 | for every nonempty name cut off after the ID, the cursor search succeeds and the offset search fails |
| `CutOff.CutOffIdParts` | src/fw_img_hw_rev.c:284-291 | the same for an ID cut off after the name, with a zero-padded ID |
| `CutOff.NameCutShort` | src/fw_img_hw_rev.c:308-314 | a whole image that ends within the name: the file search returns the part that is left, followed by what the buffer held |
| `CutOff.IdCutShort` | src/fw_img_hw_rev.c:284-291 | a whole image that ends within the ID: the file search returns the bytes that are left and zeros |
| `CutOff.LostByteOfName` | src/fw_img_hw_rev.c:293-316 | a concrete image with a two-letter name less its last byte: found in the file as one letter, not found in flash |
| `CutOff.LostBytesOfId` | src/fw_img_hw_rev.c:266-292 | a concrete image with ID 0x01020304 less two bytes: found in the file as 0x01020000, not found in flash |
| `TlvTheorems.ForeignTransparent` | src/fw_img_hw_rev.c:112-169 | the search depends on the Ruuvi entries alone, on every list, found or not |
| `TlvTheorems.ForeignInsertion` | src/fw_img_hw_rev.c:203-230 | any insertion or removal of other TLVs leaves the result as it was |
| `TlvTheorems.SinglePairFound` | src/fw_img_hw_rev.c:203-227 | one valid ID and one valid name are found wherever they stand |
| `TlvTheorems.PermutationInvariant` | src/fw_img_hw_rev.c:203-230 | any permutation of such a list leaves the result as it was |
| `TlvTheorems.SuffixIrrelevant` | src/fw_img_hw_rev.c:217-227 | entries after the one that completes the pair do not matter |
| `TlvTheorems.LaterBytesIrrelevant` | src/fw_img_hw_rev.c:203-230 | no byte past the value that completes the pair affects the search |
| `TlvTheorems.DecodeSerialised` | src/fw_img_hw_rev.c:200-230 | decoding serialised TLVs gives them back, then whatever follows |
| `TlvTheorems.EntriesOfImage` | src/fw_img_hw_rev.c:38-66 | over an image laid out as MCUboot does, the code sees the TLVs put in and one header more |
| `TlvTheorems.ExtraHeaderHarmless` | src/fw_img_hw_rev.c:62-63 | that header never changes a successful search, and no search at all unless it carries a Ruuvi type |
| `TlvTheorems.RoundTrip` | src/fw_img_hw_rev.c:172-236 | an image with one nonzero ID and one nonempty name among any other TLVs, before any bytes, whose header bytes announce its body, gives back the ID and the name put in |
| `TlvTheorems.ScanOfSum` | src/fw_img_hw_rev.c:203-230 | a search goes on into later entries exactly if every earlier one was handled and an item is still missing |
| `TlvTheorems.ExtraHeaderExactly` | src/fw_img_hw_rev.c:62-63 | the extra header changes the answer if and only if every TLV is handled, one item is then missing, and the extra record is readable and valid for it |
| `TlvTheorems.ExtraHeaderMatters` | src/fw_img_hw_rev.c:62-63 | an image where it does: a name TLV behind the protected area is found |
| `DeviceLeds.StepMutex` | src/fwloader_led.c:252-262 | every step of every thread keeps: a thread is in its critical section exactly when it holds the mutex |
| `DeviceLeds.StepLatch` | src/fwloader_button_cb.c:41-45 | every step keeps: with the latch set, no other thread is about to write an LED, and the LEDs agree outside the handlers' writes |
| `DeviceLeds.RunKeepsLeds` | src/fwloader_bluetooth.c:95-129 | every run keeps the four LED invariants |
| `DeviceLeds.WritesAreLocked` | src/fwloader_bluetooth.c:106-127 | in every run the thread about to write an LED holds the mutex, and no other thread is about to write one |
| `DeviceLeds.OnlyWritesChangeLeds` | src/fwloader_led.c:186-250 | nothing but an LED write changes an LED |
| `DeviceLeds.LatchStays` | src/fwloader_button.c:92-106 | the press latch is never cleared, and the instant of the press never changes |
| `DeviceLeds.NoRepaintAfterPress` | src/fwloader_button_cb.c:37-70 | once the latch is set, no statement of main or of a connect or disconnect callback changes an LED in any later state |
| `DeviceLeds.LedsAgreeAfterPress` | src/fwloader_button_cb.c:41-45 | once the latch is set, red equals green in every later state with the mutex free |
| `DeviceLeds.DisplayExactly` | src/main.c:197-202 | before a press or release is handled, at rest: green exactly when the last connection or disconnection among the actions of the run is a connection, and red exactly when not, except if and only if that connection stands with main's LED section later than its own |
| `DeviceLeds.ConnectionExactly` | src/fwloader_bluetooth.c:95-120 | outside the callbacks g_bt_is_connected says whether the last of them was a connection |
| `DeviceLeds.NeverBothOn` | src/fwloader_bluetooth.c:109-125 | until then the two LEDs are never on together, not even between two writes, but after main's section |
| `DeviceLeds.InitialState` | src/main.c:193-195 | there is a start of the modelled phase, with the button untouched |
| `DeviceLeds.BothLedsOn` | src/main.c:193-202 | that exception is reachable: a run with one connection and no disconnection that ends with both LEDs on |
| `DeviceReset.StepPress` | src/main.c:208-213 | every step keeps: at most one feed after the latch, and only by an iteration that had tested the latch before |
| `DeviceReset.ResetAfterPress` | src/main.c:208-213 | from a press on, in every run: the device runs at most 5000 ms past the last feed, there is at most one more feed, only if main stood at it, and no later state is more than 10000 ms after the press, or past the current deadline if main did not stand at the feed, whatever the 100 ms delays do |
| `DeviceReset.ResetAfterRequest` | src/main.c:208-213 | from any reboot request on, in every run: no state is later than the current deadline, or 5000 ms past it if main stands at the feed or at the test before it; so none is more than 10000 ms after the request |
| `DeviceWatchdog.FedEachIteration` | src/main.c:208-213 | without a press, main feeds in every iteration by its third step, or leaves its loop: the deadline is then 5000 ms or more past the start of the iteration |
| `DeviceWatchdog.HeldOff` | src/main.c:208-213 | so the watchdog cannot expire within 5000 ms of the start of an iteration that feeds |
| `DeviceWatchdog.NeverResetWhileLooping` | src/main.c:208-270 | without a press and as long as main does not reboot, the watchdog never expires when threads that can run do, and main is back at the feed exactly 1000 ms after the last one |
| `DeviceWatchdog.RebootPath` | src/main.c:280-326 | from the call to the reset primitive main takes eight steps, the four file checks first, and 25 ms or more |
| `DeviceWatchdog.FrozenAfterTrigger` | src/fwloader_watchdog.c:81-93 | after the reset primitive nothing changes but the clock, until the reset |
| `DeviceWatchdog.ClockAndReset` | src/fwloader_watchdog.c:33-40 | the clock counts the ticks of a run, and the device is reset if and only if the watchdog has expired |
| `DeviceWatchdog.RequestExactly` | src/main.c:329-336 | the request flag is set if and only if another thread has called sys_reboot or the work queue has and is parked |
| `DeviceReset.ClockOrReset` | src/fwloader_watchdog.c:33-40 | time is never stuck short of a reset, and the watchdog resets exactly 5000 ms after the last feed |
| `DeviceReset.OnlyMainResets` | src/main.c:277-338 | in every run only main executes the reset primitive; a work queue that asked for a reboot has left its request and holds no mutex |
| `DeviceReset.ParkedForEver` | src/main.c:332-336 | and it stays parked: no run from then on contains a step of the work queue |
| `DeviceReset.StepTowardsReset` | src/main.c:208-271 | with a request pending, every step of main decreases a measure and no other step moves main |
| `DeviceReset.RequestReachesReset` | src/main.c:208-271 | a request is never withdrawn, and main has executed the reset after at most 17 further steps of its own |
| `DeviceReset.MainNeverStuck` | src/main.c:197-272 | until then main can run, or waits for a clock that advances, or for a mutex holder that can run |
| `DeviceReset.OthersNeverStuck` | src/fwloader_button_cb.c:37-76 | nor are the others: until main triggers the reset, the work queue and a Bluetooth callback can run, but for an empty or parked queue, or wait for a mutex holder that can run |
| `DeviceReset.EnvironmentFree` | src/fwloader_button_cb.c:78-92 | edges of the button, FS commands and reboot requests can come at any time of a run, connections between callbacks, and timers when they are due |
| `DeviceReset.HolderRuns` | src/fwloader_button_cb.c:72-76 | no thread waits or parks inside its critical section |
| `DeviceIdle.EventsObserved` | src/main.c:215-231 | the history is that of the run: its FS commands, and for every poll an iteration with the connection as it stood when main tested it |
| `DeviceIdle.InactivityReboot` | src/main.c:207-236 | in every run of the device, of that history: at the test, main reboots exactly when the iteration it polled is the first to end 180 consecutive ones without credit, and it is the first to end 180 inactive ones if and only if main reboots and none of those 180 is missed |
| `DeviceIdle.WaysToReboot` | src/main.c:208-271 | main enters the reboot path only by that test or by the request flag |
| `DeviceIdle.CounterAtTest` | src/main.c:232-236 | at the test the counter is the length of the run without credit, also with FS commands since the poll |
| `DeviceIdle.QuietForSeconds` | src/main.c:238-267 | from any moment at which the counter is zero, the inactivity reboot is at least 179 s away |
| `DeviceButton.StepQueue` | src/fwloader_button_cb.c:84-91 | every step keeps work items single, and queues the timeout and the delayed reboot only when their timers expire |
| `DeviceButton.ButtonRebootExplained` | src/fwloader_button_cb.c:37-76 | in every run the button's reboot work asks for a reboot only 100 ms or more after the LEDs were switched off for it, after a release or 5000 ms or more after a press |
| `DeviceHandlers.PressHandled` | src/fwloader_button_cb.c:37-47 | a press that is taken up is handled in seven steps of the work queue, whatever runs in between: latch set, both LEDs on, the timeout due 5000 ms from the handling |
| `DeviceHandlers.ReleaseHandled` | src/fwloader_button_cb.c:49-59 | a release likewise: timeout withdrawn, both LEDs off, the reboot due 100 ms from the handling |
| `DeviceHandlers.TimeoutHandled` | src/fwloader_button_cb.c:61-70 | the timeout likewise: both LEDs off, the reboot due 100 ms from the handling |
| `DeviceProgress.PressLatches` | src/fwloader_button_cb.c:78-87 | a press of the button sets the latch within 41 steps of the work queue, unless a reboot is handled before |
| `DeviceProgress.ReleaseReboots` | src/fwloader_button_cb.c:49-70 | within 41 steps a release, or the timeout of a press, has led to the delayed reboot |
| `DeviceProgress.ExpiryRequests` | src/fwloader_button_cb.c:72-76 | when that delay expires, main is asked to reboot within 44 steps |
| `DeviceProgress.ButtonTraced` | src/fwloader_button_cb.c:37-91 | and back, from any moment without work of the button: the latch is set only by a press among the actions of the run, and the button's reboot comes only of a release, 100 ms or more from that moment, or of a press, 5100 ms or more |
| `DeviceProgress.DisplayWithoutButton` | src/fwloader_bluetooth.c:95-129 | in a run without an edge of the button the LEDs at rest show the connection, with the one exception |
| `DeviceProgress.AdvertisesAgain` | src/fwloader_bluetooth.c:128 | when the callback of a disconnection is over, advertising is queued again |
| `DeviceButton.ReleaseCancelsTimeout` | src/fwloader_button_cb.c:52 | a release withdraws the press timeout from timer and queue, and nothing else |
| `IdleTimeout.CountersDiffer` | src/fwloader_mcumgr_mgmt_callbacks.c:161-168 | on every history the two counters differ by the unpolled commands modulo 2^32 |
| `IdleTimeout.PollExactly` | src/fwloader_mcumgr_mgmt_callbacks.c:165 | the poll reports activity if and only if the unpolled commands are not a multiple of 2^32 |
| `IdleTimeout.PendingExactly` | src/fwloader_mcumgr_mgmt_callbacks.c:161-168 | commands are unpolled exactly when one came after the last connected iteration |
| `IdleTimeout.PollCredits` | src/main.c:215-231 | on every history the poll answers whether the iteration gets credit: connected, and the unpolled commands not a multiple of 2^32 |
| `IdleTimeout.CreditExactly` | src/fwloader_mcumgr_mgmt_callbacks.c:165 | credit tells active from inactive if and only if the iteration is not one that finds a positive multiple of 2^32 commands |
| `IdleTimeout.ActiveExactly` | src/main.c:215-231 | on every history the poll answers whether the iteration is an active one, if and only if it does not miss one |
| `IdleTimeout.CounterIsRun` | src/main.c:207-231 | on every history `uploading_timeout_cnt` is the length of the current run of iterations without credit |
| `IdleTimeout.RunsAgreeExactly` | src/main.c:207-231 | that run is the run of inactive iterations, at every moment, if and only if no active iteration is missed |
| `IdleTimeout.FewCommandsMissNothing` | src/fwloader_mcumgr_mgmt_callbacks.c:79 | with fewer than 2^32 commands between polls none is |
| `IdleTimeout.FullRoundIsMissed` | src/fwloader_mcumgr_mgmt_callbacks.c:165 | a concrete history in which one is: 2^32 commands and a poll |
| `IdleTimeout.RunExactly` | src/main.c:215-231 | on every history main counts at least the run of inactive iterations, and exactly that if and only if no iteration in the counted run is missed |
| `IdleTimeout.TimeoutsExactly` | src/main.c:232-236 | while main loops: an iteration is the first to end 180 inactive ones if and only if main leaves its loop there and none of the last 180 is missed |
| `IdleTimeout.NeverLate` | src/main.c:232-236 | main is never late: it does not loop on past the first 180 inactive iterations |
| `IdleTimeout.TimeoutsAgree` | src/main.c:232-236 | where none is missed, the loop is left at the first iteration that ends 180 inactive ones and at no other |
| `IdleTimeout.RunMeaning` | src/main.c:207-231 | the run of inactive iterations counts those after the last active one |
| `IdleTimeout.UploadMonitor.MgmtCbCmdRecv` | src/fwloader_mcumgr_mgmt_callbacks.c:56-89 | the counter advances for an FS command and for no other event |
| `IdleTimeout.UploadMonitor.IsUploadingInProgress` | src/fwloader_mcumgr_mgmt_callbacks.c:161-168 | the poll compares the counters and evens them |
| `IdleTimeout.UploadMonitor.CountIteration` | src/main.c:215-236 | one iteration's effect on the three counters |
| `IdleTimeout.UploadMonitor.RunLoop` | src/main.c:207-236 | over every history the loop is left at the first iteration that ends 180 consecutive ones without credit, and at no other |
| `PendingUpdates.PresentExactly` | src/fwloader_mcumgr_mgmt_callbacks.c:128-140 | a file is present if and only if it is one of the four and some request for it was stored: it appears, and it stays |
| `PendingUpdates.OnlyUpdateFiles` | src/fwloader_mcumgr_mgmt_callbacks.c:103-141 | on every history of uploads through the hook to the formatted file system, with paths that fit the buffer, only the four update files are present |
| `PendingUpdates.PendingFilesExactly` | src/main.c:290-306 | pending updates are reported exactly when the file system is nonempty, on all histories, if and only if each path the hook prints, truncated or not, is one the reboot path looks for |
| `PendingUpdates.UpdateFs.constructor` | src/main.c:94-130 | formatting leaves no files |
| `PendingUpdates.UpdateFs.CheckIsFilePathEqualToName` | src/fwloader_mcumgr_mgmt_callbacks.c:91-101 | the comparison is with the path as it fits the buffer |
| `PendingUpdates.UpdateFs.MgmtCbFileAccess` | src/fwloader_mcumgr_mgmt_callbacks.c:103-141 | access is refused, with group and code, exactly for the event of a file that is not one of the four |
| `PendingUpdates.UpdateFs.Write` | src/fwloader_mcumgr_mgmt_callbacks.c:128-140 | a request leaves exactly the files that its history allows |
| `PendingUpdates.UpdateFs.AppFsIsFileExist` | src/main.c:133-151 | true exactly for a present regular file |
| `PendingUpdates.UpdateFs.FlagUpdatesAvailable` | src/main.c:290-306 | the flag is set exactly when one of the four files is present, and with fitting paths exactly when any file is |
| `SemVer.MoveBuildBeforeExtra` | src/fwloader_fw_ver.c:55-126 | succeeds on non-null arguments exactly when the buffer holds the string and its NUL; writes the rearrangement, terminated; touches nothing past the NUL when it rearranges, and nothing at all when it fails |
| `SemVer.WriteParts` | src/fwloader_fw_ver.c:104-113 | the moving pointer writes the three parts and the NUL behind one another and nothing else |
| `SemVer.PartsInOrder` | src/fwloader_fw_ver.c:80-95 | both orders of the markers give the specified rearrangement |
| `SemVer.Rearrangement` | src/fwloader_fw_ver.c:53 | the output has the input's length and multiset of characters |
| `SemVer.Idempotent` | src/fwloader_fw_ver.c:65-113 | rearranging twice is rearranging once, on every string |
| `SemVer.IdentityExactly` | src/fwloader_fw_ver.c:88-123 | the string is unchanged if and only if '+' comes first or a marker is missing |
| `SemVer.UndoneExactly` | src/fwloader_fw_ver.c:80-113 | the inverse recovers a core-EXTRA+BUILD string if and only if every dash of BUILD has a plus after it; a BUILD without dashes qualifies |
| `SemVer.Injective` | src/fwloader_fw_ver.c:80-113 | no two such strings have the same rearrangement |
| `SemVer.CollidesExactly` | src/fwloader_fw_ver.c:80-113 | a core-EXTRA+BUILD string shares its rearrangement with another one if and only if EXTRA has a dash or BUILD has one with no plus after it |
| `SemVer.DashInBuildCollides` | src/fwloader_fw_ver.c:80-113 | a concrete pair: 1-a+b-c and 1-c-a+b become the same string |
| `SemVer.RearrangedOf` | src/fwloader_fw_ver.c:44-47 | put together from its parts, core-EXTRA+BUILD becomes core+BUILD-EXTRA |
| `SemVer.IsProdExactly` | src/shell_cmd_ruuvi.c:45-49 | the `-prod` test on the rearranged version holds exactly when EXTRA is `prod` or ends in `-prod`, whatever core and build are |
| `VersionText.NumberOfDecimal` | src/fwloader_fw_ver.c:158 | reading a printed number gives it back |
| `VersionText.NoLeadingZero` | src/fwloader_fw_ver.c:158 | a printed number has no leading zero |
| `VersionText.ReadsBack` | src/fwloader_fw_ver.c:155-162 | reading the text between the separators gives major, minor, revision and build number, in this order |
| `VersionText.PrintedLength` | src/fwloader_fw_ver.c:154-162 | a printed version has at most 24 characters |
| `VersionText.NeverTruncated` | src/fwloader_fw_ver.c:154-162 | so the 32-byte buffer never truncates it |
| `VersionText.PrintedInjective` | src/fwloader_fw_ver.c:155-162 | equal texts come from equal versions |
| `VersionText.ComparisonDecides` | src/fwloader_fw_ver.c:171-193 | comparing the text with another printed version decides equality of all four fields |
| `LedErr.ErrorBlink.CheckIfButtonReleasedAndPressed` | src/fwloader_led_err.c:23-45 | a sample completes the first edge, or leaves the search waiting with the flag saying what the last sample was |
| `LedErr.ErrorBlink.SampleFor` | src/fwloader_led_err.c:58-65 | a delay samples the button every 10 ms with the LED steady, unless an edge ends it |
| `LedErr.ErrorBlink.Blink` | src/fwloader_led_err.c:47-78 | the LED shows the blinks, or a prefix of them that the first edge or the end of the observation cut off |
| `LedErr.CodeBlinks` | src/fwloader_led_err.c:91-95 | a round of the code comes on two times and once for each blink of the code, 10 samples each, with 50 samples of darkness after the first two and 100 after the others |
| `LedErr.ErrorBlink.BlinkRedLed` | src/fwloader_led_err.c:80-96 | on every observed sample stream and for every blink count: a reboot is requested at the first sample that is pressed after a released one and never without one, and all the while red shows rounds of the code and green is off |

## Left out

- Device: the threads are modelled on values, not as classes, because each statement is a step of its own that any other thread can follow; a method would run to its end.
- The code before `src/main.c:195`, early initialisation and the switch to PWM: they write LEDs without the mutex, before the modelled phase. Button work left over from then is covered by the arbitrary start.
- Debug builds and builds without the watchdog, which reset through `__real_sys_reboot` and have no deadline.
- A watchdog that fails to start or to be fed, and LED writes that fail: the source logs these and goes on, and the timed bound and the display do not hold then.
- FlashScan.FlashAreaRead: what a read that fails half-way leaves in the buffer is the driver's business; the model takes it to leave the buffer alone.
- LedErr.ErrorBlink.BlinkRedLed: the endless loop is followed over finite observations of the button of any length; the sleep before the reboot is left out.
- FileScan.FileRefinesFlash: equality of all sixteen bytes of the name buffer is stated for reads inside the area, a sufficient condition; for the answer, the ID and the name string `CutOff.SearchesAgreeExactly` has the exact one.
- IdleTimeout.PollCredits: a command between the two reads of the poll is not modelled, because the poll is one step; such a command would go uncredited.
- PendingUpdates.UpdateFs.Write: an upload before the hook is registered (`src/main.c:193-195`), and LittleFS beyond whether a file can be stored, such as a full file system while writing, deletion, and a failing mount. Directories do not arise, since no request makes one.
- `fw_img_get_image_info`, `fw_img_print_image_info`, the id-to-string and flash-area-id switches, and `radio_address_get`: single-branch facts or easy ones.
- GPIO, PWM, I2C, the RGB LED and its animations, supercap, external flash power, settings, advertising parameters, statistics, logging, RTT checks and shell printing: no algorithm.
- Zephyr, MCUboot, LittleFS and mcumgr themselves: assumed interfaces, as listed above.
- Build scripts, CMake, Kconfig and device tree files.
