# Verified models of the SHD host and firmware algorithms

A Dafny project about the parts of the SHD repository that compute, search or talk a protocol: the DFT behind
the ASCII spectrum display, the property tree, the TX DC-offset calibration, the three firmware burners with
the device code at the other end of the wire, and five smaller stateful pieces. Every property is proved for
all inputs, all runs or all schedules. `dafny verify dfyconfig.toml` checks the whole project.

| file | what it models |
|---|---|
| `Rings.dfy`, `Dft.dfy` | the Cooley-Tukey recursion, over any commutative ring |
| `PropertyPaths.dfy`, `PropertySpec.dfy`, `PropertyTree.dfy` | paths as strings and as tokens; the tree as a map; the tree on the heap, with views that share it |
| `GridSearch.dfy` | the shrinking grid search, over exact reals |
| `LinearRegister.dfy`, `Crc16.dfy` | linear shift registers in general, and the 16-bit CRC that both ends of the OctoClock burn compute |
| `OctoClock.dfy`, `OctoClockRuns.dfy` | the OctoClock burner, its bootloader, and a network that loses, repeats, reorders and delays; what the bootloader starts over any run |
| `SpiFlash.dfy`, `N2xxBurner.dfy` | the NOR flash of the N2xx and its driver; the Python burner, the packet handler, and the checks of the bootloader |
| `X3xxBurner.dfy` | the X3x0 burner and the programming handler on the board |
| `Charger.dfy` | the E310 charger driver, interleaved with its interrupt handler and its chip |
| `Capture.dfy` | the packet list of shd_dump |
| `SymbolCache.dfy` | the incremental cache of make-dissector-reg.py |
| `CounterSets.dfy`, `SerialEvents.dfy` | the counters and the serial event lines of the B2xx side channel |
| `Wrappers.dfy` | the option type that the others share |

Each method that loops or changes state is proved against a function or a relation on states; the lemmas then
say what that function does. Choices that belong to the hardware, the network or the scheduler are made by
unconstrained variables, so a method's contract holds whatever they turn out to be.

## What the proofs found

Where the code does less than its comments, its callers or its documentation suggest, the model follows the
code, and the exact condition under which the expectation holds is proved.

- OctoClock addresses and lengths are 16 bits, though images may be 120 KiB. A burn on a perfect network always
  returns (`BurnFirmware`), and stores the image if and only if it fits 64 KiB (`LosslessBurn`); the verification
  passes a longer one exactly when the part beyond 64 KiB repeats what it overwrote (`LosslessVerification`,
  `BurnImage`), so it can pass a burn that failed (`WrongBurnVerifies`). Nothing above 0x10000 is ever written. `verify_firmware` never advances
  `current_pos`, so for images shorter than one block it compares the whole image and otherwise a whole block.
- The bootloader's check overwrites the announced CRC with the one it computed. If the check fails and the
  finishing packet arrives again, what is stored is the CRC of whatever is in the flash, and the application is
  started (`FinishTwice`). Over any run after an announcement, the application is started with the CRC that the
  last end found (`StartedWithWhatTheLastEndFound`); while no block arrives, that is not the announced one if and
  only if an end came after a check (`UnannouncedIffEndAfterCheck`). In a run of the utility with an image of up
  to 64 KiB, once the bootloader has the announcement the application is only ever started with that image in the
  flash (`BurnImage`). Before that, the check one second after power-up may start the application that was there.
- The CRC detects every burst of up to 16 bits (`BurstsAreDetected`) and every one of 17 but one: the difference
  that is the generator itself (`SeventeenBits`).
- `remove` on a path that is written with a trailing slash throws a key error even if the path exists; the
  exact condition for success is part of `RemoveIsExact`.
- The N2xx bootloader loads 0x3FFF bytes of firmware, while the burner accepts 31744; it loads the whole image
  exactly when the image is no longer than 0x3FFF (`BootLoadsWholeFirmware`). Neither validity check demands that
  only ones precede the sync word, whatever the comment says; both ends agree on every image all the same.
- `write_image` does not notice that the unit refuses a last packet whose filling ends past the memory; at a
  multiple of 256, where the slots are, there is none (`WriteImage`).
- The X3x0 burner does not notice when the reply to its first packet is lost or comes too late, and replies do not
  tell what they answer. So a burn can return with the flash window never opened; and if that first reply came
  late, each later one is taken for the answer to the packet after it, and one data packet can go wrong without
  notice. Without a window, a burn that returns has changed nothing. With one, the flash holds the image if and
  only if no packet went wrong, or the one that was lost had nothing to add (`Harmless`); if the board made an
  error in it, its sector may hold anything (`EthernetBurn`). For every non-empty image there is a faultless board
  on which a burn has returned without storing it, after a late first reply and the loss of one data packet
  (`LateReply`). There is one after the loss of the first packet alone, too, provided that what answers in place of
  the window satisfies the polls of the board as the flash would (`LostInit`). All this is for a network that
  delivers requests in order, if at all, and duplicates nothing.
- A charger event can come at any moment, between two checks or at any point of one. It is lost exactly when the
  flag is down, the registers change in what the check at work has read already - or, between checks, from what is
  recorded - and either the line rises before its handler runs or it was still low, so that there was no edge
  (`OneChange`, `FirstChangeLost`, `SecondChangeLost`). If none of the changes is of that kind, no event is lost
  in any run (`Run`).
- A file called `_VERSION` makes every cached run of make-dissector-reg.py crash (`RunIsUncached`). Otherwise the
  cache is safe, for all sequences of runs over given states of the files, if and only if a modification time
  stands for what a scan finds (`SafeIffTimesTell`); an edit that keeps the time is stale exactly when it changes
  that (`StaleEntry`).
- A `counter_set` stores what it is given exactly when no name stands for two places or for something of the
  object's own, since counters are attributes of the object that also holds its methods (`LawIffUnambiguous`). A
  counter called `_counter_names` cannot be made (`UnsettableFails`); one called `_update` hides the routine, so
  that no message stores anything (`HiddenUpdate`); one called `_fmt_str` loses every message but the first
  (`FormatOverwritten`); of two counters of one name the second value is read back twice (`SameNameTwice`).
- `_update` raises at the end of its data whenever the set does not end in a counter, though everything has been
  stored by then (`RefreshStoresAll`, `EmptySetLast`). The set of counters in the repository does end in counters.

## Model

| member | source | states |
|---|---|---|
| Dft.GuardIsPow2 | host/examples/ascii_art_dft.hpp:159-160 | the bit trick of the guard lets through exactly the powers of two, for unsigned integers of any width |
| Dft.StrideFits | host/examples/ascii_art_dft.hpp:87-96 | the recursion over a stretch of samples never indexes outside it |
| Dft.ReadOnce | host/examples/ascii_art_dft.hpp:92-94 | the recursion reads every sample of its stretch exactly once |
| Dft.NotRead | host/examples/ascii_art_dft.hpp:92-94 | and nothing outside it |
| Dft.CtFftFIsSum | host/examples/ascii_art_dft.hpp:87-96 | for every ring element w, with w^(2^j) in the factor table, the strided recursion is the plain sum of x[n] w^n, and it never reads past the table |
| Dft.Factors | host/examples/ascii_art_dft.hpp:102-106 | the factor loop terminates with log2(N)+1 entries, entry j being the 2^j-th power of the bin's root |
| Dft.CtFftK | host/examples/ascii_art_dft.hpp:99-108 | one bin computed by the fast recursion is the defining sum over all samples |
| Dft.AllBins | host/examples/ascii_art_dft.hpp:156-198 | other lengths than powers of two (and zero) are refused; otherwise bin k of the result is the sum for k |
| Dft.Orthogonality | host/examples/ascii_art_dft.hpp:99-108 | with w^(N/2) = -1, the powers of w^d add up to N if N divides d and to zero otherwise, in any commutative ring |
| Dft.Inversion | host/examples/ascii_art_dft.hpp:99-108 | the bins turned back add up to N times each sample |
| Dft.BinsDetermineSamples | host/examples/ascii_art_dft.hpp:186-195 | two sample arrays with the same complex bins are the same |
| Dft.ComplexIsRing | host/examples/ascii_art_dft.hpp:87-96 | pairs of reals with complex addition and multiplication are such a ring |
| Dft.RootIsExp | host/examples/ascii_art_dft.hpp:104-106 | in every lawful ring, the powers of any w with w^(N/2) = -1 have all that is asked of the complex exponential |
| Dft.ExpIsRootExp | host/examples/ascii_art_dft.hpp:104-106 | and nothing else has: an exponential that has it takes the value -1 after N/2 steps and is made of its value at one |
| Dft.InversionFromRoot | host/examples/ascii_art_dft.hpp:99-108 | so w^(N/2) = -1 is enough for the bins turned back to add up to N times each sample |
| Dft.FourPoints | host/examples/ascii_art_dft.hpp:104-106 | in the complex numbers -i is such a root for four points |
| PropertyPaths.TokensOfJoin | host/lib/property_tree.cpp:54-66 | joining two paths terminates and the tokens of the result are those of the parts, for all strings |
| PropertyPaths.JoinIsExact | host/lib/property_tree.cpp:54-66 | a joined path is the left part without the slashes at its end, one slash, and the right part without those at its beginning |
| PropertyPaths.JoinEndsInSlash | host/lib/property_tree.cpp:54-66 | a joined path ends in a slash exactly when its second part is empty or ends in one |
| PropertyPaths.TokensOfNesting | host/lib/property_tree.cpp:86-93 | joining any list of paths, one after the other, gives the tokens of all of them in order |
| PropertyPaths.LeafIsLastToken | host/lib/property_tree.cpp:42-52 | unless a path ends in a slash its leaf is its last token, and its branch holds the others |
| PropertyPaths.LeafOfSlash | host/lib/property_tree.cpp:42-46 | after a trailing slash the leaf is empty |
| PropertyPaths.TokensAreNames | host/lib/property_tree.cpp:31-33 | no token of a path is empty or holds a slash |
| PropertySpec.EnsureStep | host/lib/property_tree.cpp:139-143 | walking one name further in a creation adds that child last in its parent's list, or nothing if it is there |
| PropertySpec.CreateKeepsWellFormed | host/lib/property_tree.cpp:135-146 | creation keeps the tree closed under prefixes, with distinct children that are all nodes |
| PropertySpec.CreateThenAccess | host/lib/property_tree.cpp:135-159 | a creation fails exactly where a property exists and then changes nothing; else the property is read back at its path, all others are as before, the new nodes are the missing prefixes, and children keep their order |
| PropertySpec.RemoveKeepsWellFormed | host/lib/property_tree.cpp:95-108 | removal keeps the tree well formed |
| PropertySpec.RemoveIsExact | host/lib/property_tree.cpp:95-108 | removal succeeds exactly on an existing path that is not the root and has no trailing slash; it deletes exactly the paths that extend it, and the siblings keep their order; a failure changes nothing |
| PropertySpec.RemoveUndoesCreate | host/lib/property_tree.cpp:95-108 | removing a child that has just been created restores the tree |
| PropertySpec.AnswersAreExact | host/lib/property_tree.cpp:95-159 | a list names each child once and nothing else; a property is had exactly where there is one; and which error each call gives for which path |
| PropertySpec.CreatedIsListedLast | host/lib/property_tree.cpp:122-146 | a child that is created comes last in its parent's list |
| PropertySpec.RemovedIsListedNoMore | host/lib/property_tree.cpp:95-133 | a child that is removed is taken out of its parent's list, and the others keep their places |
| PropertySpec.RunsKeepWellFormed | host/lib/property_tree.cpp:95-159 | every tree that any sequence of calls leads to is well formed |
| PropertyTree.Node.Pop | host/include/shd/types/dict.ipp:125-136 | popping a key erases the first pair that has it, and throws when there is none |
| PropertyTree.Tree.Subtree | host/lib/property_tree.cpp:86-93 | a view shares the guts, and its paths stand for the concatenated ones |
| PropertyTree.Tree.Exists | host/lib/property_tree.cpp:110-120 | the walk on the heap finds a node exactly when the path is in the map |
| PropertyTree.Tree.ListKids | host/lib/property_tree.cpp:122-133 | the children in the order of their creation, or the lookup error |
| PropertyTree.Tree.AccessProp | host/lib/property_tree.cpp:148-159 | the property, or which of the two errors, as the map says |
| PropertyTree.Tree.Remove | host/lib/property_tree.cpp:95-108 | the mutable tree and the result, every error included, are those of the map |
| PropertyTree.Tree.Create | host/lib/property_tree.cpp:135-146 | the mutable tree and the result are those of the map, on failure too |
| PropertyTree.Nest | host/lib/property_tree.cpp:86-93 | a view reached through any nesting of subtrees acts at the concatenation of all the paths |
| PropertyTree.CreateHereReadThere | host/lib/property_tree.cpp:86-93 | what is created through one view is read through every other that shares the guts |
| PropertyTree.AllAnswered | host/lib/property_tree.cpp:86-159 | any list of calls, each through any nesting of views, leaves the tree that the map becomes and gives exactly the map's answers, reads and errors included |
| GridSearch.FloorShrinks | host/utils/shd_cal_tx_dc_offset.cpp:227-255 | dividing the step by three lowers the number of times the precision fits into it, so the search ends |
| GridSearch.CountIsLeast | host/utils/shd_cal_tx_dc_offset.cpp:227-255 | the number of rounds is the least that brings the step below the precision |
| GridSearch.ScanRow | host/utils/shd_cal_tx_dc_offset.cpp:231-246 | the inner loop is the scan of its five interior points |
| GridSearch.ScanGrid | host/utils/shd_cal_tx_dc_offset.cpp:229-247 | the outer loop is the scan of its five rows |
| GridSearch.Calibrate | host/utils/shd_cal_tx_dc_offset.cpp:217-262 | the loops compute the search, for every measurement and every positive precision, and keep the result exactly when it beats the initial reading |
| GridSearch.RoundFinds | host/utils/shd_cal_tx_dc_offset.cpp:229-247 | one round ends with the least level over its 25 points and the one it started with, held at a point where it was measured |
| GridSearch.BracketsNest | host/utils/shd_cal_tx_dc_offset.cpp:249-254 | each bracket lies in the one before, so all trials lie strictly inside the first |
| GridSearch.SearchIsMinimum | host/utils/shd_cal_tx_dc_offset.cpp:217-255 | all corrections tried lie strictly inside (-1,1), and the best level is the minimum of the initial reading and everything measured |
| GridSearch.RoundKeepsOptimum | host/utils/shd_cal_tx_dc_offset.cpp:229-254 | for a level that increases with the sum of two strictly unimodal terms, the optimum stays in the new bracket on both axes |
| GridSearch.CalibrationConverges | host/utils/shd_cal_tx_dc_offset.cpp:217-255 | on exit each correction is within three times the precision of the optimum |
| LinearRegister.SerialLinear | host/utils/octoclock_firmware_burner.cpp:81-93 | feeding a linear register is linear in its start and its input together |
| LinearRegister.ZerosKeep | host/utils/octoclock_firmware_burner.cpp:81-93 | zeros fed in never make a non-zero register zero |
| LinearRegister.ShortBurst | host/utils/octoclock_firmware_burner.cpp:81-93 | a non-zero burst no longer than the register leaves a non-zero register |
| LinearRegister.BurstSeparates | host/utils/octoclock_firmware_burner.cpp:81-93 | streams that differ within one register width only end in different registers |
| LinearRegister.LongerBurst | host/utils/octoclock_firmware_burner.cpp:81-93 | streams that differ within one bit more than the width end in one register exactly when their difference is the generator |
| Crc16.CalculateCrc | host/utils/octoclock_firmware_burner.cpp:81-93 | the two loops compute the CRC function of the bytes asked for |
| Crc16.CrcConcat | host/utils/octoclock_firmware_burner.cpp:81-93 | the CRC of a concatenation continues from the CRC of its first part |
| Crc16.CrcOfNothing | host/utils/octoclock_firmware_burner.cpp:82 | the CRC of nothing is 0xFFFF |
| Crc16.CheckValue | host/utils/octoclock_firmware_burner.cpp:81-93 | the CRC of the nine digits is 0x4B37 |
| Crc16.Register16IsLawful | host/utils/octoclock_firmware_burner.cpp:86-89 | the shift-and-xor step with 0xA001 is linear over bits, and invertible on zero input |
| Crc16.CrcIsSerial | host/utils/octoclock_firmware_burner.cpp:84-90 | mixing in a byte and stepping eight times is feeding its bits one by one, least significant first |
| Crc16.BurstsAreDetected | host/utils/octoclock_firmware_burner.cpp:81-93 | buffers of any one length whose difference is non-zero and within 16 consecutive bits never share a CRC |
| Crc16.SeventeenBits | host/utils/octoclock_firmware_burner.cpp:81-93 | buffers that differ within seventeen consecutive bits share a CRC if and only if the difference is a one followed by the bits of 0xA001 |
| Crc16.SeventeenBitsCollide | host/utils/octoclock_firmware_burner.cpp:81-93 | there are two such buffers |
| OctoClock.Bootloader.Handle | firmware/octoclock/bootloader/main.c:153-196 | the whole new state and the reply of the bootloader, for each kind of packet |
| OctoClock.Bootloader.ValidApp | firmware/octoclock/bootloader/main.c:125-131 | whether flash and EEPROM agree, and that the announced CRC is overwritten |
| OctoClock.Bootloader.Poll | firmware/octoclock/bootloader/main.c:263-274 | one turn of the main loop starts the application exactly when a check is due and succeeds |
| OctoClock.PageOfWithPage | firmware/octoclock/bootloader/main.c:64-92 | programming a page changes that page and no other |
| OctoClock.AddrIsTruncated | host/utils/octoclock_firmware_burner.cpp:199 | the address of a block is its offset cut to 16 bits |
| OctoClock.BlockIsPart | host/utils/octoclock_firmware_burner.cpp:203-204 | a block holds its part of the image, and zeros beyond |
| OctoClock.Link.Deliver | firmware/octoclock/bootloader/main.c:153-196 | whatever was sent earlier may arrive at any time, again and again: blocks stay where they were put, and once the verification has begun the flash does not change |
| OctoClock.Link.Idle | firmware/octoclock/bootloader/main.c:263-274 | the main loop keeps every invariant of the burn; once it was announced, the application starts only if the flash holds the image |
| OctoClock.Link.SendAndRecv | host/lib/smini_clock/octoclock/common.h:28-33 | one exchange under every schedule of losses, repetitions and delays keeps the invariants; a prompt one returns the reply of a device that is in its bootloader, with its effect, and a lost one returns nothing |
| OctoClock.AckedBlockWasHandled | host/lib/smini_clock/octoclock/common.h:35-37 | an acknowledgement that matches on code and sequence number belongs to this very block |
| OctoClock.BurnBlock | host/utils/octoclock_firmware_burner.cpp:206-219 | a block is sent at most six times, and success means that the device has it; a device that waits for it acknowledges it at the first prompt exchange of the six at the latest, and if nothing arrives out of turn, exactly then, with the block in its page |
| OctoClock.Announce | host/utils/octoclock_firmware_burner.cpp:176-191 | readiness means that the device has the announcement; if the exchange is not a wild one, the device is ready exactly when the exchange is prompt and it is in its bootloader |
| OctoClock.BurnFirmware | host/utils/octoclock_firmware_burner.cpp:175-229 | if it returns, the device has handled every block; no block was sent more than six times; and when 16 bits address the image, the flash matches it and nothing in flight can change that; it does return if the announcement is answered and of any six exchanges one is prompt; and if nothing arrives out of turn, the flash is what the blocks make of it in order |
| OctoClock.VerifyFirmware | host/utils/octoclock_firmware_burner.cpp:231-260 | when 16 bits address the image, success means that the flash holds it and a mismatch that some block differs; on a perfect network, for every image, it is verified exactly if all blocks match |
| OctoClock.FinalizeBurn | host/utils/octoclock_firmware_burner.cpp:280-292 | an acknowledged end means that the EEPROM describes the image; a prompt one is acknowledged |
| OctoClock.BurnImage | host/utils/octoclock_firmware_burner.cpp:391-401 | the whole utility, under every schedule: when it finishes, the flash holds an image of up to 64 KiB and, if the end was acknowledged, the bootloader will start it; the verification never rejects such an image; nothing above 0x10000 is written; on a perfect network it finishes, acknowledged, exactly for images that repeat themselves beyond 64 KiB, and the flash is what the blocks make of it |
| OctoClock.LosslessVerification | host/utils/octoclock_firmware_burner.cpp:231-260 | on a perfect network the verification passes exactly when the blocks beyond 64 KiB repeat those they overwrite |
| OctoClock.LosslessBurn | host/utils/octoclock_firmware_burner.cpp:195-228 | on a perfect network the burn stores the image, whatever was there, if and only if it fits 64 KiB |
| OctoClock.WrongBurnVerifies | host/utils/octoclock_firmware_burner.cpp:231-260 | an image and a flash for which the verification passes a burn that failed |
| OctoClock.GateStopsBursts | firmware/octoclock/bootloader/main.c:125-131 | damage within 16 consecutive bits keeps the bootloader from starting the image that the EEPROM describes |
| OctoClock.FinishTwice | firmware/octoclock/bootloader/main.c:184-189 | a first end starts the application exactly when the CRC is right; a second one always does |
| OctoClockRuns.AnyRun | firmware/octoclock/bootloader/main.c:263-274 | the bootloader goes through any run of packets and turns of its main loop as the functions say |
| OctoClockRuns.LeftAlone | firmware/octoclock/bootloader/main.c:263-274 | a device that is left alone starts its application, if it is valid, once a second has passed, and never otherwise |
| OctoClockRuns.StartedWithWhatTheLastEndFound | firmware/octoclock/bootloader/main.c:125-131 | whatever arrives after an announcement, blocks included: an application that is started has the CRC which the last end found, announced or computed by a check |
| OctoClockRuns.UnannouncedIffEndAfterCheck | firmware/octoclock/bootloader/main.c:184-189 | if no block arrives after the announcement, the CRC of what is started is not the announced one if and only if an end arrived after a check |
| SpiFlash.ShortPage | firmware/smini2/usrp2p/spi_flash.c:74-76 | sending a short buffer filled up with ones programs just its own bytes, though all 256 wrap round the page |
| SpiFlash.ProgramErased | firmware/smini2/usrp2p/spi_flash.h:55-59 | programming erased cells stores the data |
| SpiFlash.Flash.DoneP | firmware/smini2/usrp2p/spi_flash.c:37-41 | what the flash will hold once idle does not change; done means that it is idle |
| SpiFlash.Flash.EraseSectorStart | firmware/smini2/usrp2p/spi_flash.c:50-62 | the chip will hold ones in the sector of that address and everything else as before; beyond the memory nothing happens |
| SpiFlash.Flash.PageProgramStart | firmware/smini2/usrp2p/spi_flash.c:64-114 | bits are cleared in the bytes given, or nothing happens, by the exact bound checks; data that crosses a page end wraps round |
| SpiFlash.Flash.Program | firmware/smini2/usrp2p/spi_flash.c:131-163 | any range, aligned or not, is programmed as a whole, or not at all if it ends past the memory |
| SpiFlash.Flash.EraseWithin | firmware/smini2/usrp2p/spi_flash.c:177-178 | for every sector size that divides 256 KiB, an erase stays inside the 256 KiB spans of its range |
| SpiFlash.Flash.AsyncEraseStart | firmware/smini2/usrp2p/spi_flash.c:165-185 | the erase of exactly the sectors of the range has begun |
| SpiFlash.Flash.AsyncErasePoll | firmware/smini2/usrp2p/spi_flash.c:187-204 | in any state, either nothing happens or one more sector is erased; for an erase that was begun, done means that its sectors hold ones and nothing else has changed; otherwise the erase has come closer to its end |
| N2xxBurner.Unit.Handle | firmware/smini2/usrp2p/udp_fw_update.c:41-124 | the reply and the effect on the flash, for each kind of packet |
| N2xxBurner.Unit.Exchange | host/utils/smini_n2xx_net_burner.py:288-290 | the same when request or reply may be lost; if none is, there is a reply |
| N2xxBurner.Burner.ResetUnit | host/utils/smini_n2xx_net_burner.py:469-476 | unless a packet is lost, it succeeds exactly when the unit restarts, which is when there is no reply |
| N2xxBurner.Burner.GetFlashInfo | host/utils/smini_n2xx_net_burner.py:310-324 | the cached sizes are those of the flash |
| N2xxBurner.Burner.EraseImage | host/utils/smini_n2xx_net_burner.py:478-507 | polling ends; on return the whole sectors of the range hold ones; on every exit nothing outside them has changed; a length of zero erases nothing |
| N2xxBurner.Burner.WriteImage | host/utils/smini_n2xx_net_burner.py:389-409 | the image with the zeros that fill up its last packet has been programmed, except for that packet if it ends past the memory; on every exit nothing outside has changed |
| N2xxBurner.Burner.VerifyImage | host/utils/smini_n2xx_net_burner.py:411-441 | for a range within the memory, success exactly when every byte read back is that of the image |
| N2xxBurner.Burner.BurnSlot | host/utils/smini_n2xx_net_burner.py:357-359 | erase, write and verification leave the image, zeros to the end of its packet, then ones, and the verification does not fail; without losses it is done whenever the slot fits |
| N2xxBurner.Burner.BurnFpga | host/utils/smini_n2xx_net_burner.py:336-360 | the FPGA half: each refusal exactly under its condition, in order, with the flash unchanged; otherwise its slot and no other, done unless a packet is lost |
| N2xxBurner.Burner.BurnFirmware | host/utils/smini_n2xx_net_burner.py:362-385 | the firmware half likewise |
| N2xxBurner.CheckIsRevisionFits | host/utils/smini_n2xx_net_burner.py:337-338 | the check passes exactly if it is off, the revision is zero, or one of the names of a known revision stands in the path |
| N2xxBurner.Burner.BurnFw | host/utils/smini_n2xx_net_burner.py:326-387 | if it returns, each chosen slot holds its image, which fits the hardware, and the bootloader accepts it; on every exit only the chosen slots' sectors can differ, so without the safe option both safe slots are untouched; a wrong revision changes nothing; without losses, images that fit are burned; the verification never finds a difference |
| N2xxBurner.NextPacket | host/utils/smini_n2xx_net_burner.py:398-407 | the packets are the image cut every 256 bytes, the last one filled up with zeros |
| N2xxBurner.SyncIsSomewhere | host/utils/smini_n2xx_net_burner.py:156-160 | the loop of the host's check finds the sync word exactly when it stands among the first 64 bytes |
| N2xxBurner.BootsWhatWasAccepted | firmware/smini2/usrp2p/bootloader_utils.c:22-36 | the bootloader takes a slot exactly when the host accepted its image |
| N2xxBurner.BootsFirmwareThatWasAccepted | firmware/smini2/usrp2p/bootloader_utils.c:38-47 | likewise for firmware |
| N2xxBurner.BootLoadsWholeFirmware | firmware/smini2/usrp2p/bootloader_utils.h:12-13 | the bootloader loads the whole image exactly when it has at most 0x3FFF bytes |
| X3xxBurner.BitSwapReverses | host/utils/smini_x3xx_fpga_burner.cpp:108-114 | bit i goes to bit 7 - i |
| X3xxBurner.BitSwapTwice | host/utils/smini_x3xx_fpga_burner.cpp:108-114 | swapping twice changes nothing |
| X3xxBurner.PacketsTile | host/utils/smini_x3xx_fpga_burner.cpp:321-338 | every word up to the end of the last packet is the target of exactly one packet |
| X3xxBurner.ErasesComeFirst | host/utils/smini_x3xx_fpga_burner.cpp:333-336 | a sector is erased by its first packet only, so nothing written is erased later |
| X3xxBurner.PreparePacket | host/utils/smini_x3xx_fpga_burner.cpp:339-373 | the in-place loops leave in the buffer the bytes of the zero-continued image, bits reversed and pairs swapped |
| X3xxBurner.Board.EraseSector | firmware/smini3/lib/chinch.c:164-182 | the sector shown in the window is erased; if that fails, nothing outside it has changed |
| X3xxBurner.Board.WriteBuf | firmware/smini3/lib/chinch.c:196-226 | at most 32 words are programmed where the window shows them |
| X3xxBurner.Board.WriteAll | firmware/smini3/x300/x300_main.c:159-172 | the buffered writes program all words of the packet, until one fails |
| X3xxBurner.Board.HandleData | firmware/smini3/x300/x300_main.c:154-180 | without an error the packet is in the flash, and reads back if that is to be verified; a sound board with its window open reports an error exactly when it does not read back; and never is anything outside its sector touched |
| X3xxBurner.HoldsOneMore | host/utils/smini_x3xx_fpga_burner.cpp:321-378 | handling packet k turns a flash that holds k packets, but for one that went wrong, into one that holds k + 1, across sector boundaries |
| X3xxBurner.PacketShows | host/utils/smini_x3xx_fpga_burner.cpp:333-377 | over a sector that was erased, every packet reads back as its data |
| X3xxBurner.NothingMissed | host/utils/smini_x3xx_fpga_burner.cpp:321-378 | if none went wrong, these are the words of the image, ones to the end of its last sector, and the rest as it was |
| X3xxBurner.ReadBackWithout | host/utils/smini_x3xx_fpga_burner.cpp:329-378 | what each byte reads as after a burn that lost one packet, the sector's erase included |
| X3xxBurner.ReadBackIsImage | host/utils/smini_x3xx_fpga_burner.cpp:363-373 | undoing the pair swap and the bit swap on the (sector, index) layout gives back the zero-padded image |
| X3xxBurner.BurnPacket | host/utils/smini_x3xx_fpga_burner.cpp:330-390 | the fields and the data sent in one round are those of the packet numbered by its offset |
| X3xxBurner.BurnSector | host/utils/smini_x3xx_fpga_burner.cpp:329-391 | the packet loop sends the packets of its sector in order |
| X3xxBurner.Transport.Receive | host/lib/transport/udp_simple.cpp:58-61 | a reply that came late is taken for the next one |
| X3xxBurner.EthernetBurn | host/utils/smini_x3xx_fpga_burner.cpp:263-406 | oversized files are refused; each packet is sent once, in order; at most one data packet goes wrong without notice, and only after a late reply to the first packet; when it is done the flash holds the image if and only if no packet went wrong or the lost one was harmless, and without a window if and only if it did before; on every exit the other sectors are untouched; on a good network and a reliable board it is done, verified or not |
| X3xxBurner.LateReply | host/utils/smini_x3xx_fpga_burner.cpp:303-377 | for every non-empty image there is a faultless board on which a burn with a late first reply and a lost data packet returns and the flash does not hold the image |
| X3xxBurner.LostInit | host/utils/smini_x3xx_fpga_burner.cpp:297-309 | for every non-empty image there is a board, whose polls end without a window too, on which a burn that loses only its first packet returns and the flash does not hold the image |
| X3xxBurner.SendCleanup | firmware/smini3/lib/chinch.c:153-157 | when nothing is lost and no register write times out, the window is what it was before it was last set up |
| Charger.OneReportPerEntry | firmware/e300/battery/bq2419x.c:462-467 | over any history, as many ends of charging are reported as entries into the done state are observed |
| Charger.DoneEntered | firmware/e300/battery/bq2419x.c:462-467 | the done state is entered when both state bits become set |
| Charger.ChargerHealthTable | firmware/e300/battery/bq2419x.c:261-285 | the answer for each value of the boost and charge fault bits |
| Charger.BatteryHealthTable | firmware/e300/battery/bq2419x.c:370-393 | the answer for each value of the battery and thermistor fault bits |
| Charger.BatteryStatusTable | firmware/e300/battery/bq2419x.c:310-333 | the answer for each value of the power, charge state and charge fault bits |
| Charger.HighImpedanceOff | firmware/e300/battery/bq2419x.c:444-459 | bit 7 is cleared and no other changed, exactly when the power bit falls |
| Charger.System.Interrupt | firmware/e300/battery/bq2419x.c:491-505 | the handler raises the flag exactly when the line is low |
| Charger.System.Change | firmware/e300/battery/interrupt.c:48-49 | a change pulls the line low, and an interrupt is raised only if the line was high |
| Charger.System.Interleave | firmware/e300/battery/bq2419x.c:491-505 | register changes, edges and interrupts in any order keep the invariant at every point of a check |
| Charger.System.ReadBoth | firmware/e300/battery/bq2419x.c:437-480 | if the chip stays as it is, a check records what it says |
| Charger.System.CheckEvents | firmware/e300/battery/bq2419x.c:417-489 | a flag that is up is taken, and is up again only if the handler raises it; with the flag down nothing happens; with it up, the flags returned say exactly what differs from what was recorded, and high impedance is switched off exactly when the power source went |
| Charger.System.ChargerHealth | firmware/e300/battery/bq2419x.c:244-286 | the cached fault is used once; with nothing outstanding the answer is about the chip as it is |
| Charger.System.BatteryHealth | firmware/e300/battery/bq2419x.c:353-394 | likewise |
| Charger.System.GetBatteryStatus | firmware/e300/battery/bq2419x.c:288-334 | likewise, although fault and status are read one after the other |
| Charger.System.Run | firmware/e300/battery/bq2419x.c:417-505 | in every run with prompt interrupts, once one was handled: nothing pending, flag down and no check at work imply that the recorded status and fault are the chip's; done is reported once per observed entry |
| Charger.OneChange | firmware/e300/battery/bq2419x.c:417-505 | from any state and at any point of a check: a change is lost if and only if the flag was down, it is news to the check or the record, and the line rises early or was low without anything still to come |
| Charger.FirstChangeLost | firmware/e300/battery/bq2419x.c:491-505 | on a system just started the first change can be lost |
| Charger.SecondChangeLost | firmware/e300/battery/bq2419x.c:437-443 | and so can a change at the line that is still low, once the check has read the status |
| Capture.PacketBuffer.GetPacket | tools/shd_dump/shd_dump.c:114-131 | the packet is appended, and there is a new spare node at the tail |
| Capture.PacketBuffer.Trim | tools/shd_dump/shd_dump.c:195-205 | either an empty list with null start and current, or a well-formed doubly linked list that the spare node is no part of |
| Capture.PacketBuffer.Walk | tools/shd_dump/chdr_log.c:152-181 | following next from the start visits the packets in the order of capture |
| Capture.PacketBuffer.WalkBack | tools/shd_dump/shd_dump.h:211-218 | following last from the end visits them in reverse |
| Capture.ReadCapture | tools/shd_dump/shd_dump.c:211-258 | a capture file of any number of records, read and walked both ways |
| SymbolCache.Script.Collect | tools/dissectors/make-dissector-reg.py:132-158 | with any cache: a missing file or a version under the file's name crashes, a hit adds what the cache holds, a miss what the scan finds, which becomes the entry |
| SymbolCache.PatternTable | tools/dissectors/make-dissector-reg.py:105-112 | the first two patterns find protocols, the next two handoffs and the last two wiretaps, in that order |
| SymbolCache.ScanConcat | tools/dissectors/make-dissector-reg.py:146-156 | lines are scanned from first to last |
| SymbolCache.RunScript | tools/dissectors/make-dissector-reg.py:114-164 | the run, result and cache file, is the function that the lemmas below are about |
| SymbolCache.RunIsUncached | tools/dissectors/make-dissector-reg.py:114-164 | with a sound cache file a run collects what it would without one, for duplicate arguments too, unless a file is named like the version's key; the cache file it leaves is sound |
| SymbolCache.RunBuilds | tools/dissectors/make-dissector-reg.py:114-164 | any sequence of runs with edits, lost caches and other versions of the script is likewise |
| SymbolCache.BuildsAreUncached | tools/dissectors/make-dissector-reg.py:114-164 | if modification times tell, every run of every sequence gives the uncached result, or crashes on the key |
| SymbolCache.CacheIsHarmless | tools/dissectors/make-dissector-reg.py:135-137 | in such a sequence, a run differs from an uncached one exactly when it uses the cache, names the key, and misses no file |
| SymbolCache.StaleEntry | tools/dissectors/make-dissector-reg.py:137-143 | any edit of any file that keeps its modification time goes unnoticed; the result is wrong if and only if the two contents scan differently |
| SymbolCache.SafeIffTimesTell | tools/dissectors/make-dissector-reg.py:137-143 | all sequences of runs over given states of the files are right if and only if, for each version of the script, a file's time stands for what its scan finds |
| SymbolCache.TimesNeedNotTell | tools/dissectors/make-dissector-reg.py:137-143 | states of a file for which the cache is not safe |
| CounterSets.RunUpdate | host/utils/b2xx_side_channel.py:404-417 | the loop is the update function, exceptions and partial updates included |
| CounterSets.UpdateTells | host/utils/b2xx_side_channel.py:404-417 | for any amount of data: whether it succeeds, what it returns, and that the values are stored from left to right, given that no name stands for two places |
| CounterSets.LawIffUnambiguous | host/utils/b2xx_side_channel.py:404-417 | a set stores every value and returns the exact suffix, for all data, if and only if no name stands for two places and none hides `_update` |
| CounterSets.RefreshStoresAll | host/utils/b2xx_side_channel.py:419-424 | a message of the right size fills every counter if and only if `update` and the format string are still there, or nothing had to change; it passes in silence exactly when moreover the set ends in a counter |
| CounterSets.WrongSizeIsRefused | host/utils/b2xx_side_channel.py:419-424 | a message of another size stores nothing and is reported |
| CounterSets.BuildIsConstructed | host/utils/b2xx_side_channel.py:373-392 | what the constructor leaves is what the theorems above ask for |
| CounterSets.DistinctNamesSuffice | host/utils/b2xx_side_channel.py:373-402 | with distinct names at every level, none of them the object's own, the set can be made, its format has one code per counter, and no name stands for two places |
| CounterSets.UnsettableFails | host/utils/b2xx_side_channel.py:373-392 | a list with a name the constructor itself uses, wherever it stands, cannot be made into a set |
| CounterSets.HiddenUpdate | host/utils/b2xx_side_channel.py:404-424 | a counter called `_update`: the set is made, and every message is reported as an exception and stores nothing |
| CounterSets.SameNameTwice | host/utils/b2xx_side_channel.py:404-417 | two counters of one name: the set is made, and the second value is read back twice |
| CounterSets.FormatOverwritten | host/utils/b2xx_side_channel.py:392-424 | a counter called `_fmt_str`: the first message is stored and the next one fails |
| CounterSets.EmptySetLast | host/utils/b2xx_side_channel.py:404-424 | any set that ends in an empty one: every value is stored, and an exception is reported all the same |
| SerialEvents.Decode | host/utils/b2xx_side_channel.py:653-688 | the loop is the three-state decoder |
| SerialEvents.RegisterLetters | host/utils/b2xx_side_channel.py:671-677 | after an a, the letters up to i are the nine registers, and all else is unknown |
| SerialEvents.CharactersCounted | host/utils/b2xx_side_channel.py:659-688 | every character is accounted for: two for each register and event, and one or two for each unknown one |
| SerialEvents.DecodesWhatWasEncoded | host/utils/b2xx_side_channel.py:653-688 | any interleaving of registers and event bytes is recovered, each kind in order, and the decoder ends in its initial state |
| SerialEvents.CleanIffEncoded | host/utils/b2xx_side_channel.py:659-688 | a line leaves nothing unknown and nothing unfinished exactly when it is the encoding of some registers and events |

## Left out

- Dft.AllBins: the bins themselves; windowing, and the conversion of each bin to a log power, are not modelled.
- Dft.FourPoints: a complex root is written down for four points only, since the reals have no square roots here.
- Dft.CtFftK: over an exact commutative ring with the powers of a root of unity, not over floating point; the complex exponential is a parameter, since the reals have no square roots here.
- GridSearch.Calibrate: exact reals, and the inner loops visit exactly the five interior points; the capture of samples is a measurement function of the correction.
- GridSearch.CalibrationConverges: the level must be an increasing function of one unimodal term per axis; without that the grid can miss the optimum.
- PropertyTree.Tree.Create: typed properties, locking and lifetimes; each call runs under one lock and is one step here.
- OctoClock.Bootloader.Handle: page addresses are multiples of 256, as all that the utility sends; packets with other codes, which change nothing and get an arbitrary code back, are not modelled.
- OctoClock.VerifyFirmware: assumes that no block still in flight would change the flash, which BurnFirmware establishes when 16 bits address the image.
- OctoClock.BurnImage: the link carries nothing from an earlier burn, and the bootloader has just started or was left idle; EEPROM commands, the query packet and the conversion from Intel hex are not modelled.
- N2xxBurner.Unit.Exchange: only packets that Handle is about; a packet is handled at most once, and each reply belongs to the request before it; the burner does not look at the sequence numbers.
- N2xxBurner.Burner.ResetUnit: what a unit that restarts does next is not modelled.
- N2xxBurner.Burner.EraseImage: the time between polls is not modelled; that the chip finishes is.
- SpiFlash.Flash.EraseSectorStart: not called with an address equal to the memory size, which the driver's own check lets through but no caller passes.
- SpiFlash.Flash.AsyncEraseStart: sums of address and length that wrap 32 bits, which pass the driver's check; the burner asks for nothing past the memory.
- N2xxBurner.Unit.Handle: likewise for sums that wrap, and packets that ask for more than the 256 bytes that fit one, which the burner does not send.
- X3xxBurner.EthernetBurn: `.lvbitx` files, file errors and the timing of the window's loopback check are not modelled; requests arrive in the order they were sent in, and nothing is duplicated.
- X3xxBurner.Board.FlashInit: the flash is taken to have at least the 154 sectors that the largest image reaches into.
- X3xxBurner.Board.WriteBuf: writes that reach past the window, whose offset the code masks without keeping them inside; no packet of the burner does.
- X3xxBurner.Board.WriteAll: likewise.
- X3xxBurner.Board.HandleData: likewise packets for sectors beyond the flash, or of another size than their data.
- X3xxBurner.Board.Spoil: stands for whatever a failed flash operation leaves in its sector.
- Charger.System.Change: pulls the line low in the same step as the registers change; failing I2C transfers and registers that clear when read are not modelled.
- Capture.PacketBuffer.Begin: allocation does not fail, and freeing is leaving the list.
- SymbolCache.Script.ScanLine: the regular expressions are a function of pattern and line; sorting and the generated C file are not modelled.
- CounterSets.UnsettableFails: the names that cannot be set are those of a Python 3 class; the text of the exceptions, in which a counter called `_name` would show, and to_string are not modelled.
- CounterSets.RunUpdate: a nested set is a value held by its parent, so that aliasing between sets (which does not arise) is not modelled.
- Sockets, USB, pcap, file access, XML and base64 decoding, command lines, GUIs and printed text.
- The RX and TX IQ-balance searches and `smini_n2xx_simple_net_burner.cpp`, which repeat what is modelled.
- SymbolCache.RunBuilds: a cache file is only ever written by the script itself.
- Window coefficients, logarithms and plot layout of the spectrum display.
- Wireshark dissectors, version information, the C API examples and the plain register setters.
