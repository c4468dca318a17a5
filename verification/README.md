# Boot loader model

A model, in Dafny, of the parts of an Allwinner boot loader (`boot0`, `boot1`) whose correctness rests on
arithmetic, search or protocol rather than on register addresses. Hardware appears only as an oracle, a card or
a memory: what it answers is a parameter, and every theorem holds for all answers.

| file | subject |
|---|---|
| `MmcCard.dfy` | an SD or MMC card that follows the state diagrams of sections 4.2 and 4.8 of the SD Physical Layer Simplified Specification, and runs of commands against it |
| `MmcProtocol.dfy` | SD/MMC identification: the driver's commands against that card, whatever it is answered |
| `Csd.dfy` | the card's capacity, against sections 5.3.2 and 5.3.3 of the same document |
| `BlockStack.dfy` | block read, write and erase: chunking, range checks, what the card and the memory hold afterwards |
| `DmaChain.dfy` | the linked DMA descriptor chain, in the memory it moves data through, and the word-by-word alternative |
| `LogicalDisk.dfy` | the window of the card the rest of the loader sees |
| `CardClock.dfy` | PLL6 and the card clock divider in 32-bit arithmetic |
| `DramTraining.dfy` | DRAM DLL calibration: search, midpoint, packing of the result, re-init |
| `Ieee754.dfy`, `Ceil.dfy` | `ceil` and `ceilf` on the words of a number, against roundToIntegralTowardPositive (section 5.9 of IEEE 754-2008) |
| `NandRetry.dfy` | NAND read-retry and the page address |
| `AtagList.dfy` | the kernel's tag list: builder and walker |
| `Mem.dfy` | word-at-a-time `memset` and `memcpy` |
| `Bits.dfy` | 32-bit words as integers, and the masks and shifts of C on them |

`WriteThenRead`, `EraseThenRead` and `Session` have no counterpart in the source: they run its operations one after
another and state what holds at the end.

Methods that change state are proved against specification functions or predicates; the properties of those are
lemmas. Where a property the code is meant to have is false, the exact condition under which it holds is proved.

## Where the code falls short

- **Full 4 GB standard-capacity cards.** The range check of a block request adds in 32 bits and the byte address
  of a standard-capacity card is a 32-bit product. On a card of exactly 0x800000 blocks, block 0xFFFFFFFF passes
  and addresses the last block (`BlockStack.AliasPasses`). Every other card lets through exactly the requests for
  its own blocks (`BlockStack.ChecksAreExact`), and of the requests that pass, those for blocks of the card are
  exactly the ones that satisfy `NoAlias` (`BlockStack.PassedExactly`).
- **Descriptors in the way.** The DMA descriptors lie in ordinary memory at 0x42000000. A write delivers its buffer,
  whatever the memory holds, exactly when the buffer is clear of the descriptors of its first chunk
  (`BlockStack.DeliversExactly`). The buffer of `mmc_berase` lies at 0x41000000, so an erase leaves zeros exactly up to
  0x8000 blocks (`BlockStack.Disk.Berase`); 0x8001 blocks end with a descriptor on the card
  (`BlockStack.EraseReachesDescriptors`). The engine fetches a descriptor only when it comes to it, so a DMA read may
  store over descriptors it still needs: it fills its buffer, whatever the memory holds and the card sends, exactly when
  no part is stored over a later descriptor (`DmaChain.TransferExactly`). A whole read is right exactly when that holds
  of every chunk and no chunk's chain meets what is already read (`BlockStack.ReadsExactly`). 64 blocks are right
  wherever they go (`BlockStack.SmallSpared`); 65 blocks of zeros read to 0x42000000 fail
  (`BlockStack.ReadOverDescriptors`).
- **A standard-capacity register with blocks below 512 bytes.** `boot1` shifts the capacity by 9 and `boot0`
  divides it by the block length; they agree exactly from READ_BL_LEN 9 on (`Csd.ShiftAndDivision`). For a version 2
  card the capacity is the standard's exactly when READ_BL_LEN is 9, as the standard fixes it (`Csd.HighCapacity`).
- **Repeated ACMD51.** `sd_change_freq` repeats a failed ACMD51 without its CMD55. On an SD card whose power-up
  succeeded, every command of `mmc_init` meets a card that takes it exactly when the log holds no ACMD51 that directly
  follows one the card has seen (`MmcProtocol.Mmc.Init`, `MmcCard.Bare`). Without any retry all commands are legal and
  every application command directly follows a CMD55 (`MmcProtocol.Mmc.WithoutRetry`).
- **A flag that stays.** `mmc_init` goes by no result of `sd_send_op_cond` but TIMEOUT. An SD card initialised after
  another failure of it is decoded and addressed by the `high_capacity` of before; after its success the flag is bit 30
  of the last answer to ACMD41 (`MmcProtocol.Mmc.Init`).
- **MMC cards.** `mmc_init` goes on to the MMC power-up exactly when CMD55 fails with TIMEOUT, and a card that serves
  everything after that is then initialised (`MmcProtocol.Mmc.Init`). The driver's `send_cmd` reports only 0 or -1, so
  with it no MMC card ever is.
- **MMC cards of 1 TB and more.** The sector count of the extended CSD is put together in a signed int; from 2^31
  sectors on the capacity is not 512 bytes for each (`MmcProtocol.ExtSectors`).
- **Polling.** `mmc_send_status` reports TIMEOUT for a card that becomes ready on the very last turn, and success for
  one that never does (`MmcProtocol.PollTimesOut`).
- **Very large cards.** The block count comes back through a signed int, so `SDMMC_LogicalInit` takes a card of 2^31
  blocks or more for a failure (`LogicalDisk.Window.LogicalInit`).
- **Loading calibrated phases on a narrow bus.** `mctl_enable_dllx` writes only the DLLs of the bus, so on a
  16-bit bus the loaded phases are those of `dram_tpr3` only if the upper two already were (`DramTraining.Controller.Init`).
- **Overlapping copies.** `memcpy` delivers the source, whatever the memory holds, exactly when it does not copy
  upward onto itself (`Mem.MovesExactly`).
- **Ratios above 128.** The card clock exceeds the request by more than one half exactly when the rounded ratio is
  above 128, where the code gives up dividing (`CardClock.Host.SetCardClk`).
- **A command line whose first non-space lies beyond the cut.** The text handed to the kernel is then the whole line,
  uncut (`AtagList.TextBeyondCut`); otherwise it is the cut line without leading spaces
  (`AtagList.TextIsCutAndStripped`).

## Model

| member | source | states |
|---|---|---|
| Ieee754.RoundUpIsCeiling | boot1/apps/BootQC/Common/libm/ceil.c:29-101 | for any format, the rounded encoding is finite, keeps the sign, and its real value is the ceiling of the operand's real value |
| Ieee754.RoundUpConverts | boot1/apps/BootQC/Common/libm/ceil.c:29-101 | rounding commutes with changing the format: encodings of one value round to encodings of one value |
| Ieee754.EncodingUnique | boot1/apps/BootQC/Common/libm/ceil.c:29-101 | two finite encodings of the same value and sign in one format are the same words |
| Ceil.HighBranch | boot1/apps/BootQC/Common/libm/ceil.c:55-67 | exponents 0 to 19: the mask, the add at the unit and the clearing round up, the carry running into the exponent |
| Ceil.LowBranch | boot1/apps/BootQC/Common/libm/ceil.c:76-97 | exponents 20 to 51: likewise on the low word, with the carry into the high word |
| Ceil.Ceil | boot1/apps/BootQC/Common/libm/ceil.c:29-101 | for every finite double the words denote the least integer not below it, with the operand's sign (so -0 for -1 < x < 0); infinities come back unchanged, NaN as NaN |
| Ceil.SingleBranch | boot1/apps/BootQC/Common/libm/ceilf.c:53-64 | exponents 0 to 22: the one-word mask, add and clear round up |
| Ceil.Ceilf | boot1/apps/BootQC/Common/libm/ceilf.c:29-76 | the same for every float on its one word |
| Ceil.CeilfWidens | boot1/apps/BootQC/Common/libm/ceilf.c:29-76 | widening ceilf's result to double gives ceil of the widened argument |
| Ceil.WideningExists | boot1/apps/BootQC/Common/libm/ceilf.c:29-76 | every finite float has a double with its value and sign |
| DramTraining.WithClkField | boot0/drv/init_dram/dram_init.c:589 | writing the clock phase field sets that field and nothing else |
| DramTraining.ClkWriteIsMask | boot0/drv/init_dram/dram_init.c:589 | the arithmetic form of the clock field write is the code's mask-and-or |
| DramTraining.DqsWriteIsMask | boot0/drv/init_dram/dram_init.c:592-595 | the same for the DQS phase fields |
| DramTraining.RestartPhases | boot0/drv/init_dram/dram_init.c:96-153 | the disable, reset and enable sequence of a DLL keeps its phase fields |
| DramTraining.UnpackPack | boot0/drv/init_dram/dram_init.c:456-469 | loading the packed phases gives back every phase field, and the packed word does not ask for a scan |
| DramTraining.PackIsMask | boot0/drv/init_dram/dram_init.c:456-469 | the arithmetic form of the packing is the code's shifts and ors |
| DramTraining.AsksScanIsMask | boot0/drv/init_dram/dram_init.c:458 | a scan is asked for exactly when the mask of bit 31 is set in dram_tpr3 |
| DramTraining.PhaseReadIsMask | boot0/drv/init_dram/dram_init.c:464-468 | the arithmetic forms of the phase fields are the code's shifts and masks |
| DramTraining.DisableIsMask | boot0/drv/init_dram/dram_init.c:96-113 | the arithmetic form of the disable step is the code's masks |
| DramTraining.ResetIsMask | boot0/drv/init_dram/dram_init.c:96-113 | the arithmetic form of the reset step is the code's masks |
| DramTraining.StartIsMask | boot0/drv/init_dram/dram_init.c:96-113 | the arithmetic form of the enable step is the code's masks |
| DramTraining.ChosenClock | boot0/drv/init_dram/dram_init.c:604-653 | the chosen clock index i attains the maximum pass count and some DQS entry passes with it; when the best entries are exactly lo to hi of n, i is floor(hi / 4) if they touch only the low end of the table, floor((3n - 1 + lo) / 4) if only the high end, and floor((lo + hi) / 2) otherwise |
| DramTraining.ChosenDqs | boot0/drv/init_dram/dram_init.c:655-709 | the chosen DQS index passes under the chosen clock, and has the same place on a plateau of passing entries |
| DramTraining.NonePasses | boot0/drv/init_dram/dram_init.c:625-635 | when every count is zero no pair of the tables passes, the all-zero fallback among them |
| DramTraining.SourceTables | boot0/drv/init_dram/dram_init.c:578-579 | every entry of both tables of the code, in closed form; both contain the zero phase |
| DramTraining.WidthWritten | boot0/drv/init_dram/dram_init.c:303 | what the code writes into bits 8..6 of the DCR makes it a 32-bit bus exactly for the width 32 (to 39) |
| DramTraining.Controller.CountPasses | boot0/drv/init_dram/dram_init.c:585-602 | the first scan leaves in each entry the number of DQS entries that pass with that clock entry |
| DramTraining.Controller.ChooseClock | boot0/drv/init_dram/dram_init.c:604-653 | a clock entry is found exactly when some pair passes, and it attains the maximum and lies at the stated place of a plateau |
| DramTraining.Controller.ChooseDqs | boot0/drv/init_dram/dram_init.c:655-709 | a DQS entry is found exactly when one passes, and it passes and lies at the stated place of a plateau |
| DramTraining.Controller.ScanDllPara | boot0/drv/init_dram/dram_init.c:576-710 | returns 0 exactly when some pair passes; then the pair at the stated places passes and is loaded; otherwise the zero phases are; only phase fields change |
| DramTraining.Controller.EnableDll0 | boot0/drv/init_dram/dram_init.c:96-113 | DLL0 gets its phase and the restart sequence, no other DLL changes |
| DramTraining.Controller.EnableDllx | boot0/drv/init_dram/dram_init.c:114-153 | with 3 in bits 8..6 of the DCR all four DQS DLLs get their digit of the phase word and the restart sequence; with any other value the first two do and the upper two are unchanged |
| DramTraining.Controller.Init | boot0/drv/init_dram/dram_init.c:256-484 | a scan succeeds exactly when some pair passes and leaves a calibrated dram_tpr3; without a scan the loaded phases are those of dram_tpr3 if and only if bits 8..6 of the DCR are 3 or the upper DLLs already held them |
| DramTraining.Controller.InitEx | boot0/drv/init_dram/dram_init.c:486-498 | up to three attempts; without a scan the result is that of training under the loaded phases, on any bus, and with 3 in bits 8..6 of the DCR a word from an earlier scan passes again; the word comes back unchanged |
| MmcProtocol.Mmc.InitialisedInOrder | boot1/driver/drv_sd/mmc.c:1076-1121 | whatever the driver did to a fresh card, an initialised one was sent operating conditions, CMD2, CMD3 and CMD7, in this order |
| MmcProtocol.Mmc.CleanIntroduced | boot1/driver/drv_sd/mmc.c:378-444 | on a log where every command was legal, nothing the card saw came between an application command the driver sent and its CMD55 |
| MmcProtocol.Mmc.WithoutRetry | boot1/driver/drv_sd/mmc.c:640-680 | where the log repeats no ACMD51, none is bare and every application command the driver sent directly follows a CMD55 |
| MmcProtocol.Mmc.LastAnswer | boot1/driver/drv_sd/mmc.c:46-49 | an answer the driver goes by is the reply to the last sending of its command in the log |
| MmcProtocol.Mmc.LastPower | boot1/driver/drv_sd/mmc.c:438-440 | the answer the capacity mode is taken from is the reply to the last power-up command in the log |
| MmcProtocol.Mmc.FirstExt | boot1/driver/drv_sd/mmc.c:932-946 | the extended CSD a capacity is taken from is the first one asked for since CMD7 |
| MmcProtocol.PowersUp | boot1/driver/drv_sd/mmc.c:378-444 | an SD power-up that succeeds finds the card ready on a turn before the last, after turns that are all served |
| MmcProtocol.FoundReady | boot1/driver/drv_sd/mmc.c:378-444 | and one that finds it so succeeds |
| MmcProtocol.SucceedsPowered | boot1/driver/drv_sd/mmc.c:378-444 | an SD power-up that succeeds leaves the card powered up |
| MmcProtocol.PollTimesOut | boot1/driver/drv_sd/mmc.c:51-82 | the polling reports TIMEOUT exactly when the card becomes ready on the very last turn, and success when it never does |
| MmcProtocol.StatusBits | boot1/driver/drv_sd/mmc.c:65-70 | the masks on the answer to CMD13 test bit 8, and bits 31..26, 24..19, 16, 14 and 7 |
| MmcProtocol.OcrBits | boot1/driver/drv_sd/mmc.c:418-440 | the masks on the answer to a power-up command test bits 31 and 30 |
| MmcProtocol.ScrFields | boot1/driver/drv_sd/mmc.c:690-705 | the shifts and masks on the first word of the SCR give its bits 59..56 and 50 |
| MmcProtocol.StatusFields | boot1/driver/drv_sd/mmc.c:721-734 | those on the words of the switch status give its bits 401, 379..376 and 273 |
| MmcProtocol.CardType | boot1/driver/drv_sd/mmc.c:580-598 | the masks on byte 196 of the extended CSD test its bit 1 |
| MmcProtocol.Mmc.CheckFunc | boot1/driver/drv_sd/mmc.c:717-723 | CMD6 is sent again, at most four times in all, while bit 273 of the status says the function is busy |
| MmcProtocol.Mmc.SendCmd | boot1/driver/drv_sd/mmc.c:46-49 | one step of the card; the log and the record advance, and every application command it is asked to send was introduced by CMD55, or repeats ACMD51 |
| MmcProtocol.Mmc.PollStatus | boot1/driver/drv_sd/mmc.c:51-82 | status polling leaves the card's state alone; on a card that takes CMD13 its result is the one the replies decide |
| MmcProtocol.Mmc.SdSendOpCond | boot1/driver/drv_sd/mmc.c:378-444 | on a reset SD card every command is legal, and result and power state are those the replies decide; high_capacity is bit 30 of the last answer to ACMD41 on success and unchanged on failure; an MMC card is left as it was |
| MmcProtocol.Mmc.MmcSendOpCondLoop | boot1/driver/drv_sd/mmc.c:446-511 | on an idle MMC card the result is the one the replies decide, and success means powered up, with high_capacity bit 30 of the last answer to CMD1; on an SD card it fails and breaks the protocol |
| MmcProtocol.Mmc.MmcChangeFreq | boot1/driver/drv_sd/mmc.c:558-604 | keeps the card where it is; the capabilities are exactly those the extended CSD offers before and after the timing switch |
| MmcProtocol.Mmc.SdChangeFreq | boot1/driver/drv_sd/mmc.c:640-738 | keeps the card in the transfer state, legally exactly when no ACMD51 was sent bare; the version is 2 exactly when SD_SPEC, bits 59..56 of the 64-bit SCR, is 2, 1.10 exactly when it is 1, and 1.0 otherwise; four lines are offered by bit 50, high speed when SD_SPEC is 1 or 2, bit 401 of the status offers it and bits 379..376 confirm it; succeeds when the card serves everything |
| MmcProtocol.Mmc.SetClock | boot1/driver/drv_sd/mmc.c:776-787 | the clock is the request limited to the host's range |
| MmcProtocol.Mmc.Configure | boot1/driver/drv_sd/mmc.c:968-1036 | on success the version of an SD card is that of its SCR, the capabilities are the card's offer times the host's, the widest common bus is in use, and the clock is 50 MHz with high speed and 25 MHz without (52, 26 or 20 MHz on an MMC card), limited to the host's range; the card stays in the transfer state |
| MmcProtocol.Mmc.FindCapacity | boot1/driver/drv_sd/mmc.c:930-946 | the capacity is that of the CSD, or for an MMC card of version 4 the one in the extended CSD when that was read and is valid |
| MmcProtocol.ExtSectors | boot1/driver/drv_sd/mmc.c:941-945 | bytes 212 to 215 of the extended CSD that hold s sectors give 512 s bytes below 2^31 sectors, and 2^64 - 512 (2^32 - s) from there on |
| MmcProtocol.Mmc.Identify | boot1/driver/drv_sd/mmc.c:796-925 | from power-up to the transfer state, with the block lengths, the capacity and the MMC version of the CSD in the reply to CMD9; succeeds when the card serves everything, whatever its CSD says |
| MmcProtocol.Mmc.PowerUp | boot1/driver/drv_sd/mmc.c:1088-1112 | what the replies leave: a ready SD card, none, a broken protocol, or a ready MMC card exactly when CMD55 times out and the MMC power-up succeeds; high_capacity is bit 30 of the last answer to the power-up that succeeded, and otherwise unchanged |
| MmcProtocol.Mmc.Startup | boot1/driver/drv_sd/mmc.c:796-1050 | success means the transfer state, the version by SD_SPEC, the modes of both sides by the fields of SCR, switch status and extended CSD, bus width and clock by these modes, and the geometry of the CSD and, for MMC version 4, of the extended CSD; the MMC version is that of SPEC_VERS; a ready card of known kind that serves everything succeeds |
| MmcProtocol.Mmc.Init | boot1/driver/drv_sd/mmc.c:1076-1121 | has_init means the transfer state on every run, with what Startup promises; after a successful SD power-up the whole log is legal exactly when no ACMD51 was sent bare; a card that then serves everything is initialised; an MMC card is initialised only through a CMD55 that times out, and is when everything after it is served; the geometry is decoded under bit 30 of the last answer to the power-up command, when the power-up succeeded |
| MmcProtocol.Mmc.SdModes | boot1/driver/drv_sd/mmc.c:640-1019 | of an SD card in use: SD_SPEC in the last SCR in the log decides the version, and with SD_SPEC 1 or 2, answers to CMD6 that offer and confirm high speed, and a host that has it, the card runs in high speed at 50 MHz, and in every other case at 25 MHz, limited to the host's range; four lines exactly when both sides have them |
| MmcProtocol.Mmc.Register | boot1/driver/drv_sd/mmc.c:1123-1131 | b_max is never zero afterwards, and a limit already set is kept |
| Csd.ReadBlLenField | boot1/driver/drv_sd/mmc.c:889-913 | the decoded block length is two to the READ_BL_LEN field of the 128-bit register |
| Csd.DeviceSizeField | boot1/driver/drv_sd/mmc.c:889-913 | the decoded device size is bits 73..62 of the register (69..48 for version 2) |
| Csd.SizeMultField | boot1/driver/drv_sd/mmc.c:889-913 | the decoded multiplier is bits 49..47 of the register |
| Csd.WriteBlLenField | boot1/driver/drv_sd/mmc.c:894-913 | the write block length of an MMC card is two to bits 25..22 of the register, at most 512 |
| Csd.SpecVersField | boot1/driver/drv_sd/mmc.c:859 | the version shift and mask give bits 125..122 of the register |
| Csd.StandardCapacity | boot1/driver/drv_sd/mmc.c:889-913 | the capacity of a version 1 card is the standard's formula, for every register |
| Csd.HighCapacity | boot1/driver/drv_sd/mmc.c:889-913 | the capacity of a version 2 card is the standard's formula exactly when READ_BL_LEN is 9 |
| Csd.ShiftAndDivision | boot1/driver/drv_sd/mmc.c:1038-1040 | boot1's shift and boot0's division give the same block count exactly from READ_BL_LEN 9 on |
| Csd.StandardCardAddresses | boot1/driver/drv_sd/mmc.c:1038-1040 | with READ_BL_LEN 9 to 11 the 512-byte blocks make up the capacity and every byte address fits in 32 bits |
| DmaChain.BuildChain | boot1/driver/drv_sd/mmc_bsp.c:459-508 | the memory holds the descriptors, with their chain, own, first, last, ring and interrupt flags, and nothing else in it changes |
| DmaChain.DecodeReads | boot1/driver/drv_sd/mmc_bsp.c:109-134 | reading the four words of a descriptor by the bit fields gives back every descriptor, word by word |
| DmaChain.WithChainStands | boot1/driver/drv_sd/mmc_bsp.c:459-508 | read back from memory, the descriptors are those of the chain |
| DmaChain.ChainWords | boot1/driver/drv_sd/mmc_bsp.c:459-508 | the four words of every descriptor in memory, as numbers |
| DmaChain.BuiltOnce | boot1/driver/drv_sd/mmc_bsp.c:459-508 | their bytes, and so the memory afterwards, are determined |
| DmaChain.FollowChain | boot1/driver/drv_sd/mmc_bsp.c:459-508 | following the chain, which an engine does only through descriptors with the chain flag, meets each of the ceil(n/32768) descriptors once, in order, and stops |
| DmaChain.ChainCovers | boot1/driver/drv_sd/mmc_bsp.c:459-508 | every byte of the buffer lies in exactly one descriptor and no descriptor leaves the buffer; sizes are 1 to 32768, all have the chain flag, first is marked only on the first, last and end of ring only on the last, and the interrupt is suppressed on all others |
| DmaChain.EngineStores | boot1/driver/drv_sd/mmc_bsp.c:459-508 | an engine whose chain is spared stores the stream over exactly the buffer |
| DmaChain.EngineStops | boot1/driver/drv_sd/mmc_bsp.c:459-508 | a stream that zeroes the second descriptor before it is fetched stops the engine |
| DmaChain.TransferFills | boot1/driver/drv_sd/mmc_bsp.c:459-508 | a transfer that spares its chain fills the buffer, and changes nothing but buffer and chain |
| DmaChain.TransferExactly | boot1/driver/drv_sd/mmc_bsp.c:459-508 | a DMA read to a word-aligned buffer fills it, whatever the memory holds and the card sends, exactly when it spares its chain |
| DmaChain.RunWrite | boot1/driver/drv_sd/mmc_bsp.c:459-508 | an engine following the chain sends the buffer as it stands once the chain is built |
| DmaChain.CpuRead | boot1/driver/drv_sd/mmc_bsp.c:424-440 | the FIFO loop stores the stream's words, or fails after those that came |
| DmaChain.CpuWrite | boot1/driver/drv_sd/mmc_bsp.c:441-457 | the FIFO loop sends the buffer's words, or fails after those that fitted |
| DmaChain.TransferIn | boot1/driver/drv_sd/mmc_bsp.c:606-628 | what a read leaves is the outcome of its DMA transfer, or of the CPU path up to 64 bytes; either fills the buffer when the length is a multiple of 4 and the chain is spared |
| DmaChain.TransferOut | boot1/driver/drv_sd/mmc_bsp.c:606-628 | either path sends the buffer as it stands when the data moves |
| BlockStack.ChunksPartition | boot1/driver/drv_sd/mmc.c:343-352 | the chunk commands are each at most b_max blocks, adjacent, and make up exactly the request |
| BlockStack.ArgumentSelects | boot1/driver/drv_sd/mmc.c:290-293 | the command argument selects the requested block, modulo 2^23 on a standard-capacity card |
| BlockStack.PassedExactly | boot1/driver/drv_sd/mmc.c:334-338 | of the requests that pass, NoAlias holds for exactly those for blocks of the card |
| BlockStack.ChecksAreExact | boot1/driver/drv_sd/mmc.c:334-338 | a card lets through exactly the requests for its blocks if and only if it is not a full 4 GB standard-capacity card |
| BlockStack.AliasPasses | boot1/driver/drv_sd/mmc.c:334-338 | the request that shows it: block 0xFFFFFFFF passes and is the last block |
| BlockStack.DeliversExactly | boot1/driver/drv_sd/mmc_bsp.c:459-508 | a write delivers its buffer, whatever the memory holds, exactly when the buffer is clear of the descriptors |
| BlockStack.SentAsIs | boot1/driver/drv_sd/mmc.c:251-277 | a byte outside the descriptors is delivered as it is, through all chunks |
| BlockStack.SentBlind | boot1/driver/drv_sd/mmc.c:251-277 | for a byte where descriptors are written, what the buffer held makes no difference |
| BlockStack.ZerosSent | boot1/driver/drv_sd/mmc.c:158-178 | a zeroed buffer some blocks below the descriptors is delivered as zeros exactly when it ends there |
| BlockStack.EraseReachesDescriptors | boot1/driver/drv_sd/mmc.c:164 | at the addresses of the code 0x8001 blocks deliver a byte of a descriptor |
| BlockStack.ReceivedRight | boot1/driver/drv_sd/mmc.c:343-352 | a read whose chunks are spared leaves the blocks in the buffer, and changes nothing but buffer and descriptors |
| BlockStack.ReadsExactly | boot1/driver/drv_sd/mmc.c:343-352 | a read to a word-aligned buffer is right, whatever the memory and the card hold, exactly when its chunks are spared |
| BlockStack.SmallSpared | boot1/driver/drv_sd/mmc.c:343-352 | a request of at most 64 blocks is spared wherever its buffer lies |
| BlockStack.ClearSpared | boot1/driver/drv_sd/mmc.c:343-352 | a buffer clear of the descriptors is spared |
| BlockStack.ReadOverDescriptors | boot1/driver/drv_sd/mmc_bsp.c:734 | 65 blocks of zeros read to the address of the descriptors fail, whatever the memory holds |
| BlockStack.Disk.ReadBlocks | boot1/driver/drv_sd/mmc.c:279-321 | one chunk: what it leaves is the outcome of its transfer, and it succeeds exactly when that does, unless the command fails; where the chain is spared the buffer holds the selected blocks and nothing else but the chain changes |
| BlockStack.Disk.Bread | boot1/driver/drv_sd/mmc.c:323-354 | a request that passes succeeds exactly when the transfers of its chunks do, unless a command fails, and leaves their outcome; a buffer whose chunks are spared holds exactly the requested blocks, fetched by the chunks in order, and nothing else but the descriptors changes |
| BlockStack.Disk.WriteBlocks | boot1/driver/drv_sd/mmc.c:194-249 | one chunk of a write, with its own range check: the card gets the buffer as it stands once the chain is built |
| BlockStack.Disk.Bwrite | boot1/driver/drv_sd/mmc.c:251-277 | on success the requested blocks hold what the chunks sent, which is the buffer where it is clear of the descriptors; on any outcome no other block and no other memory changes; it succeeds when no command fails |
| BlockStack.Disk.Berase | boot1/driver/drv_sd/mmc.c:158-178 | after success the blocks are zero exactly up to 0x8000 blocks; on any outcome no other block changes |
| BlockStack.Disk.WriteThenRead | boot1/driver/drv_sd/mmc.c:251-354 | a successful write followed by a successful read of the same blocks returns the bytes written, from a buffer clear of the descriptors to one whose chunks are spared; both succeed when no command fails |
| BlockStack.Disk.EraseThenRead | boot1/driver/drv_sd/mmc.c:158-178 | a successful erase reads back as zeros, to a buffer whose chunks are spared, exactly up to 0x8000 blocks |
| BlockStack.ReadBack | boot1/driver/drv_sd/mmc.c:251-354 | reading blocks after a successful write returns the bytes written |
| LogicalDisk.WindowExactly | boot1/driver/drv_sd/mmc_op.c:98-116 | a logical block's physical address lies at or above the offset exactly when the addition does not wrap |
| LogicalDisk.Window.LogicalDiskSize | boot1/driver/drv_sd/mmc_op.c:118-121 | a request fits the reported size exactly when it stays inside the card |
| LogicalDisk.Window.LogicalRead | boot1/driver/drv_sd/mmc_op.c:98-106 | a request inside the card succeeds exactly when the transfers of its chunks do, unless a command fails, and leaves their outcome; a buffer whose chunks are spared holds the blocks at offset + start, by commands that partition them, and nothing else but the descriptors changes |
| LogicalDisk.Window.LogicalWrite | boot1/driver/drv_sd/mmc_op.c:108-116 | on any outcome no block outside the request changes, so none below the offset |
| LogicalDisk.Window.LogicalErase | boot1/driver/drv_sd/mmc_op.c:123-131 | the same for erasing, which leaves zeros exactly up to 0x8000 blocks |
| LogicalDisk.Window.Session | boot1/driver/drv_sd/mmc_op.c:86-131 | over any sequence of fitting requests, whatever becomes of each, every block touched lies between the offset and the end of the card and no block below the offset changes |
| LogicalDisk.Window.LogicalInit | boot1/driver/drv_sd/mmc_op.c:86-90 | the offset later requests use; success exactly when the registration succeeds and the card has 1 to 2^31 - 1 blocks |
| LogicalDisk.Window.LogicalExit | boot1/driver/drv_sd/mmc_op.c:92-96 | the offset is zero again |
| CardClock.GetPll6 | boot1/driver/drv_sd/mmc_bsp.c:164-174 | for every register value the 32-bit computation gives the exact frequency, at most 1488 MHz |
| CardClock.RatioExact | boot1/driver/drv_sd/mmc_bsp.c:205-206 | no 32-bit step of the ratio wraps |
| CardClock.RatioNearest | boot1/driver/drv_sd/mmc_bsp.c:205-206 | the ratio is the whole number nearest to source over request, and at least 1 |
| CardClock.ChooseDivider | boot1/driver/drv_sd/mmc_bsp.c:207-223 | m in 1..16 and n in 0..3 with 2^n * m at most the ratio and at least eight ninths of it, up to a ratio of 128 |
| CardClock.Divide | boot1/driver/drv_sd/mmc_bsp.c:234-254 | dividing twice with truncation is dividing once by the product |
| CardClock.RegisterFields | boot1/driver/drv_sd/mmc_bsp.c:225-227 | the shifts and ors put source, pre-divider and m - 1 into their fields of the register |
| CardClock.Host.SetCardClk | boot1/driver/drv_sd/mmc_bsp.c:178-257 | the stored frequency is that of the source bit 24 of the module clock register selects (PLL6 exactly for requests above 400 kHz, else 24 MHz), divided by two to bits 17..16 times bits 3..0 plus one; nothing but these fields and bit 31 is set; the bounds on that divider; the clock exceeds the request by at most one half exactly up to a ratio of 128 |
| CardClock.Overshoot | boot1/driver/drv_sd/mmc_bsp.c:205-254 | the if-and-only-if behind the last statement |
| NandRetry.SweepMeets | boot0/load_Boot1_from_nand/nfc_for_boot0/src/nand_simple_for_boot0.c:188-242 | a sweep meets every level exactly once, wherever it starts |
| NandRetry.FullSweep | boot0/load_Boot1_from_nand/nfc_for_boot0/src/nand_simple_for_boot0.c:188-242 | a sweep that only fails has tried every level |
| NandRetry.Nand.Sweep | boot0/load_Boot1_from_nand/nfc_for_boot0/src/nand_simple_for_boot0.c:188-242 | the retry loop: the levels in cyclic order from the chip's, up to the first that reads; the counter and the chip's level agree again afterwards, on parts with modes 0x10 to 0x2F at level 0 |
| NandRetry.Nand.ReadSinglePage | boot0/load_Boot1_from_nand/nfc_for_boot0/src/nand_simple_for_boot0.c:154-285 | the ECC error comes back exactly when all levels fail; each level is tried at most once; the chip's level between reads |
| NandRetry.CalAddrInChip | boot0/load_Boot1_from_nand/nfc_for_boot0/src/nand_simple_for_boot0.c:58-95 | the five address bytes denote the column and the row, modulo 2^16 and 2^24 |
| AtagList.ForEachTag | boot1/apps/Boot_Android/BootOS/setup.h:249-253 | the loop visits exactly the nodes of the list, in order, when the list ends |
| AtagList.TextIsCutAndStripped | boot1/apps/Boot_Android/BootOS/bootm.c:95-119 | the text is the cut line without leading spaces exactly when the first other character does not lie beyond the cut |
| AtagList.TextBeyondCut | boot1/apps/Boot_Android/BootOS/bootm.c:95-119 | a cut within the leading spaces cuts nothing: the text is then the whole line without them |
| AtagList.TextUncut | boot1/apps/Boot_Android/BootOS/bootm.c:95-119 | a line that ends before the cut loses nothing but its leading spaces |
| AtagList.BlankIsSpaces | boot1/apps/Boot_Android/BootOS/bootm.c:95-119 | a line gets no tag exactly when its string is nothing but spaces |
| AtagList.WalkBuilt | boot1/apps/Boot_Android/BootOS/setup.h:249-253 | walking the built list gives CORE, then CMDLINE with the text, its NUL and 1 to 4 bytes to spare, then stops at NONE |
| AtagList.TagList.SetupStartTag | boot1/apps/Boot_Android/BootOS/bootm.c:75-88 | a core tag of five words with a zero payload |
| AtagList.TagList.SetupCommandlineTag | boot1/apps/Boot_Android/BootOS/bootm.c:95-127 | no tag for an absent or blank line; otherwise one tag with the text, and the buffer cut in place |
| AtagList.TagList.SetupEndTag | boot1/apps/Boot_Android/BootOS/bootm.c:163-167 | the end tag |
| AtagList.TagList.DoBootLinux | boot1/apps/Boot_Android/BootOS/bootm.c:45-71 | the whole list as the kernel walks it, and nothing outside it written |
| Mem.ByteCopyMoves | boot1/misc/mem.c:63-85 | regions that are disjoint, or with dest below src, receive the original source |
| Mem.ByteCopySmears | boot1/misc/mem.c:63-85 | a region copied upward onto itself repeats its first bytes |
| Mem.MovesExactly | boot1/misc/mem.c:63-85 | the copy delivers the source for every memory exactly when it does not copy upward onto itself |
| Mem.Memcpy | boot1/misc/mem.c:63-85 | the word loop and the byte loop together equal the byte-by-byte copy, at every alignment and overlap |
| Mem.CopyWords | boot1/misc/mem.c:63-85 | the word loop on aligned regions is a prefix of the byte-by-byte copy |
| Mem.CopiesBytes | boot1/misc/mem.c:41-45 | every byte of the fill word is the fill byte |
| Mem.Memset | boot1/misc/mem.c:33-61 | every byte of the region becomes the low byte of c, and no other changes |

## Assumptions

- Training of a DRAM phase setting is deterministic. The branch of the scan for a clock entry that passed before and
  then does not pass with any DQS entry is therefore unreachable.
- A card does not answer a command its state forbids, which the driver reports as a failure. A failed command may or
  may not have reached the card.
- The block stack is modelled for 512-byte blocks, which the code limits every larger READ_BL_LEN to, and for the
  b_max of at most 65535 that `mmc_register` supplies; the card's size is its block count times 512.
- CMD12 needs no exchange: the controller stops a multi-block transfer itself and the driver answers it at once.
- A failed data command leaves anything in the bytes it was to move, and nothing elsewhere but its descriptors.
- The engine fetches a descriptor when it comes to it and writes none of them; the caches are coherent. It reads a
  descriptor word by word and gives back what was written (`DmaChain.Reads`); beyond that, what it makes of other bytes
  is left open.
- CMD8 is a command every idle SD card may be sent, as section 4.2.3 of the SD Physical Layer Simplified Specification
  has it; a version 1 card leaves it unanswered. A CMD1 with a zero argument is a query and powers nothing up.
- NFC_ReadRetry sets the level it is given.
- In `ceil`, `huge + x > 0.0` holds for every finite x that reaches it; `x + x` turns a signalling NaN into a quiet one.

## Left out

- CardClock.Host.SetCardClk: only for clocks from 400 kHz to 52 MHz, the range the host declares.
- MmcProtocol.Mmc.Init: says nothing about legality and geometry when the SD power-up fails with another error than TIMEOUT, leaves the card powered up all the same, and neither CMD8 nor the version field makes it an SD card: the driver then treats it as an MMC card.
- MmcProtocol.Mmc.Init: the transfer speed field, the extended CSD's erase group and partition bytes, and the CID are not modelled.
- BlockStack.Disk.Bread: with block lengths below 512 (READ_BL_LEN below 9) the requests are not modelled.
- LogicalDisk.Window.LogicalInit: the hardware set-up before the registration, and LogicalDisk.Window.LogicalExit: the clock and memory clean-up.
- DmaChain.TransferIn: lengths that are not a multiple of 4 lose their tail on the CPU path; a FIFO that runs dry is described by CpuRead alone, not the driver's reading of the status bits after it.
- NandRetry.Nand.ReadSinglePage: chip 0 only, and the ready/busy wait before it is taken to succeed.
- NandRetry.CalAddrInChip: only the five-cycle form, the one the read path uses.
- DramTraining.Controller.Init: the other controller registers, the delays, the size detection and the clock set-up.
- AtagList.TagList.DoBootLinux: the commented-out memory, initrd and serial tags.
- SPI branches, and `mmc_erase_t`, which `mmc_berase` no longer calls.
- Polling timeouts, GPIO and clock gates, cache flushes and messages.
- `acos`, `asin`, `atan`, the USB and display code and the NAND logic layer.
