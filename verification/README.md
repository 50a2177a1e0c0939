# Storage and bus drivers of the bootloader, modelled and proved

The drivers below talk to hardware that acts on its own. Each one is modelled as the class it is in C,
with its fields, loops and error paths; the hardware is a second party in the same object whose steps are
chosen arbitrarily (`*`) between any two register reads. The main theorem of each part says that the
driver's loops amount to the simple thing they exist for.

| part | modules | main result |
|---|---|---|
| shared references | `Arith`, `Options`, `Buffers`, `BlockStore` | one array transfer; two neighbouring ones are one; a read returns what was written |
| NVMe | `NvmeSpec`, `NvmePrp`, `NvmeRing`, `NvmeTimeouts`, `NvmeQueue`, `NvmeSmmu`, `NvmeBlocks` | every run of the queue protocol is safe; which commands can still be answered after any number of timeouts; the PRP entries describe exactly the buffer; a block read or write is one array transfer |
| QSPI NOR flash | `NorFlash`, `FlashMarks`, `QspiFlash` | erasing any block range on sector-granular flash erases exactly that range, if and only if every erase and program command that matters took effect; what is left if not, byte by byte |
| eMMC | `EmmcCard`, `Emmc` | blocking and resumed transfers move each block once; erase commands partition the request |
| QSPI controller | `QspiEngine` | a transaction moves exactly its buffers, in order, however it is driven |
| combined UART | `CombUart` | under every interleaving of the two ends of a mailbox, what is received is what was sent, in order, each byte once; a receive call stays inside its buffer if and only if it asks for something |
| I2C register devices | `I2cDev` | chunked writes and reads are one write and one read of the register file |
| PCIe BARs | `PcieRounding`, `PcieBars` | the loop makes exactly the turns of a function of the answers; regions are aligned and disjoint, and inside their windows if and only if the padding fits |
| TCA9539 | `Tca9539` | each pin is what it was last set to; the cached byte is exact if and only if the last write to reach the port was acknowledged or changed nothing |

`NvmeRing` states the queue protocol of the NVM Express Base Specification 1.4 (sections 4.1 and 4.6) as a state
machine over values, and proves it over all runs; `NvmeQueue.QueuePair` is the driver's queue pair, each method of
which is proved to take the corresponding step of that machine. `NvmeSpec` is the controller's reading of PRP
entries (section 4.3) and knows nothing of how the driver builds them. `NorFlash` is a chip on which programming
is a bitwise AND that wraps inside its page and which refuses commands while busy or not write-enabled.
`EmmcCard` has an SDMA engine that halts at every 512 KiB boundary (SD Host Controller Simplified Specification,
section 2.2.1) and erases whole groups or single sectors (JESD84-B51, sections 6.6.9 and 6.6.10).

Where a property does not hold of the code, the code is kept, the exact condition is proved, and an instance is
given: `NvmeRing.AdminQueueWorksIff`; `NvmeTimeouts.AnswerableIff` and `SubmitLosesIff` with `EveryEndIsReached`;
`NvmePrp.TransferIsWholePages`; `NvmeSmmu.FreeClosesTheSameWindow`; `FlashMarks.TruthfulIff` and
`QspiFlash.FlashDriver.SkippedIff` with `SectorNotErased`, `HeadPageLost` and `HeadUnread`; `Emmc.RangeCheckIff` with
`RangeCheckWitness`; the second call of `Emmc.Sdmmc.XferWait`; `QspiEngine.TwoRuns` with `SentDiffers`;
`CombUart.StaysInsideIff` with `PastTheBuffer` and `Mailbox.FirstByteOutside`; `I2cDev.ChunkFits` and `StagingHoldsIff`
with `TwoBytesOnly` and `ThreeBytesOfStaging`; `PcieBars.ContainedIff` with `SticksOut`; `PcieBars.PhantomIff` with
`HalfTaken`; `Tca9539.AnyRun` with `TornWitness`.

The flash driver ends its erase and program loops at the first command whose transfer fails, and drops the error. There
the environment is a schedule, read in order: `fate` gives for each erase and program command whether its transfer goes
well, fails unseen by the chip, or fails although the chip has seen it; `link`, `ended` and `room` do so for the other
transfers, the status polls and the allocations. A run is steady if none of the others failed and no wait ran out.
Each of the others is noted with its purpose; the driver heeds all of them but those of its waits and of the
parameter-sector erase, so one that fails is told (`Told`).
`erased` and `restored` are the bytes that erase commands took effect on and that later programs put back.

In the eMMC, QSPI, I2C and TCA9539 drivers the hardware may fail at any step, and a ghost counter (`faults`, `failures`,
`failed`) goes up when it does. Beside refused requests and eMMC's own data timeout, an error is reported exactly when
the counter has moved: no failure is dropped and none invented. Over NVMe, an error other than a timeout is reported
exactly when a command has failed (`NvmeBlocks.Reported`).

## Model

| member | source | states |
|---|---|---|
| BlockStore.TransferredAdjacent | drivers/nvme/tegrabl_nvme_bdev.c:68-80 | two neighbouring transfers are the one transfer of their union, which is what a chunking loop relies on |
| BlockStore.WriteThenRead | drivers/nvme/tegrabl_nvme_bdev.c:37-153 | reading back into any buffer what was written returns the written bytes, and into the same buffer leaves memory unchanged |
| BlockStore.TransferFrame | drivers/nvme/tegrabl_nvme_bdev.c:101-153 | a write leaves memory and every block outside its range alone; a read leaves every block alone |
| NvmeSpec.GatherContiguous | drivers/nvme/tegrabl_nvme.c:848-902 | reading through a contiguous page description reads the plain range |
| NvmeSpec.ScatterContiguous | drivers/nvme/tegrabl_nvme.c:848-902 | writing through a contiguous page description replaces the plain range |
| NvmeSpec.EffectFaults | drivers/nvme/tegrabl_nvme.c:55-66 | a command succeeds only if the controller can reach every byte its entries name, and meets an unmapped page exactly if it cannot |
| NvmePrp.TransferIsWholePages | drivers/nvme/tegrabl_nvme.c:254-295 | the largest transfer is at most 512 KiB, and is a positive whole number of pages, for any MDTS, if and only if MPSMIN is at most 7 |
| NvmePrp.BlockCountFitsCdw12 | drivers/nvme/tegrabl_nvme.c:498-536 | the 16-bit mask on the zero-based block count never cuts a count the driver passes |
| NvmePrp.ListContiguous | drivers/nvme/tegrabl_nvme.c:888-894 | a list of consecutive pages decodes to one contiguous range of page-aligned segments |
| NvmePrp.EntriesFit | drivers/nvme/tegrabl_nvme.c:874-887 | the number of list entries never exceeds max_entries, is the number the controller needs, and fits one list page, so the check never fires and no chaining is needed |
| NvmeSmmu.WindowIsLeast | drivers/nvme/tegrabl_nvme.c:37-74 | a page is in the protected window exactly when some byte of the buffer lies on it |
| NvmeSmmu.FreeClosesTheSameWindow | drivers/nvme/tegrabl_nvme.c:109-119 | unprotecting with the size that protecting returned closes the same window if and only if the buffer is page aligned |
| NvmeRing.StepInv | drivers/nvme/tegrabl_nvme.c:314-402 | each host or controller step keeps the invariant that ties every index, phase and slot to the number of commands submitted, fetched, executed and accepted |
| NvmeRing.HeadIsNewIff | drivers/nvme/tegrabl_nvme.c:338-383 | the phase test at the head passes exactly when there is an answer not accepted yet |
| NvmeRing.EveryRunIsSafe | drivers/nvme/tegrabl_nvme.c:314-402 | in every run from start-up: commands execute once each in order, the n-th accepted entry answers the n-th command, no stale entry passes the phase test, a fresh one carries the awaited cid, and no unfetched slot is overwritten |
| NvmeRing.NoDeadlock | drivers/nvme/tegrabl_nvme.c:338-402 | while a command is outstanding, fetch, completion or acceptance is always possible |
| NvmeRing.AdminQueueWorksIff | drivers/nvme/tegrabl_nvme.c:754-759 | with MIN(mqes, 2) slots, a command can be answered in some run if and only if the zero-based MQES is at least 2 |
| NvmeTimeouts.PlaySound | drivers/nvme/tegrabl_nvme.c:385-402 | with a host that may give up at any moment and submit again, every step keeps the invariant that ties indices, phases, slots and cids to which submissions have been fetched, executed and accepted |
| NvmeTimeouts.EveryRunWithTimeouts | drivers/nvme/tegrabl_nvme.c:338-402 | in every run from start-up with any number of timeouts each submission is executed at most once, and as long as no cid is used twice every accepted answer is the asking command's own |
| NvmeTimeouts.AnswerableIff | drivers/nvme/tegrabl_nvme.c:385-402 | a command submitted under a new cid at any moment of any run can be answered if and only if no unclaimed answer is at the head and its submission does not make the tail meet the controller's head |
| NvmeTimeouts.NextCommandAfterTimeout | drivers/nvme/tegrabl_nvme.c:385-402 | from any state the first timeout leaves, the next command can be answered if and only if the abandoned one is unanswered and has been fetched or the queue has more than two slots |
| NvmeTimeouts.SubmitLosesIff | drivers/nvme/tegrabl_nvme.c:314-319 | submitting loses commands if and only if the tail meets the controller's head; then it loses every unfetched one and the new one |
| NvmeTimeouts.LostForever | drivers/nvme/tegrabl_nvme.c:314-402 | a lost command is never executed, in any continuation |
| NvmeTimeouts.BothLost | drivers/nvme/tegrabl_nvme.c:815-815 | on the driver's queue of two slots a command abandoned before its fetch and the one after it are both lost, and nothing but giving up is possible |
| NvmeTimeouts.WedgedUntilReuse | drivers/nvme/tegrabl_nvme.c:338-383 | an unclaimed answer stays at the head and nothing is accepted, in every run in which no command reuses its cid |
| NvmeTimeouts.ReuseTakesOldAnswer | drivers/nvme/tegrabl_nvme.c:338-383 | a command that does reuse the cid is given the old answer without having been executed |
| NvmeTimeouts.EveryEndIsReached | drivers/nvme/tegrabl_nvme.c:338-402 | runs from start-up that lose the next command, that leave it answerable, and that wedge it |
| NvmeRing.OutcomeStep | drivers/nvme/tegrabl_nvme.c:338-383 | controller steps keep the outstanding command either untouched or executed once |
| NvmeRing.OutcomeAccept | drivers/nvme/tegrabl_nvme.c:338-383 | an entry that passes the phase test is the truthful answer to the outstanding command |
| NvmeQueue.QueuePair.constructor | drivers/nvme/tegrabl_nvme.c:121-201 | a new queue pair is the initial state of the protocol, and ready when it has at least two slots |
| NvmeQueue.QueuePair.GetCurrentEntry | drivers/nvme/tegrabl_nvme.c:321-327 | the slot at the tail, cleared, nothing else changed |
| NvmeQueue.QueuePair.AdvanceTailSq | drivers/nvme/tegrabl_nvme.c:314-319 | the tail moves to its ring successor |
| NvmeQueue.QueuePair.AdvanceHeadCq | drivers/nvme/tegrabl_nvme.c:329-336 | the head moves to its ring successor and the phase flips exactly at the wrap |
| NvmeQueue.QueuePair.RingSqDoorbell | drivers/nvme/tegrabl_nvme.c:385-391 | writing the tail to the doorbell is the submit step of the protocol |
| NvmeQueue.QueuePair.RingCqDoorbell | drivers/nvme/tegrabl_nvme.c:302-305 | writing the head to the doorbell tells the controller how far the host has read |
| NvmeQueue.QueuePair.WaitForCommand | drivers/nvme/tegrabl_nvme.c:338-383 | unless time runs out, the returned status is the answer to this command and the head is past it; a timeout leaves the head where it was, with no answer to the command there |
| NvmeQueue.QueuePair.ExecCmd | drivers/nvme/tegrabl_nvme.c:385-402 | without a timeout the command ran exactly once and its status decides the result, its effect being the only one; a timeout leaves it outstanding |
| NvmeBlocks.DescribesOnePage | drivers/nvme/tegrabl_nvme.c:858-865 | prp1 alone describes a buffer that ends on its first page |
| NvmeBlocks.DescribesTwoPages | drivers/nvme/tegrabl_nvme.c:867-872 | prp1 and a direct prp2 describe a buffer that ends on its second page |
| NvmeBlocks.DescribesList | drivers/nvme/tegrabl_nvme.c:874-902 | prp1 and the list describe any longer buffer |
| NvmeBlocks.CommandMoves | drivers/nvme/tegrabl_nvme.c:498-536 | carrying out a command whose entries describe the buffer is one array transfer of its blocks |
| NvmeBlocks.CommandIsExecutable | drivers/nvme/tegrabl_nvme.c:498-536 | the driver never builds a command the controller would have to refuse |
| NvmeBlocks.CommandAffects | drivers/nvme/tegrabl_nvme.c:498-536 | whatever status the controller reports, only the command's own blocks or buffer bytes can have changed |
| NvmeBlocks.WithinReachable | drivers/nvme/tegrabl_nvme.c:930-971 | the controller can reach every byte a command names if its entries describe a mapped buffer |
| NvmeBlocks.WindowReaches | drivers/nvme/tegrabl_nvme.c:37-74 | an open window around a buffer maps each of its bytes |
| NvmeBlocks.NvmeContext.IncrementCommandId | drivers/nvme/tegrabl_nvme.c:307-312 | command ids count modulo 0xffff, so 0xffff is never used |
| NvmeBlocks.IdsDiffer | drivers/nvme/tegrabl_nvme.c:307-312 | any 65535 commands in a row carry different ids |
| NvmeBlocks.IdsDistinct | drivers/nvme/tegrabl_nvme.c:307-312 | the first 65535 commands of a context meet the hypothesis under which EveryRunWithTimeouts says that every answer is the asking command's own |
| NvmeBlocks.NvmeContext.SmmuProtect | drivers/nvme/tegrabl_nvme.c:37-74 | with an SMMU that does not refuse, exactly the least window around the buffer is open afterwards, besides what was open; refused, or without an SMMU, nothing changes; NO_MEMORY is reported exactly when the SMMU refused; the size is zero exactly when there is nothing to close |
| NvmeBlocks.NvmeContext.SmmuUnprotect | drivers/nvme/tegrabl_nvme.c:76-107 | closes the window recomputed from the original length, and no other page |
| NvmeBlocks.NvmeContext.PreparePrp2 | drivers/nvme/tegrabl_nvme.c:848-902 | prp1 and prp2 (none, page or list) describe exactly the buffer, pages after the first aligned; it never fails for a length in range and changes no data |
| NvmeBlocks.NvmeContext.RwCmd | drivers/nvme/tegrabl_nvme.c:498-536 | exactly one command is submitted, under the id in force; success means the blocks have been moved; a command that fails or times out may have left anything in its own blocks or buffer bytes, and has changed nothing else; the controller meets no unmapped page if the buffer is mapped |
| NvmeBlocks.NvmeContext.RwBlocks | drivers/nvme/tegrabl_nvme.c:915-984 | every outcome has moved a prefix of the request and torn at most the one chunk after it, success has moved the whole; unless the SMMU refused the window the controller has met no unmapped page, because the window is open before the first command; afterwards exactly the window is closed on success and open otherwise |
| NvmeBlocks.NvmeContext.RwChunks | drivers/nvme/tegrabl_nvme.c:945-971 | the chunk loop moves a prefix of the request and tears at most one chunk, on success it moves the whole; with the buffer mapped no command meets an unmapped page |
| NvmeBlocks.NvmeContext.NextBulk | drivers/nvme/tegrabl_nvme_bdev.c:68-70 | a chunk is never empty and never longer than one command can describe |
| NvmeBlocks.NvmeContext.BdevTransfer | drivers/nvme/tegrabl_nvme_bdev.c:37-153 | out-of-range requests and only those are refused, untouched; success is one array transfer of the request and leaves no page open that was not; any other outcome is a transfer of a prefix with at most one torn chunk after it; if the SMMU refuses no window, the controller meets no unmapped page; without a timeout, an error is reported if and only if a command has failed |
| NvmeBlocks.NvmeContext.WriteThenReadBack | drivers/nvme/tegrabl_nvme_bdev.c:37-153 | a successful write call followed by a successful read call copies the bytes from one buffer to the other, and with one buffer leaves memory as it was |
| NorFlash.BytesRoundTrip | drivers/qspi_flash/tegrabl_qspi_flash.c:1279-1290 | the address bytes sent read back as the address exactly when it fits them |
| NorFlash.SectorEraseAt | drivers/qspi_flash/tegrabl_qspi_flash.c:977-1017 | the command sent for a sector erases that sector, sparing overlaid parameter sectors |
| NorFlash.ParameterEraseAt | drivers/qspi_flash/tegrabl_qspi_flash.c:852-889 | the command sent for a parameter sector erases its 4 KiB |
| NorFlash.ProgramInsidePage | drivers/qspi_flash/tegrabl_qspi_flash.c:1271-1347 | a chunk that stays in its page programs exactly its own bytes, by AND |
| NorFlash.ProgramOverErased | drivers/qspi_flash/tegrabl_qspi_flash.c:1196-1208 | programming erased bytes stores the data |
| NorFlash.ProgramAdjacent | drivers/qspi_flash/tegrabl_qspi_flash.c:1271-1347 | two neighbouring programs are one |
| QspiFlash.FlashDriver.WaitReady | drivers/qspi_flash/tegrabl_qspi_flash.c:575-620 | success means the chip is idle |
| QspiFlash.FlashDriver.WriteEn | drivers/qspi_flash/tegrabl_qspi_flash.c:622-682 | success means the latch has the value asked for; the array is untouched; a failed transfer ends it with TransferFailed, and a timeout means that the chip was busy at the last 2000 looks |
| QspiFlash.FlashDriver.EraseCommand | drivers/qspi_flash/tegrabl_qspi_flash.c:968-1046 | in any run the command erases exactly the bytes of its sector or none; without an error, on an idle chip, its fate alone says which, none is refused, and a bad fate ends the loop without an error |
| QspiFlash.FlashDriver.ParameterSectorErase | drivers/qspi_flash/tegrabl_qspi_flash.c:789-922 | in any run the erased bytes lie in the sectors asked for and nothing else changes; a run without an error has sent and erased as many sectors from the front as the fates of its commands say |
| QspiFlash.FlashDriver.SectorErases | drivers/qspi_flash/tegrabl_qspi_flash.c:933-1050 | the same for sectors, parameter sectors spared; in particular all of them exactly when every fate is good; commands are sent in one-line mode only, and a success has put four-line mode back |
| QspiFlash.FlashDriver.BulkErases | drivers/qspi_flash/tegrabl_qspi_flash.c:1057-1094 | reported success means the whole chip is erased; with a fair environment it is reported exactly when the command's transfer went well |
| QspiFlash.FlashDriver.FlashWrite | drivers/qspi_flash/tegrabl_qspi_flash.c:1228-1357 | in any run the stored bytes are the caller's at the blocks and nothing else changes; a steady run reports success and has stored as many pages from the front as the fates of its commands say; programs are sent in QPI mode only, and a success has left it |
| QspiFlash.FlashDriver.ProgramCommand | drivers/qspi_flash/tegrabl_qspi_flash.c:1271-1347 | one page program, never past the end of its page, that takes effect or not; on an idle chip its fate alone says which |
| QspiFlash.FlashDriver.FlashRead | drivers/qspi_flash/tegrabl_qspi_flash.c:1439-1586 | a read takes one transfer, whose fate is its result; of an idle chip it returns the blocks |
| QspiFlash.FlashDriver.EraseSectors | drivers/qspi_flash/tegrabl_qspi_flash.c:1188-1196 | with the parameter-sector pre-erase, whose result is not looked at, what is erased is what the fates of both loops' commands say, in any run inside the sectors asked for |
| QspiFlash.FlashDriver.PlanErase | drivers/qspi_flash/tegrabl_qspi_flash.c:1128-1148 | the sectors chosen are the least run that holds the request, and head and tail are exactly the blocks around it, also when both lie in one sector |
| QspiFlash.FlashDriver.BackupAround | drivers/qspi_flash/tegrabl_qspi_flash.c:1154-1186 | head and tail hold what the chip holds before and after the request in its sectors; which allocation or read fails first, by position, decides the error, and nothing else does |
| QspiFlash.FlashDriver.EraseAndRestore | drivers/qspi_flash/tegrabl_qspi_flash.c:1188-1210 | every run leaves each byte erased, put back or untouched as its marks say, the request never put back; in a steady run the marks are those the fates give |
| QspiFlash.FlashDriver.BdevErase | drivers/qspi_flash/tegrabl_qspi_flash.c:1096-1217 | in every run each byte holds ones if it was erased and not put back, else what it held before, only the covering sectors are concerned, and exactly the request is erased if and only if no byte made a difference; a failed transfer that is not of an ignored kind is the last one and ends in TransferFailed, which has no other cause but a failed bulk erase command; where saving head or tail fails, that error is the result and the chip is as it was; a timeout means the chip was busy at the last 2000 looks; a steady run reports success whatever the fates, which alone decide what was erased and put back; if all were good, exactly the request is erased |
| QspiFlash.ToldMeans | drivers/qspi_flash/tegrabl_qspi_flash.c:1154-1210 | a run that ends in success has met no failed transfer of the kinds the driver heeds, at any position |
| QspiFlash.ToldThen | drivers/qspi_flash/tegrabl_qspi_flash.c:1154-1210 | one part of a run that went well followed by another reports what the second reports, for all transfers of both |
| QspiFlash.FlashDriver.SkippedIff | drivers/qspi_flash/tegrabl_qspi_flash.c:1018-1028 | where the sectors held no ones, a reported success is true if and only if no erase and no program command was skipped, but for parameter-sector cases whose bytes make no difference, which are named exactly |
| QspiFlash.FlashDriver.NoParameterSectors | drivers/qspi_flash/tegrabl_qspi_flash.c:1018-1028 | on a chip without parameter sectors no skipped command is harmless |
| QspiFlash.FlashDriver.AllTaken | drivers/qspi_flash/tegrabl_qspi_flash.c:1188-1210 | if every fate is good, all sectors are erased and all of head and tail put back, whatever the chip held |
| QspiFlash.LoopStops | drivers/qspi_flash/tegrabl_qspi_flash.c:1018-1028 | a loop that meets a failed transfer after k good ones has sent k + 1 commands, of which k or k + 1 took effect |
| QspiFlash.SectorNotErased | drivers/qspi_flash/tegrabl_qspi_flash.c:1018-1028 | a run of the driver on a small chip that reports success with its one sector not erased |
| QspiFlash.HeadPageLost | drivers/qspi_flash/tegrabl_qspi_flash.c:1325-1335 | a run that reports success with the block in front of the request gone |
| QspiFlash.HeadUnread | drivers/qspi_flash/tegrabl_qspi_flash.c:1164-1168 | a run whose first transfer, the reading of the head, fails: it reports that, and the chip is as it was |
| FlashMarks.TruthfulIff | drivers/qspi_flash/tegrabl_qspi_flash.c:1096-1217 | whatever commands were skipped, exactly the request has been erased if and only if each byte that did not hold ones anyway is in the request exactly when it was erased and not put back |
| FlashMarks.OldOrOnes | drivers/qspi_flash/tegrabl_qspi_flash.c:1096-1217 | whatever commands were skipped, every byte of the chip is what it was, or ones |
| FlashMarks.MarksUntouched | drivers/qspi_flash/tegrabl_qspi_flash.c:1096-1217 | marks inside a range leave everything outside it as it was |
| FlashMarks.SkipsTell | drivers/qspi_flash/tegrabl_qspi_flash.c:1188-1210 | with any part of the sectors erased and any part of head and tail put back, exactly the request is erased if and only if it lies in the erased part and what is missing of head and tail does not |
| FlashMarks.RestoreMarks | drivers/qspi_flash/tegrabl_qspi_flash.c:1196-1208 | programming any pages of what was there before puts those bytes back, erased or not |
| FlashMarks.StoreWhole | drivers/qspi_flash/tegrabl_qspi_flash.c:1271-1347 | a program marked up to some byte stores the data up to it |
| QspiFlash.RestoredAround | drivers/qspi_flash/tegrabl_qspi_flash.c:1188-1210 | erasing a range and programming back what surrounds a part of it erases exactly that part |
| QspiFlash.SectorsCover | drivers/qspi_flash/tegrabl_qspi_flash.c:1130-1148 | the sector range computed from block and count is the least one holding the request, and lies on the chip |
| QspiFlash.BlockToSectorIs | drivers/qspi_flash/tegrabl_qspi_flash.c:769-771 | the shift-based conversion is floor division for every block the driver passes, without 32-bit wrap |
| EmmcCard.MovedIsTransfer | drivers/sdmmc/tegrabl_sdmmc_host.c:1169-1237 | a step of the SDMA engine is a transfer of its bytes on the array boot 1 followed by boot 2, or the user area |
| EmmcCard.PartitionSplice | drivers/sdmmc/tegrabl_sdmmc_host.c:1408-1467 | replacing bytes of a partition replaces the corresponding bytes of that one array and no others |
| EmmcCard.TrimSectorsFit | drivers/sdmmc/tegrabl_sdmmc_protocol.c:695-720 | a piece is never empty nor too long; with argument 0 it is whole aligned groups, with argument 1 it lies inside one group |
| EmmcCard.TrimSectorsLongest | drivers/sdmmc/tegrabl_sdmmc_protocol.c:695-720 | no longer legal erase starts where the chosen piece does and stays in the run |
| EmmcCard.EraseIsExact | drivers/sdmmc/tegrabl_sdmmc_protocol.c:695-720 | a card that erases whole groups for argument 0 erases exactly the chosen piece |
| Emmc.RangeCheckIff | drivers/sdmmc/tegrabl_sdmmc_protocol.c:1732-1738 | for all 32-bit requests, the range check tells requests in range from others if and only if block + count does not wrap or the start is out of range anyway |
| Emmc.RangeCheckWitness | drivers/sdmmc/tegrabl_sdmmc_protocol.c:1732-1738 | a request for almost 2^32 blocks that passes on a device of eight |
| Emmc.CarryingStep | drivers/sdmmc/tegrabl_sdmmc_host.c:1169-1237 | engine progress keeps the request's effect exact up to the byte reached |
| Emmc.CoversAppend | drivers/sdmmc/tegrabl_sdmmc_protocol.c:1166-1314 | one more command extends the in-order, gap-free coverage of the request |
| Emmc.MappingOpens | drivers/sdmmc/tegrabl_sdmmc_protocol.c:1247-1258 | one more command opens exactly its own mapping |
| Emmc.GivenUpGoesOn | drivers/sdmmc/tegrabl_sdmmc_protocol.c:656-684 | what a command still moves after the driver has given up on it are the next bytes of its own request |
| Emmc.Sdmmc.SelectAccessRegion | drivers/sdmmc/tegrabl_sdmmc_protocol.c:1866-1906 | success means the card and current_access_region agree on the region asked for; after an error they agree exactly if the card has not switched; it fails exactly if a command or a check of its response has |
| Emmc.Sdmmc.SelectForIo | drivers/sdmmc/tegrabl_sdmmc_protocol.c:656-684 | with an earlier command perhaps still running, success means that it has ended and the card has the partition asked for; meanwhile nothing but that command's next bytes is moved, or, if it fails, garbled |
| Emmc.Sdmmc.GetCorrectBootBlock | drivers/sdmmc/tegrabl_sdmmc_host.c:1408-1467 | maps a run to the longest prefix on one boot partition, with the card switched there; refuses exactly runs past the second partition; after an error the driver knows the partition exactly if the card has not switched, and without boot partitions it does not |
| Emmc.Sdmmc.QueryStatus | drivers/sdmmc/tegrabl_sdmmc_host.c:1169-1237 | idle only when every byte has been moved and no error has been raised since the command was sent; an error raised by then gives CRC failure or data timeout and stops the engine, and nothing else does; I/O failure only when the driver's clock has run out; a status other than in-progress is final; each in-progress poll uses up a bound |
| Emmc.Sdmmc.StartChunk | drivers/sdmmc/tegrabl_sdmmc_protocol.c:1212-1278 | one command for the next blocks, on the matching partition, with a 16-bit count that is never cut, and its buffer mapped |
| Emmc.Sdmmc.WaitChunk | drivers/sdmmc/tegrabl_sdmmc_protocol.c:1290-1304 | success means the command's blocks are moved and its mapping is given back, once |
| Emmc.Sdmmc.BlockIo | drivers/sdmmc/tegrabl_sdmmc_protocol.c:1166-1314 | runs straddling the boot boundary are split there; blocking success has moved all blocks, non-blocking success leaves only the last command running |
| Emmc.Sdmmc.Io | drivers/sdmmc/tegrabl_sdmmc_protocol.c:1695-1766 | for all 32-bit requests, also while a command of an earlier call is still running: success means the check was passed; unless its sum wraps, a blocking success is one array transfer of an in-range request, a non-blocking one has started the first chunk; it begins where the earlier command ended, which without one is where the call began; a failed earlier command may have garbled its own bytes; an error other than the refusal of a request out of range is reported if and only if a command has failed, the controller has raised an error or the driver's own clock has run out |
| Emmc.Sdmmc.XferWait | drivers/sdmmc/tegrabl_sdmmc_protocol.c:1316-1381 | in progress leaves it resumable; complete means each block was moved by exactly one command, and the mappings given back since the request was made are those of its commands, each once and in order. A further call gives the last mapping back again, and issues again exactly the blocks from last_xfer_blocks on, none if there are none; an error is reported only if one of the same three things has happened, and none has in a completed request |
| Emmc.Sdmmc.IoThenWait | drivers/sdmmc/tegrabl_sdmmc_protocol.c:1316-1381 | for any number and schedule of timeouts and re-entries a completed request equals one array transfer with the mapping of each of its commands given back once, in order; with no blocks at all, a mapping of an earlier request is given back again |
| Emmc.ErasePiecesAppend | drivers/sdmmc/tegrabl_sdmmc_protocol.c:922-1033 | one more erase command extends the partition of the request |
| Emmc.Sdmmc.GetTrimSectors | drivers/sdmmc/tegrabl_sdmmc_protocol.c:695-720 | the branches compute the piece whose fitness and exactness are proved beside it |
| Emmc.Sdmmc.ErasePiece | drivers/sdmmc/tegrabl_sdmmc_protocol.c:940-1021 | one pass erases the longest legal piece starting at the next block, on the right partition, by a group erase or trim |
| Emmc.Sdmmc.EraseBlock | drivers/sdmmc/tegrabl_sdmmc_protocol.c:922-1033 | every outcome has erased exactly a prefix of the request; success has erased all of it by commands that partition it, each the longest legal one where it starts, and has seen the card leave the programming state; an error is reported exactly when a command has failed; terminates if the card leaves the programming state |
| Emmc.Sdmmc.Erase | drivers/sdmmc/tegrabl_sdmmc_protocol.c:1956-2003 | for all 32-bit requests: unless its sum wraps, success implies the request was in range and exactly it is erased; the other device and memory never change |
| QspiEngine.SplitIsWhole | drivers/qspi/tegrabl_qspi.c:1213-1262 | DMA words, PIO words and PIO bytes add up to the request; DMA is chosen exactly for aligned transfers of 16 bytes or more in DMA mode, which then has all whole words; short or unaligned transfers go byte by byte, all others word by word with fewer than four bytes left over |
| QspiEngine.ReplayAppend | drivers/qspi/tegrabl_qspi.c:1366-1413 | carrying out one more transfer extends the replay of the list |
| QspiEngine.PartialStep | drivers/qspi/tegrabl_qspi.c:541-573 | moving the next bytes of a transfer extends what it has moved |
| QspiEngine.QspiHandle.FillTxFifo | drivers/qspi/tegrabl_qspi.c:541-573 | however full the FIFO is, the packets pushed are the next ones and the counters account for them |
| QspiEngine.QspiHandle.DrainRxFifo | drivers/qspi/tegrabl_qspi.c:870-904 | however full the FIFO is, the packets taken are the next ones and the counters account for them |
| QspiEngine.QspiHandle.StartPio | drivers/qspi/tegrabl_qspi.c:575-618 | a started send has moved something, a started receive has something to wait for |
| QspiEngine.QspiHandle.SendWaitPio | drivers/qspi/tegrabl_qspi.c:620-664 | success ends the phase with the counters equal to what is left; in-progress can be resumed |
| QspiEngine.QspiHandle.ReceiveWaitPio | drivers/qspi/tegrabl_qspi.c:941-982 | success ends the phase with the counters equal to what is left; in-progress can be resumed |
| QspiEngine.QspiHandle.WaitDma | drivers/qspi/tegrabl_qspi.c:738-786 | success has moved all DMA words of the transfer |
| QspiEngine.QspiHandle.StartRemaining | drivers/qspi/tegrabl_qspi.c:1117-1176 | nothing in progress exactly when the transfer has moved all its bytes; otherwise the next phase runs and the phase measure does not grow |
| QspiEngine.QspiHandle.StartOneTransaction | drivers/qspi/tegrabl_qspi.c:1206-1285 | leaves the first phase running at the start of its own buffer, with all len / 4 words waiting for DMA if and only if the mode is DMA, the buffer is word aligned and len is at least 16, with all of them waiting for PIO if only the mode is not, and otherwise with all bytes waiting |
| QspiEngine.QspiHandle.WaitTransfer | drivers/qspi/tegrabl_qspi.c:1287-1316 | a finished phase strictly lowers the phase measure |
| QspiEngine.QspiHandle.CheckTransferStatus | drivers/qspi/tegrabl_qspi.c:1366-1413 | success with nothing in progress means every transfer is done; an asynchronous list comes back in progress at the first later transfer that goes by DMA, and only there; chip select is asserted exactly while a transaction is in progress |
| QspiEngine.QspiHandle.XferWait | drivers/qspi/tegrabl_qspi.c:1318-1364 | success means the transaction is completed as a synchronous one would be; terminates by (transfers left, phases left); it ends in an error exactly if the controller has failed |
| QspiEngine.QspiHandle.ValidateParameters | drivers/qspi/tegrabl_qspi.c:1435-1480 | accepts exactly non-empty lists of valid half-duplex transfers |
| QspiEngine.QspiHandle.Transaction | drivers/qspi/tegrabl_qspi.c:1482-1518 | a finished transaction has moved exactly the bytes of its buffers, in order, once; an asynchronous one returns in progress exactly at a transfer by DMA; invalid lists and only those are refused untouched; chip select mirrors xfer_is_progress; another error is reported exactly if the controller refused a request or was not ready when it had to be |
| QspiEngine.QspiHandle.TransactionThenWait | drivers/qspi/tegrabl_qspi.c:1318-1413 | any sequence of status checks and waits after an asynchronous start ends in the synchronous result |
| QspiEngine.TwoRuns | drivers/qspi/tegrabl_qspi.c:1318-1413 | two completed runs of one transaction, however driven and against any devices, have sent and received equally many bytes; they have sent the same bytes unless a buffer was received into and then sent from; with the same answers they end alike |
| QspiEngine.SentDiffers | drivers/qspi/tegrabl_qspi.c:1482-1518 | a transaction that sends on what it received sends different bytes for different answers |
| CombUart.DecodeEncode | drivers/comb_uart/tegrabl_comb_uart.c:180-196 | decoding a word gives back its one to three bytes, with the trigger bit set and the flush bit only on the last |
| CombUart.WordsInDigits | drivers/comb_uart/tegrabl_comb_uart.c:25-42 | the words of one, two and three bytes, in digits |
| CombUart.AckClears | drivers/comb_uart/tegrabl_comb_uart.c:83-87 | acknowledging clears the trigger bit and leaves the data |
| CombUart.PacketsDecode | drivers/comb_uart/tegrabl_comb_uart.c:166-196 | the words of a buffer of any length decode to the buffer, and there are ceil(len / 3) of them |
| CombUart.StepInv | drivers/comb_uart/tegrabl_comb_uart.c:83-214 | every single register access of either end keeps: a mailbox seen clear stays clear until written, a word the receiver holds is still the triggered mailbox word, and every byte handed over is in exactly one place |
| CombUart.EveryInterleaving | drivers/comb_uart/tegrabl_comb_uart.c:89-214 | under every interleaving of sender and receiver accesses, the sender only replaces an acknowledged word nobody holds, and what the receiver's calls got and dropped are the bytes handed over, in order, each once |
| CombUart.ReceivedIsSent | drivers/comb_uart/tegrabl_comb_uart.c:89-214 | a receive call with room for everything gets a prefix of what was sent, and all of it once the mailbox is empty |
| CombUart.StaysInsideIff | drivers/comb_uart/tegrabl_comb_uart.c:118-128 | no interleaving makes a call store more bytes than it asked for, if and only if it asked for at least one |
| CombUart.PastTheBuffer | drivers/comb_uart/tegrabl_comb_uart.c:118-128 | a call of length zero that meets one word stores its byte and goes on |
| CombUart.Mailbox.FirstByteOutside | drivers/comb_uart/tegrabl_comb_uart.c:118-128 | with length zero the loop over a word puts its first byte at rx_buf[0] and does not end |
| CombUart.Mailbox.Tx | drivers/comb_uart/tegrabl_comb_uart.c:150-214 | against a receiver running the receive rule step by step: success means the whole buffer has been acknowledged; in every outcome the words written are those of Packets for the part handed over, and a timeout has left the mailbox with a word in it |
| CombUart.Mailbox.BuildWord | drivers/comb_uart/tegrabl_comb_uart.c:179-196 | the loop of shifts and ors builds the encoded word |
| CombUart.Mailbox.WaitTxClear | drivers/comb_uart/tegrabl_comb_uart.c:44-81 | polling changes nothing that was handed over; success means the last poll saw the mailbox clear, a timeout that it did not |
| CombUart.Mailbox.Rx | drivers/comb_uart/tegrabl_comb_uart.c:89-148 | for every length and against a sender running on between its accesses: the memory from the buffer on receives the bytes handed over after those of earlier calls, as many as asked for at most, or up to 2^32 if none were asked for; nothing behind them is written, a request ending inside a word drops at most two bytes, and an error drops none |
| I2cDev.LeRoundTrip | drivers/i2c_dev/tegrabl_i2c_dev.c:228-232 | the slave reads the address back exactly when it fits the address bytes |
| I2cDev.ChunkFits | drivers/i2c_dev/tegrabl_i2c_dev.c:218-225 | in 32-bit arithmetic: a chunk never exceeds what remains, so regs_remaining never underflows; it keeps to the transfer limit if and only if its bytes and the address do not wrap together, and makes progress if and only if one register and its address fit or all that remain seem to |
| I2cDev.ChunkCounts | drivers/i2c_dev/tegrabl_i2c_dev.c:213-252 | the chunks of a request add up to its 32-bit byte count, also where that has wrapped |
| I2cDev.StagingHoldsIff | drivers/i2c_dev/tegrabl_i2c_dev.c:201-225 | the staging buffer holds the first message if and only if address and byte count do not wrap together |
| I2cDev.TwoBytesOnly | drivers/i2c_dev/tegrabl_i2c_dev.c:201-225 | 2^31 + 1 registers of two bytes count as two bytes |
| I2cDev.ThreeBytesOfStaging | drivers/i2c_dev/tegrabl_i2c_dev.c:201-225 | for 2^32 - 1 registers of one byte, with four address bytes, three bytes are allocated and all are sent in one message |
| I2cDev.WriteReadsBack | drivers/i2c_dev/tegrabl_i2c_dev.c:57-265 | registers written read back as written, other registers are unchanged |
| I2cDev.Device.PutAddress | drivers/i2c_dev/tegrabl_i2c_dev.c:228-232 | the shift loop stores the address least significant byte first |
| I2cDev.Device.Write | drivers/i2c_dev/tegrabl_i2c_dev.c:163-265 | success stores the caller's bytes as far as their 32-bit count goes, all of them if and only if it does not wrap, in the registers asked for, each sent once at its own address; failure has stored a prefix; unless address and count wrap together the staging buffer is never overrun; a failure to send is reported exactly if a message failed; no message is longer than 4096 bytes |
| I2cDev.Device.Read | drivers/i2c_dev/tegrabl_i2c_dev.c:57-161 | success fills the buffer with the registers asked for as far as their 32-bit byte count goes, all of them if and only if it does not wrap; a count of zero is an error; registers and the rest of the buffer never change; another error is reported exactly if a message failed |
| I2cDev.Device.WriteThenReadBack | drivers/i2c_dev/tegrabl_i2c_dev.c:57-265 | a successful write call followed by a successful read call of the same registers returns what was written, as far as the 32-bit byte count goes |
| PcieRounding.OrLowOnes | drivers/pcie/tegrabl_pcie.c:163-164 | or-ing with size - 1 and adding one is the next multiple of a power of two |
| PcieRounding.RoundUpIsLeast | drivers/pcie/tegrabl_pcie.c:163-164 | the rounding expression, in wrapping 64-bit arithmetic, is the least multiple of the size at or above the cursor |
| PcieBars.ZeroSizeResetsCursor | drivers/pcie/tegrabl_pcie.c:159-164 | a register answering with type bits only asks for size zero and would put the cursor back to zero |
| PcieBars.UpperHalf | drivers/pcie/tegrabl_pcie.c:174-182 | the upper half of a conforming 64-bit BAR answers the complement of a power of two |
| PcieBars.SizeFine | drivers/pcie/tegrabl_pcie.c:157-192 | whatever register the loop sizes, upper halves included, a size it can accept is a power of two |
| PcieBars.SixteenGigabytes | drivers/pcie/tegrabl_pcie.c:174-182 | a device with a 64-bit BAR of 16 GiB is covered |
| PcieBars.PaddedIff | drivers/pcie/tegrabl_pcie.c:160-164 | a region that passes the size check lies inside the window if and only if the alignment padding fits as well |
| PcieBars.SticksOut | drivers/pcie/tegrabl_pcie.c:189-195 | answers and a window for which the loop accepts a BAR and places it past the window's end |
| PcieBars.ContainedIff | drivers/pcie/tegrabl_pcie.c:125-224 | for every conforming device, all regions lie inside their windows if and only if the padding of each accepted BAR fits, a condition on the answers, the start cursors and the window ends |
| PcieBars.RoomForAll | drivers/pcie/tegrabl_pcie.c:125-224 | windows of twice the total BAR size give every BAR a region inside its window and let no upper half be taken for a BAR |
| PcieBars.Layout | drivers/pcie/tegrabl_pcie.c:125-224 | unless a sum wraps 32 bits, every region is naturally aligned, not below its window and apart from the others of its space, in register order |
| PcieBars.PhantomIff | drivers/pcie/tegrabl_pcie.c:174-214 | a register that starts no BAR is given a region if and only if the 64-bit BAR below it was refused and its upper half, sized alone, passes the check |
| PcieBars.HalfTaken | drivers/pcie/tegrabl_pcie.c:174-214 | answers for which a refused 2 GiB BAR leaves its upper half four bytes of the I/O window |
| PcieBars.PciBus.Place | drivers/pcie/tegrabl_pcie.c:147-207 | accepts exactly what passes the check, and stores region, register, cursor and remaining size as the turn says; an accepted 64-bit BAR's two registers together hold the start of its region |
| PcieBars.PciBus.AllocBar | drivers/pcie/tegrabl_pcie.c:144-215 | one pass of the loop is one turn of the walk, or none |
| PcieBars.PciBus.AllocBars | drivers/pcie/tegrabl_pcie.c:125-224 | for every seven answers and every state of the bus, also one with a cursor past its window, the loop makes exactly the turns of WalkFrom and records each region in pdev->bar; each accepted BAR's register, with the upper half above it if it is 64-bit, holds the start of its region, every other register asked holds ones, and nothing else has changed; cursor plus remaining size stay equal to the window end in 32 bits |
| Tca9539.WithBitIs | drivers/gpio/tca9539_gpio.c:182-185 | setting or clearing a pin's bit leaves the other seven |
| Tca9539.AccessSets | drivers/gpio/tca9539_gpio.c:161-246 | a stored access sets its own pin on the chip and every other pin of the port to its last setting; the setting changes only on success |
| Tca9539.ExactIff | drivers/gpio/tca9539_gpio.c:161-246 | the cached byte of a port equals its register if and only if no torn pin holds anything but its last set value |
| Tca9539.AnyRun | drivers/gpio/tca9539_gpio.c:161-246 | over any accesses to a port, any of them failing: each pin's setting is the last that succeeded, and the cache is exact if and only if the last access to reach the chip was acknowledged or wrote what its pin was set to |
| Tca9539.TornWitness | drivers/gpio/tca9539_gpio.c:190-193 | one stored but unacknowledged write leaves the cache wrong |
| Tca9539.Chip.Init | drivers/gpio/tca9539_gpio.c:254-303 | success with an open bus device means an exact cache of registers 2, 3, 6 and 7 and no polarity inversion; without one it still reports success; either way reads and writes may follow |
| Tca9539.Chip.Write | drivers/gpio/tca9539_gpio.c:161-196 | one access to register 2 + p / 8 and to nothing else: a stored write sets the pin whatever it reports, a bus error is reported exactly if the message failed, the setting changes exactly on success, and after a reported success the port's cache is exact; without a bus handle every access to an existing pin is refused with a bad parameter and changes nothing |
| Tca9539.Chip.Config | drivers/gpio/tca9539_gpio.c:207-246 | the same for directions, in register 6 + p / 8; invalid pins and modes are refused untouched |

## Left out

- NvmeRing.EveryRunIsSafe: covers runs up to the first timeout; runs beyond it are those of NvmeTimeouts.EveryRunWithTimeouts, where cids may come round again after 65535 commands and old answers are then taken for new ones.
- NvmeBlocks.NvmeContext.RwCmd: queue and PRP-list memory lie outside data memory; buffer addresses that overlap them are not modelled.
- NvmeBlocks.NvmeContext.RwBlocks: a failed call leaves its window open, as the source does. A refused window is ignored, as in the source; what the SMMU then does to the commands is that they fail, having touched mapped pages only.
- NvmeSmmu.WindowIsLeast: the page mask is written as a remainder, the same thing for the power-of-two pages the controller can have.
- NvmePrp.TransferIsWholePages: MDTS is unbounded here; in C a shift by 31 or more is undefined.
- NVMe initialisation, identify and queue creation commands, and their field packing: straight register plumbing once the queue works.
- QspiFlash.FlashDriver.SkippedIff: speaks of steady runs and of sectors that held no ones; for any run and any contents the condition is FlashMarks.TruthfulIff, byte by byte. A caller cannot test either beforehand, since the fates are the bus's. After a status wait that runs out, commands the chip refuses count as not having taken effect.
- QspiFlash.FlashDriver.SetQuad: the vendor register writes for quad and QPI mode (SetQpi) are one transfer each, which may fail and does not touch the array; which bits they set is not modelled.
- Flash page sizes other than 256 and 512, and parameter sectors at the top of the chip: not used by the drivers that call this one.
- Emmc.Sdmmc.Io: a request whose 32-bit sum wraps passes the check and runs past the end of the device; nothing is said of what the card makes of it. A SWITCH command sent while data is moving is taken to be carried out, refused, or answered late.
- Emmc.Sdmmc.XferWait: an error leaves mappings in place, as the source does, so they are only claimed balanced in error-free runs.
- Emmc.Sdmmc.EraseBlock: the status loop after an erase command has no bound of its own; the card is assumed to leave the programming state after some number of polls.
- SD cards, RPMB, sanitize, tuning and bus-mode switching: no deep property, or (sd_erase) a different loop whose coverage is not exact.
- QspiEngine.QspiHandle.Transaction: 32-bit FIFO words stand for four memory bytes in order; register writes, dummy cycles and clock setup have no effect on data; choosing an operation mode may fail at will.
- Time: every timeout is an arbitrary number of polls; delays and clocks are not modelled. Cache maintenance is not modelled.
- CombUart.Mailbox.Rx: what lies behind the buffer, which a call of length zero overwrites, is memory without further meaning. The other end is taken to run the same rules as this driver. tegrabl_comb_uart_hw_flush and init are left out.
- I2cDev.Device.Write: the registers must exist on the slave and one register with its address must fit a transfer, otherwise I2cDev.ChunkFits says no progress is made. Where address and byte count wrap 32 bits together the first message overruns the staging buffer (I2cDev.StagingHoldsIff); nothing is said of what comes of that. A register address width of zero is not modelled.
- PcieBars.Layout: alignment and disjointness are claimed of devices whose BARs answer power-of-two sizes, unless a sum wraps 32 bits; PcieBars.ZeroSizeResetsCursor shows what a BAR of size zero does.
- Tca9539.Chip.Write: tca9539_gpio_read and the device-tree registration are left out, the first being one bus read.
- Null-pointer checks, error-code packing and log messages.
- Device tree, clock, regulator, display, crypto, SATA, DP AUX and I2C transaction code: plumbing, or the same chunking argument again.
