# Verified model of the Vibra kernel's data-structure and protocol logic

Vibra is a `no_std` Rust kernel. This project models in Dafny the parts of it
that are algorithms rather than hardware access, and proves what they are for.
Devices are byte arrays whose commands may fail at any point, clocks are
arbitrary inputs, and everything else the code does (branches, constants,
error results, limits) is kept.

Each group has a specification, written as plain functions or as a reference
state machine, and an imperative model of the code proved against it:

- **Framebuffer console** (`Glyph`, `Terminal`, `FramebufferConsole`): the text
  shadow, skipped cells, deferred redraw, bounded repaint and the two repaint
  paths against a reference terminal and a naive renderer.
- **ext2/3/4** (`Ext2BlockMap`, `Ext2Extents`, `Ext2Content`): pointer and
  extent block maps against recursive definitions, and file contents.
- **exFAT** (`ExfatChain`, `ExfatFile`, `Utf16`, `ExfatDirectory`,
  `ExfatRoundTrip`): FAT walks, the cursor cache, and the round trip between
  the fixture encoder and the directory parser.
- **ISO 9660** (`IsoNames`, `IsoSystemUse`, `IsoDirectory`): directory extents, the three ways
  of naming, and file reads.
- **Boot log** (`LogRing`, `LogSink`): a lossy ring feeding a file, data first
  and size second, over runs with failures and power cuts.
- **Block adapters** (`NvmeIo`, `AhciIo`, `FlatWrites`): byte-addressed I/O as
  chunked read-modify-write block commands over a flat array.
- **Queues and allocators** (`NvmeQueue`, `VirtioQueue`, `PciBars`): the phase
  bit protocol, the descriptor free list, the BAR pass.
- **Streams** (`ScanCodes`, `KeyboardSets`, `Keyboard`, `Utf8`, `CatPrint`,
  `TextLines`, `EditBuffer`): two scan-code decoders that agree, chunked UTF-8
  output, and an editor buffer seen as lines.
- `TerminalLaws`, `Ext2Format`, `ExfatVolume`, `IsoFormat`, `PciLaws`,
  `KeyboardLaws` and `Utf8Laws` say what these specifications mean without their own operations:
  what disks and registers hold, what is shown, typed and printed.
- `Wire`, `Arith`, `Layout` and `BlockDevice` hold shared types, arithmetic and the
  failing 512-byte-sector disk.

## Where the code and its description part

These are proved with the exact condition, or with a concrete case, in the
members named:

- A 32-bit BAR0 is never moved: its length is computed in 64 bits and always
  exceeds the 64 MiB bound, although the pass is there for BARs the firmware
  left at zero (`PciBars.MovedIffWide`, `ZeroBarStaysZero`).
- The pass looks at BAR starts only, so a new BAR can land inside a larger old
  one (`PciBars.ClearOfExisting`, `NewInsideOld`).
- ATAPI reads of 32 or more 2048-byte blocks always fail: the reader builds
  65536-byte commands and the command path refuses more than 65534 bytes
  (`AhciIo.DiscLimit`, `AtapiDisk.ReadBlocks`).
- The NVMe driver keeps seven of eight status-code bits and drops the type, so
  status code 80h and non-generic code 0 count as success (`NvmeIo.VerdictExact`);
  it does not compare command identifiers, so a timeout shifts all later
  answers (`NvmeQueue.TimeoutsShiftAnswers`, `StaleAnswer`). A read taken for a
  success before a partial write damages the bytes around it
  (`NvmeIo.NeighbourDamaged`).
- The GPU queue does not match answers with commands either, so a late answer
  passes for the next command's (`VirtioQueue.AnswersLagBehind`, `LateAnswer`).
- Resetting the cursor blink leaves a painted underline on the screen
  (`Console.ResetCursorBlink`).
- A log file without notes need not be gapless, since writing the note can
  itself fail (`LogSink.GapWithoutNote`); such a file is gapless exactly when
  no flush meets an overrun (`LogSink.Sink.RunSteps`).
- The crash guarantee holds from attaching on if the log file is found empty
  (`LogSink.AttachAndRun`) and fails for every file found with contents:
  a log that starts with another byte can be torn off right after it
  (`LogSink.OldFileOverwritten`).
- After a keyboard overflow a modifier sticks exactly if the bytes still queued
  leave it pressed (`Keyboard.OverflowLetsGo`, `StuckShift`).
- Deleting the last line does nothing if a line precedes it, where the comment
  says the line and its separator go (`EditBuffer.Editor.DeleteLine`).
- A Rock Ridge name cut into several parts is read as its last part: parts that
  say another one follows are dropped, not joined
  (`IsoSystemUse.WholeNameIff`, `NameCut`).
- How much of a broken file `cat` prints can depend on the first read's size
  (`CatPrint.SplitIndependence`).

## Model

| member | source | states |
|---|---|---|
| `FramebufferConsole.Console.Settle` | kernel/src/framebuffer.rs:813-984 | After any sequence of calls with any clock readings, a forced flush and a hidden cursor leave every pixel equal to a naive render of a reference terminal that ran only the text calls: skipping equal cells, deferring repaints and bounding them lose nothing |
| `FramebufferConsole.Console.RunOps` | kernel/src/framebuffer.rs:813-984 | After any run the shadow grid is the reference terminal's, and whenever no redraw is pending every pixel but the painted cursor's underline is the naive render |
| `Terminal.TimingIrrelevant` | kernel/src/framebuffer.rs:1562-1573 | The text on the grid depends only on the calls that print; clock readings, flushes and cursor calls can be dropped from a run |
| `Terminal.CellIndexInjective` | kernel/src/framebuffer.rs:837-881 | No two grid positions share a slot of the shadow grid |
| `Terminal.ScrollMovesUp` | kernel/src/framebuffer.rs:1082-1089 | Every row of a scrolled grid is the one below it before, and the last is blank |
| `TerminalLaws.ScrolledRender` | kernel/src/framebuffer.rs:1071-1101 | A scroll moves the picture up by one text line and leaves background in the last |
| `TerminalLaws.ReadingOrder` | kernel/src/framebuffer.rs:950-984 | Any text without control characters, printed on a cleared screen, stands in the grid in reading order, from the first line that has not been scrolled away: column c of line r holds the character that many lines and columns into the text, and cells behind its end are blank |
| `TerminalLaws.TextShown` | kernel/src/framebuffer.rs:950-984 | The cursor is then behind the last character, and only whole lines leave the grid, only while it is on the last line |
| `TerminalLaws.TabStop` | kernel/src/framebuffer.rs:964-967 | A tab goes to the first later column that is a multiple of four, or to the last column if none comes before it |
| `TerminalLaws.Newline` | kernel/src/framebuffer.rs:952-955 | A newline starts the next line; on the last one the grid moves up |
| `TerminalLaws.BackspaceBack` | kernel/src/framebuffer.rs:956-963 | A backspace goes back over the character just printed, a carriage return to the start of its line |
| `Glyph.PixelsAreLine` | kernel/src/framebuffer.rs:334-359 | The pixels of a glyph row, read from the left as binary digits, are the row |
| `Terminal.DrawnRender` | kernel/src/framebuffer.rs:837-881 | Storing one cell changes the naive image inside that cell and nowhere else |
| `Terminal.ClearedRendersBlank` | kernel/src/framebuffer.rs:813-834 | A cleared grid renders as background at every pixel, margins included |
| `Terminal.BlankCellPixels` | kernel/src/framebuffer.rs:1595-1683 | A cell with a blank glyph shows background whichever of its two blank codes it holds, so painting it as a solid run is the same image |
| `Glyph.PackedHalves` | kernel/src/framebuffer.rs:344-392 | The packed 64-bit word stores its left pixel in the low half and its right pixel in the high half |
| `Glyph.ExpandLine` | kernel/src/framebuffer.rs:334-359 | The four words of an expanded glyph line hold, in order, the eight pixels of its bits from the top one down |
| `FramebufferConsole.Console.constructor` | kernel/src/framebuffer.rs:674-742 | A console over arbitrary pixels comes up cleared, with pixels and grid in agreement |
| `FramebufferConsole.Console.Clear` | kernel/src/framebuffer.rs:813-834 | Grid and pixels are blank and agree, cursor home, no redraw owed |
| `FramebufferConsole.Console.DrawCharAt` | kernel/src/framebuffer.rs:837-881 | The named cell, and only it, holds the character; pixels and grid stay in agreement, also when the cell is skipped because it is unchanged, when the redraw is deferred, and when the painted cursor is on it |
| `FramebufferConsole.Console.DrawCellPixelsNative` | kernel/src/framebuffer.rs:905-942 | Exactly the pixels of one cell, clipped to the screen, get the glyph; every other pixel of the buffer keeps its value |
| `FramebufferConsole.Console.WriteGlyphRow` | kernel/src/framebuffer.rs:361-392 | Writes the expanded pixels of one glyph line and nothing beyond the clip length |
| `FramebufferConsole.Console.PutChar` | kernel/src/framebuffer.rs:950-984 | One character of terminal output: control characters, tab stops at multiples of four, wrapping and scrolling as in the reference terminal, with pixels still coherent |
| `FramebufferConsole.Console.Scroll` | kernel/src/framebuffer.rs:1071-1101 | The grid moves up one row and the last row is blank; the pixels are repainted or marked stale, never half |
| `FramebufferConsole.Console.LastUsedRow` | kernel/src/framebuffer.rs:774-790 | Every row below the result is blank and the result itself is not, unless it is row 0 |
| `FramebufferConsole.Console.RepaintRowStaged` | kernel/src/framebuffer.rs:1244-1296 | Through the staging line, exactly the pixels of one text row become the naive render |
| `FramebufferConsole.Console.RepaintRowByCells` | kernel/src/framebuffer.rs:1595-1683 | Cell by cell, exactly the same pixels get exactly the same values as on the staging path |
| `FramebufferConsole.Console.RedrawFromCells` | kernel/src/framebuffer.rs:1595-1683 | Repainting down to the larger of the last used row and the last stale row makes the whole image the naive render, on either path |
| `FramebufferConsole.Console.FlushIfDue` | kernel/src/framebuffer.rs:1562-1573 | A stale screen is repainted exactly when forced or when the interval has passed; a current one is left alone |
| `FramebufferConsole.Console.DrawCursor` | kernel/src/framebuffer.rs:1691-1723 | The underline is painted in the cursor's cell exactly when the cursor is on the grid; the text is untouched |
| `FramebufferConsole.Console.UnderlinePixels` | kernel/src/framebuffer.rs:1691-1723 | The underline is the lowest two pixel lines of its cell |
| `FramebufferConsole.Console.UndrawCursor` | kernel/src/framebuffer.rs:1731-1752 | Removes the underline by redrawing the cell below it |
| `FramebufferConsole.Console.UpdateCursorBlink` | kernel/src/framebuffer.rs:1759-1786 | The first call with a running clock shows the cursor, and each later one that comes 500 ms or more after the last change toggles it; other calls, and all while a redraw is pending, change nothing; text and agreement of pixels and grid are kept |
| `FramebufferConsole.Console.ResetCursorBlink` | kernel/src/framebuffer.rs:1827-1831 | Forgetting a painted cursor keeps pixels and grid in agreement if and only if a redraw is pending, no cursor was painted, or its underline looked like the cell below; otherwise the underline stays on the screen |
| `FramebufferConsole.Console.SetCursor` | kernel/src/framebuffer.rs:1685-1688 | Moves the text cursor only |
| `FramebufferConsole.Console.AllocStaging` | kernel/src/framebuffer.rs:796-810 | The staging path is available exactly for even widths; neither text nor pixels change |
| `Ext2BlockMap.Ext2Fs.ReadBlock` | kernel/src/fs/ext2.rs:281-287 | The block's bytes of the image, or one more failed request |
| `Ext2BlockMap.Ext2Fs.IndirectBlocks` | kernel/src/fs/ext2.rs:376-493 | A success lists the first min(needed, 12 + p + p² + p³) entries of the block map given by the recursive definition, holes at any level reading as 0; it fails only because a read failed, and follows the triple-indirect pointer only for more than 12 + p + p² blocks |
| `Ext2BlockMap.Ext2Fs.SingleIndirect` | kernel/src/fs/ext2.rs:376-493 | The single-indirect stage appends the next p map entries, or as many as are still needed |
| `Ext2BlockMap.Ext2Fs.DoubleIndirect` | kernel/src/fs/ext2.rs:376-493 | The double-indirect stage appends the next p² map entries, cut off at the needed count |
| `Ext2BlockMap.Ext2Fs.TripleIndirect` | kernel/src/fs/ext2.rs:376-493 | The triple-indirect stage appends the next p³ map entries, cut off at the needed count |
| `Ext2BlockMap.ResolveStep` | kernel/src/fs/ext2.rs:376-493 | Entry i·span + j below a pointer is entry j below its i-th child, and a zero child is a hole throughout |
| `Ext2BlockMap.ReachFormula` | kernel/src/fs/ext2.rs:376-493 | The levels together reach 12 + p + p² + p³ blocks and follow each other without gap |
| `Ext2BlockMap.CapWithinDouble` | kernel/src/fs/ext2.rs:353-373 | For every block size the mount accepts, the file-size cap ends within the double-indirect range |
| `Ext2BlockMap.TripleNeverConsulted` | kernel/src/fs/ext2.rs:353-373 | Nor does the map depend on it: under the cap two inodes that differ only in the triple-indirect pointer have the same block map |
| `Ext2Format.PointersRead` | kernel/src/fs/ext2.rs:376-493 | Following the pointers of a stored tree of pointer blocks leads to its blocks in order, holes included |
| `Ext2Format.PointerInode` | kernel/src/fs/ext2.rs:376-493 | The block map of an inode that stores such trees is all their blocks one after the other: direct, single, double, triple indirect |
| `Ext2Extents.WalkExtentNode` | kernel/src/fs/ext2.rs:522-579 | On every image, cyclic or with lying depths, the walk ends; it succeeds if and only if the bounded tree exists and no read failed, and then returns its leaves in traversal order after those found before |
| `Ext2Extents.ExtentBlocks` | kernel/src/fs/ext2.rs:496-520 | Succeeds if and only if the tree is well formed and no read failed, and maps each logical block to the last written extent in traversal order that covers it, else to 0 |
| `Ext2Extents.FillExtent` | kernel/src/fs/ext2.rs:496-520 | One extent sets exactly the slots it covers within the map |
| `Ext2Extents.SelfLoopRefused` | kernel/src/fs/ext2.rs:522-579 | An index node that contains its own block is refused at every depth |
| `Ext2Extents.FailureSticks` | kernel/src/fs/ext2.rs:522-579 | One unreadable or malformed child fails the whole node |
| `Ext2Extents.UniqueCover` | kernel/src/fs/ext2.rs:496-520 | If exactly one written extent covers a block, that extent decides it wherever it stands in the list |
| `Ext2Extents.NoCover` | kernel/src/fs/ext2.rs:496-520 | A block no written extent covers is a hole |
| `Ext2Extents.LeavesBounded` | kernel/src/fs/ext2.rs:522-579 | Leaves have at most 32768 blocks and 48-bit block numbers, so the 64-bit sums cannot overflow |
| `Ext2Format.LeafRead` | kernel/src/fs/ext2.rs:546-569 | An extent entry as ext4 writes it reads as that extent: logical block, length with its unwritten mark, start in two parts |
| `Ext2Format.IndexRead` | kernel/src/fs/ext2.rs:570-576 | An index entry as ext4 writes it leads to the block it names |
| `Ext2Format.TreeRead` | kernel/src/fs/ext2.rs:522-579 | Any stored extent tree of at most eight index levels is read back whole and in order |
| `Ext2Format.ExtentInode` | kernel/src/fs/ext2.rs:496-519 | An inode that holds the root of such a tree maps its blocks by the tree's extents |
| `Ext2Format.InodeRead` | kernel/src/fs/ext2.rs:335-347 | Size, flags, mode and i_block are read from where an inode keeps them |
| `Ext2Content.InodeBlocks` | kernel/src/fs/ext2.rs:353-373 | Exactly the needed number of entries of the inode's map; refused if and only if there are too many blocks, the data is inline, the extent tree is malformed or a read failed; at every accepted block size the triple-indirect pointer is never followed |
| `Ext2Content.ReadInodeContent` | kernel/src/fs/ext2.rs:582-618 | Outside fast symlinks a success is exactly `size` bytes, byte k being the image byte at map(k / bs)·bs + k mod bs, or 0 in a hole; a fast symlink gives the bytes of the inode; it succeeds if and only if the inode is of a kind the driver handles and no read failed |
| `Ext2Content.SameMapSameContent` | kernel/src/fs/ext2.rs:582-618 | An extent-mapped and a pointer-mapped inode with the same size and logical map hold the same bytes |
| `Ext2Format.ConsecutiveFile` | kernel/src/fs/ext2.rs:582-617 | A file whose blocks follow one another on the disk is read as that stretch of the disk |
| `Ext2Format.OneExtentFile` | kernel/src/fs/ext2.rs:582-617 | The commonest file, one written extent noted in the inode, is read as the stretch of the disk the extent names |
| `Ext2Content.BlocksForLeast` | kernel/src/fs/ext2.rs:353-355 | The blocks asked for hold the file, and no fewer do |
| `ExfatChain.FatEntry` | kernel/src/fs/exfat.rs:143-156 | The 32-bit word of the FAT at the cluster's index, which never straddles the sector read; refused only for cluster numbers outside the volume or when the read fails |
| `ExfatChain.NextCluster` | kernel/src/fs/exfat.rs:158-171 | The link of the chain as the walk defines it: end marks and out-of-heap values end the file |
| `ExfatChain.Chain` | kernel/src/fs/exfat.rs:174-196 | The clusters of a walk from the first one, in order, up to the limit, so it ends on cyclic FATs; an error if and only if the first cluster is out of range or a read failed |
| `ExfatChain.WalkEnds` | kernel/src/fs/exfat.rs:158-196 | Once a walk has ended it has ended at every later index |
| `ExfatChain.ConsecutiveChain` | kernel/src/fs/exfat.rs:480-505 | If the FAT links n consecutive clusters, the i-th of the walk is first + i |
| `ExfatChain.WalkInHeap` | kernel/src/fs/exfat.rs:158-171 | No walk leaves the cluster heap |
| `ExfatVolume.FatAt` | kernel/src/fs/exfat.rs:143-155 | On a volume whose FAT is a table of words the entry read for a cluster is its word |
| `ExfatVolume.ClusterAtStart` | kernel/src/fs/exfat.rs:111-117 | The clusters fill the heap in order: number 2 is at its first byte and the last ends at its end |
| `ExfatVolume.LinkedWalk` | kernel/src/fs/exfat.rs:158-197 | Clusters linked in the FAT are walked in that order |
| `ExfatVolume.ChainOver` | kernel/src/fs/exfat.rs:158-197 | A chain ends behind a cluster whose entry is an end mark, a bad mark or no cluster of the heap |
| `ExfatFile.ReadChain` | kernel/src/fs/exfat.rs:199-223 | The concatenation of the clusters of the uncached walk; an error if and only if the first cluster is out of range or a read failed |
| `ExfatFile.File.ClusterAt` | kernel/src/fs/exfat.rs:480-504 | Whatever lookups, seeks and failures came before, the cached lookup succeeds if and only if the uncached walk reaches that index and no read failed, gives its cluster, and leaves in the cache an entry of that walk |
| `ExfatFile.File.ReadSectors` | kernel/src/fs/exfat.rs:506-535 | The widened sector request stays inside the cluster and yields the requested part of it |
| `ExfatFile.File.ReadAt` | kernel/src/fs/exfat.rs:506-535 | The requested slice of the file's bytes along its chain; an error if and only if the chain is too short for it or a read failed |
| `ExfatFile.File.Read` | kernel/src/fs/exfat.rs:537-546 | Reads the bytes at the position, fewer only at the end, and moves past them; it succeeds if no disk read failed and the chain is long enough, and a failure moves nothing |
| `ExfatFile.File.Seek` | kernel/src/fs/exfat.rs:552-563 | Moves to the offset from start, current position or end, a start offset taken as signed; a negative target is refused and moves nothing |
| `ExfatFile.SlicesJoin` | kernel/src/fs/exfat.rs:506-546 | Any split of a read gives the same bytes |
| `ExfatFile.ContiguousSameBytes` | kernel/src/fs/exfat.rs:480-535 | A NoFatChain file and a FAT chain linking the same consecutive clusters hold the same bytes |
| `ExfatVolume.FileBytes` | kernel/src/fs/exfat.rs:506-571 | Byte n of a file is byte n of its clusters put together, for linked and contiguous files |
| `ExfatVolume.FileSlice` | kernel/src/fs/exfat.rs:506-571 | Whatever a read returns is that part of the file's clusters put together |
| `ExfatFile.RequestStaysInCluster` | kernel/src/fs/exfat.rs:506-535 | Rounding a request out to sectors never crosses the end of its cluster |
| `Utf16.DecodeEncode` | kernel/src/fs/exfat.rs:236-255 | Decoding the UTF-16 units of a text gives the text back, surrogate pairs included |
| `Utf16.StrayUnit` | kernel/src/fs/exfat.rs:236-255 | A surrogate without its partner reads as a question mark and takes nothing else with it |
| `Utf16.ToString` | kernel/src/fs/exfat.rs:236-255 | The loop decodes the first nameLength units, with a replacement character for each unpaired surrogate |
| `ExfatDirectory.CollectSet` | kernel/src/fs/exfat.rs:258-338 | Gathers the secondary entries of a set in order, ignoring those past the end of the data |
| `ExfatDirectory.Absorb` | kernel/src/fs/exfat.rs:258-338 | One secondary entry: cluster, size and flags of a Stream Extension, or the non-zero units of a File Name |
| `ExfatDirectory.ListEntries` | kernel/src/fs/exfat.rs:258-338 | The entries of the recursive parse: ends at a zero type, skips other types, drops sets whose first cluster is out of range or whose name is empty |
| `ExfatDirectory.BuildNameEntry` | scripts/mk-exfat-fixture.py:28-40 | Filling a zeroed slot unit by unit gives the File Name entry of up to 15 units |
| `ExfatDirectory.BuildNameEntries` | scripts/mk-exfat-fixture.py:28-40 | One File Name entry for every 15 units, the last one zero-filled |
| `ExfatDirectory.BuildEntrySet` | scripts/mk-exfat-fixture.py:43-62 | A File entry, a Stream Extension and the File Name entries of the name |
| `ExfatRoundTrip.SetRoundTrip` | kernel/src/fs/exfat.rs:258-338 | Parsing a written entry set followed by anything gives its name, flags, cluster and size back, then the rest |
| `ExfatRoundTrip.DirectoryRoundTrip` | kernel/src/fs/exfat.rs:258-338 | Any list of encodable entries followed by zeros parses to exactly that list in order, surrogate pairs and names over 15 units included |
| `ExfatRoundTrip.LabelSkipped` | scripts/mk-exfat-fixture.py:65-71 | A volume label, or any entry that is neither an end nor a File entry, in front changes nothing |
| `ExfatRoundTrip.WriteAndList` | scripts/mk-exfat-fixture.py:43-62 | The imperative encoder followed by the imperative parser returns the entries written |
| `LogRing.Ring.LogByte` | kernel/src/boot_log/mod.rs:64-70 | Appends one byte to the unbounded history the ring is a window on |
| `LogRing.Ring.ReadChunk` | kernel/src/boot_log/mod.rs:93-107 | A contiguous slice of the history from max(cursor, first kept byte), with the cursor behind it; nothing to read, or an empty buffer, moves the cursor to the total |
| `LogRing.Ring.CopyLog` | kernel/src/boot_log/mod.rs:110-124 | Exactly the last min(total, size) bytes of the history in order |
| `LogRing.Ring.Drain` | kernel/src/boot_log/mod.rs:93-107 | Repeated reads from any cursor, with any buffer, tile the rest of the window without gap or overlap |
| `LogSink.Sink.constructor` | kernel/src/boot_log/usb.rs:318-328 | A new sink begins at offset 0 with the oldest byte the ring still holds; the crash guarantee holds at once exactly if the file was found empty |
| `LogSink.Sink.Append` | kernel/src/boot_log/usb.rs:652-687 | Data first, size second: a state with the new data under the old size is passed through, the published part stays a prefix of the stream in every state, whether or not the size lands and is reported, and once it lands the published size is all that was written; a failed data write leaves the stream as it was |
| `LogSink.Sink.WriteBytes` | kernel/src/boot_log/usb.rs:652-687 | A piece that fits is appended whole; one that does not is replaced by a full-note if that fits; it reports failure if and only if the piece did not fit or the write failed; the capacity is never exceeded |
| `LogSink.Sink.WritePending` | kernel/src/boot_log/usb.rs:612-650 | The cursor moves over one chunk, every byte passed is in the file or counted as lost, and bytes are lost only if more than a ring's length had piled up |
| `LogSink.Sink.Flush` | kernel/src/boot_log/usb.rs:566-610 | While writes succeed and a chunk fits, every call moves the cursor on or finds nothing left; a failed chunk is kept for a retry, each failure in a row counts one, the third detaches the sink, and a detached sink touches nothing; bytes are lost exactly when the flush meets an overrun |
| `LogSink.Sink.RunSteps` | kernel/src/boot_log/usb.rs:566-687 | Over any run of logging, flushing, failing writes and power cuts, every disk state since the first publication publishes a prefix of the final stream, and the last state publishes all of it if something of each request landed; nothing is lost if and only if no flush finds the ring more than its length ahead of the cursor, and a file without notes is one contiguous piece of the log under exactly that condition |
| `LogSink.PublishedForever` | kernel/src/boot_log/usb.rs:652-687 | Published bytes are never rewritten and the published size never shrinks |
| `LogSink.Disjoint` | kernel/src/boot_log/usb.rs:612-650 | The data pieces of the file are strictly increasing, disjoint intervals of the log: no byte twice, none out of order |
| `LogSink.WholeIffNothingLost` | kernel/src/boot_log/usb.rs:612-650 | A file without notes is the one contiguous interval up to the cursor if and only if no byte was lost |
| `LogSink.FlattenStable` | kernel/src/boot_log/usb.rs:612-650 | Bytes logged later change nothing of what the pieces already written stand for |
| `LogSink.GapWithoutNote` | kernel/src/boot_log/usb.rs:623-631 | With any ring size, files with no note and yet a gap: one byte more than the ring holds is logged and the write of the note about the lost one fails |
| `LogSink.AttachAndRun` | kernel/src/boot_log/usb.rs:318-328 | On a file found empty every disk state of every run, from attaching on, publishes a prefix of what the sink has written, and the last one all of it if something of each request landed |
| `LogSink.SaveLog` | kernel/src/boot_log/usb.rs:566-687 | On a disk that works, with room in the file, flushing until the ring is read leaves a file whose published contents are exactly the log the ring held |
| `LogSink.DecimalReads` | kernel/src/boot_log/usb.rs:625-628 | The number in the note about lost bytes reads as their count |
| `LogSink.OldFileOverwritten` | kernel/src/boot_log/usb.rs:318-328 | On any file found with contents it does not hold: any log that starts with another byte can be torn off after it, which leaves a file with its old size that is neither the old file nor a prefix of the new log |
| `NvmeQueue.RunInvariant` | kernel/src/drivers/nvme.rs:171-253 | In every interleaving of driver and device with at most 62 timeouts, slots between head and tail carry the expected phase and all others its opposite, and every fetched command is executing or answered once |
| `NvmeQueue.VisibleIffPosted` | kernel/src/drivers/nvme.rs:188-203 | The driver sees an entry exactly when the device posted one it has not taken, and it is the next one posted: no stale entry is accepted |
| `NvmeQueue.LevelBetweenCommands` | kernel/src/drivers/nvme.rs:171-253 | Between commands of a run without timeouts the SQ tail equals the CQ head and nothing is outstanding |
| `NvmeQueue.AcceptedInIssueOrder` | kernel/src/drivers/nvme.rs:171-253 | Without timeouts the n-th submission accepts the completion of the n-th command, whatever order the device works in |
| `NvmeQueue.TimeoutsShiftAnswers` | kernel/src/drivers/nvme.rs:188-203 | With an in-order device the completion taken is that of the command issued as many submissions earlier as there were timeouts; it is the right one if and only if there were none |
| `NvmeQueue.StaleAnswer` | kernel/src/drivers/nvme.rs:188-203 | A concrete run in which a command is answered with the completion of one that timed out |
| `NvmeQueue.Controller.IoSubmit` | kernel/src/drivers/nvme.rs:214-253 | One submission takes at most one completion, and with no earlier timeout it is its own; it gives up only after as many polls as fit before the deadline, none of which saw an entry |
| `NvmeIo.VerdictExact` | kernel/src/drivers/nvme.rs:676-716 | The seven-bit status test accepts exactly the successes, status code 80h of any type, and code 0 of a type other than generic |
| `NvmeIo.StatusParts` | kernel/src/drivers/nvme.rs:676-716 | A status word put together from phase, code, type and the rest gives its code and type back |
| `NvmeIo.Controller.Submit` | kernel/src/drivers/nvme.rs:676-716 | The status the driver sees is that of the command it issued, as long as no submission has timed out |
| `NvmeIo.Controller.ReadDev` | kernel/src/drivers/nvme.rs:718-765 | Cutting a transfer into single-page commands reads the same bytes as one transfer, if nothing has timed out and no command of this transfer failed and was taken for a success; it succeeds if and only if the block size is at most a page, the buffer is large enough and no command was seen to fail or time out |
| `NvmeIo.Controller.WriteDev` | kernel/src/drivers/nvme.rs:767-811 | Chunked writes equal one write under the same conditions; if nothing had timed out before, a failure or timeout midway leaves each byte of the request old or new and every other byte alone |
| `NvmeIo.Controller.ReadBytes` | kernel/src/drivers/nvme.rs:813-833 | For every offset and length and every block size up to a page it succeeds if no command was seen to fail; with nothing timed out a success is the slice asked for, unless one of this request's own commands failed and was taken for a success |
| `NvmeIo.Controller.WriteBytes` | kernel/src/drivers/nvme.rs:835-853 | With nothing timed out before, bytes outside the request never change, even when a command fails midway, unless the blocks around an unaligned request were read back wrong; then each byte of the touched blocks is old or what was read with the request laid over it, on a success the latter, and all others are old; a success writes all of the request unless a write failed and was taken for a success |
| `NvmeIo.NeighbourDamaged` | kernel/src/drivers/nvme.rs:835-853 | Such requests on any disk with blocks of up to a page: the read before a one-byte write fails with status code 80h, and the rest of the block is lost |
| `FlatWrites.OverlayPartly` | kernel/src/drivers/nvme.rs:835-853 | Writing back whole blocks around a request, cut short anywhere, changes at most the bytes of the request |
| `FlatWrites.WrittenThenWritten` | kernel/src/drivers/nvme.rs:767-811 | Consecutive transfers equal one transfer |
| `FlatWrites.PartlyThenPartly` | kernel/src/drivers/nvme.rs:767-811 | Consecutive interrupted transfers leave every byte old or new |
| `FlatWrites.WroteMore` | kernel/src/drivers/nvme.rs:767-811 | One more command extends what a chunked write has achieved, well or badly |
| `FlatWrites.ReadOn` | kernel/src/drivers/nvme.rs:718-765 | Consecutive reads equal one read |
| `AhciIo.AhciDisk.NextChunk` | kernel/src/drivers/ahci.rs:984-1012 | Chunks are whole sectors, at most 128, never empty: the "invalid path" branches of the chunk loops cannot be taken |
| `AhciIo.AhciDisk.ReadBytes` | kernel/src/drivers/ahci.rs:984-1018 | For every offset and length it succeeds if and only if no command failed, and then with the slice of the disk asked for |
| `AhciIo.AhciDisk.WriteBytes` | kernel/src/drivers/ahci.rs:1021-1064 | Bytes outside the request never change, even when a command fails midway; if none fails all of it is written and success reported |
| `AhciIo.AtapiDisk.ReadBlocks` | kernel/src/drivers/ahci.rs:745-773 | A success is the requested blocks; a request is never served if its first command is longer than one command may be, and on a sound disk every other in-range request is |
| `AhciIo.DiscLimit` | kernel/src/drivers/ahci.rs:610-613 | With 2048-byte blocks a request is servable exactly up to 31 blocks: the driver's own 32-block commands are two bytes over its command limit |
| `AhciIo.AtapiDisk.NextCommand` | kernel/src/drivers/ahci.rs:745-773 | No command of a request is larger than its first, and together they cover it exactly |
| `AhciIo.AtapiDisk.Read` | kernel/src/drivers/ahci.rs:776-789 | Any sector and length: a success is the slice of the disc asked for; requests whose first command is over the limit never succeed, and on a sound disc all others within it do |
| `VirtioQueue.VirtQueue.constructor` | kernel/src/drivers/virtio_gpu.rs:163-198 | The fresh free list visits descriptors 0 to n-1 in order and ends |
| `VirtioQueue.VirtQueue.AllocDesc` | kernel/src/drivers/virtio_gpu.rs:200-210 | Takes the head of the free list, which is then no longer on it; fails exactly when the list is empty |
| `VirtioQueue.VirtQueue.FreeDesc` | kernel/src/drivers/virtio_gpu.rs:212-218 | Puts a descriptor that is not free at the head of the list, which stays acyclic and without repetition |
| `VirtioQueue.VirtQueue.Publish` | kernel/src/drivers/virtio_gpu.rs:298-314 | The device is offered exactly the chain command buffer, response buffer; neither is on the free list and no other descriptor changes |
| `VirtioQueue.VirtQueue.SendCommand` | kernel/src/drivers/virtio_gpu.rs:285-332 | Answered, timed out or out of descriptors, the outcome and the free list afterwards are those of the specification: answered means that some poll found the used index moved on from the answers taken so far; descriptors that were not free are untouched |
| `VirtioQueue.VirtQueue.SendAll` | kernel/src/drivers/virtio_gpu.rs:285-332 | Over any run of commands and any readings of the used index the outcomes are the specified ones, and with two descriptors free at the start the same descriptors are free at the end |
| `VirtioQueue.Conserved` | kernel/src/drivers/virtio_gpu.rs:285-332 | Any number of commands leave the same set free, in the same order after an even number and with the first two swapped after an odd one |
| `VirtioQueue.EveryCommandSent` | kernel/src/drivers/virtio_gpu.rs:285-332 | With at least two descriptors every command of a run is sent, whatever became of the ones before, and is answered exactly if its polls see the used index moved on; with fewer none ever is |
| `VirtioQueue.AnswersLagBehind` | kernel/src/drivers/virtio_gpu.rs:235-247 | Answers are taken in posting order and never matched with a command: the one command k takes is answer number k if and only if none before it timed out |
| `VirtioQueue.LateAnswer` | kernel/src/drivers/virtio_gpu.rs:235-247 | If the first command is answered after its time, the second takes that answer for its own on its first poll |
| `VirtioQueue.LateAnswerRun` | kernel/src/drivers/virtio_gpu.rs:235-247 | Such readings of the used index exist |
| `VirtioQueue.VirtQueue.Await` | kernel/src/drivers/virtio_gpu.rs:314-327 | Gives up after 1,000,001 polls that all read the index already taken, and takes one answer otherwise |
| `VirtioQueue.Starved` | kernel/src/drivers/virtio_gpu.rs:290-291 | With a single free descriptor the first command loses it for good |
| `VirtioQueue.OneFreeList` | kernel/src/drivers/virtio_gpu.rs:163-218 | The links determine the free list: there is no second way to follow them |
| `PciBars.PassPlaces` | kernel/src/drivers/pci.rs:85-171 | All BARs placed in one pass are aligned to their size, start at or above the free part, end at or below FEC00000h, and lie above each other, for any device list and any masks |
| `PciBars.Placed` | kernel/src/drivers/pci.rs:131-149 | A single placement: power-of-two size up to 64 MiB, the first aligned address at or above the free part, within the limit |
| `PciBars.MovedIffWide` | kernel/src/drivers/pci.rs:131-149 | An unreachable memory BAR of a supported size with room for it is moved if and only if it is a 64-bit BAR |
| `PciBars.NarrowStays` | kernel/src/drivers/pci.rs:131-149 | A 32-bit BAR0 is never moved, whatever its mask |
| `PciBars.ZeroBarStaysZero` | kernel/src/drivers/pci.rs:400-416 | A concrete 32-bit BAR left at zero stays at zero, contrary to the comment on the pass |
| `PciBars.MovedOnce` | kernel/src/drivers/pci.rs:151-161 | A moved device answers at its new address with the same BAR kind and a second pass would not move it |
| `PciLaws.WideMoved` | kernel/src/drivers/pci.rs:85-153 | In numbers: a 64-bit BAR0 of an ordinary device at zero or from FEC00000h on is moved to the next multiple of its size, if it has a supported size and fits |
| `PciLaws.ReachedStays` | kernel/src/drivers/pci.rs:101-104 | In numbers: a BAR0 that answers from 1 to FEBFFFFFh is left alone |
| `PciLaws.FarController` | kernel/src/drivers/pci.rs:80-83 | A controller at 512 GiB is moved to the start of the free part |
| `PciLaws.PassReaches` | kernel/src/drivers/pci.rs:85-153 | After the pass every 64-bit BAR0 of a supported size that was out of reach, with room at its turn, answers below FEC00000h with all its bytes at a multiple of its size; one that was within reach is as it was |
| `PciLaws.PassRegisters` | kernel/src/drivers/pci.rs:145-163 | A moved device has its address in the registers, with decoding and bus mastering on; the registers of every other are as they were |
| `PciLaws.OnlyPowers` | kernel/src/drivers/pci.rs:138-141 | Only powers of two pass for a size |
| `PciBars.ClearOfExisting` | kernel/src/drivers/pci.rs:405-416 | A BAR already in the window is clear of everything the pass places if and only if it ends at or below the start of the free part rounded up to the size of the first device placed |
| `PciBars.NewInsideOld` | kernel/src/drivers/pci.rs:405-416 | If it runs past the free part's start, the first new BAR that fits is placed inside it: only BAR starts are considered |
| `PciBars.Bus.FirstFreeAddress` | kernel/src/drivers/pci.rs:405-413 | The first MiB boundary above the window's start and above every BAR start in the window, and no later one |
| `PciBars.Bus.AssignBar0IfNeeded` | kernel/src/drivers/pci.rs:85-171 | One device: moved as decided with decoding and bus mastering on, or device and registers exactly as before; BAR registers are written only while decoding is off |
| `PciBars.Bus.AssignAll` | kernel/src/drivers/pci.rs:405-416 | The pass gives every device the treatment decided with the free part its predecessors left |
| `PciBars.DeviceAfter` | kernel/src/drivers/pci.rs:405-416 | Each device after the pass is its old self, or itself moved as decided at its turn |
| `KeyboardSets.SetsAgree` | kernel/src/keyboard.rs:138-318 | The same press and release events, encoded in set 1 or in set 2 with any service bytes mixed in, give the same keys and leave the same Shift, Ctrl, Alt and Caps Lock |
| `KeyboardSets.Set1Typed` | kernel/src/keyboard.rs:162-220 | The set 1 decoder does to a stream of events what their meaning says, and ends without a prefix pending |
| `KeyboardSets.Set2Typed` | kernel/src/keyboard.rs:222-284 | The same for set 2, with F0h release prefixes |
| `KeyboardSets.ServiceBytesChangeNothing` | kernel/src/keyboard.rs:140-150 | Dropping service bytes one by one is the same as never having received them, even inside a prefixed code |
| `KeyboardSets.TablesMatch` | kernel/src/keyboard.rs:334-379 | The keys the two tables act on are the same keys, one to one |
| `KeyboardLaws.LetterTyped` | kernel/src/keyboard.rs:286-310 | A letter key gives a control character with Ctrl, else a capital exactly when one of Shift and Caps Lock is on but not both |
| `KeyboardLaws.SymbolTyped` | kernel/src/keyboard.rs:322-331 | Every other printing key gives its upper symbol with Shift and its lower one without; Caps Lock and Ctrl make no difference |
| `KeyboardLaws.TopRow` | kernel/src/keyboard.rs:334-355 | The keys of a row of a US keyboard have consecutive codes in set 1 |
| `KeyboardLaws.DigitRow` | kernel/src/keyboard.rs:337-339 | So have the digits and the two keys behind them |
| `KeyboardLaws.HomeRow` | kernel/src/keyboard.rs:345-347 | So have the keys of the middle row |
| `KeyboardLaws.BottomRow` | kernel/src/keyboard.rs:349-351 | So have the letters of the lowest row and the keys behind them |
| `KeyboardLaws.ArrowKeys` | kernel/src/keyboard.rs:171-180 | With Ctrl the left and right arrows move by words |
| `KeyboardLaws.Modifiers` | kernel/src/keyboard.rs:191-212 | Shift, Ctrl and Alt count while they are down, Caps Lock from one press to the next |
| `KeyboardLaws.AnswersOnly` | kernel/src/keyboard.rs:137-148 | Exactly the five answers of a keyboard, and in set 2 that of its self test, are dropped |
| `Keyboard.KeyboardState.PushScancode` | kernel/src/keyboard.rs:103-117 | Appends to the waiting bytes, or with 63 waiting drops the byte and lets go of Shift, Ctrl and Alt |
| `Keyboard.KeyboardState.PopScancode` | kernel/src/keyboard.rs:119-127 | Takes the oldest waiting byte |
| `Keyboard.KeyboardState.NextKey` | kernel/src/keyboard.rs:138-160 | The first key the waiting bytes give, consuming nothing behind the byte that completes it; none only if all are consumed |
| `Keyboard.KeyboardState.RunOps` | kernel/src/keyboard.rs:103-160 | Over any interleaving of arrivals and requests without overflow, the keys handed out and those still waiting are the keys of the byte stream: none lost, repeated or reordered |
| `Keyboard.OverflowLetsGo` | kernel/src/keyboard.rs:103-117 | Whatever bytes wait when a byte is dropped, half an event included, and whatever prefix is pending: once they are decoded a modifier is held if and only if the last of them to touch it presses it; the reset is undone by a press that was still queued |
| `Keyboard.KeyboardState.OverflowThenDrain` | kernel/src/keyboard.rs:103-160 | The same of the ring itself: with 63 bytes waiting, a byte dropped and all keys then taken |
| `Keyboard.KeyboardState.Drain` | kernel/src/keyboard.rs:138-160 | Asking until there is no key gives exactly the keys of the waiting bytes |
| `Keyboard.StuckShift` | kernel/src/keyboard.rs:103-117 | Shift held until the ring is full and released with its second byte dropped stays held, and the next press will be taken for a release |
| `Keyboard.HeldAtEnd` | kernel/src/keyboard.rs:179-204 | For any bytes in either set and any state of the decoder a modifier is held at the end exactly when the last byte to touch it pressed it, or none did and it was held before |
| `CatPrint.PrintFile` | kernel/src/commands/cat.rs:34-114 | The output is a function of the file and the size of the first read alone |
| `CatPrint.PrintChunk` | kernel/src/commands/cat.rs:60-100 | Printed and carried-over bytes are always the bytes read; a wrong byte stops the output at the valid prefix |
| `CatPrint.CarryIsShort` | kernel/src/commands/cat.rs:60-100 | What is carried over is shorter than one character and starts none that is complete |
| `CatPrint.TextPrintsAsIs` | kernel/src/commands/cat.rs:34-114 | Every UTF-8 text prints as itself, plus one newline if non-empty and unterminated, however it is split |
| `CatPrint.SplitIndependence` | kernel/src/commands/cat.rs:34-58 | The output is the same for every split if and only if the largest possible first chunk holds no wrong byte or the very first byte is one |
| `Utf8Laws.PrintedIsText` | kernel/src/commands/cat.rs:46-95 | Of a file that cannot be the beginning of any text the longest part that is text is printed, and then the notice; of any other file its longest part that is text, with a final newline; the notice comes alone exactly if the first chunk is already no beginning of a text |
| `Utf8Laws.BrokenIffNoText` | kernel/src/commands/cat.rs:73-95 | The check calls bytes broken if and only if nothing that follows can make them text |
| `Utf8.ValidateAppend` | kernel/src/commands/cat.rs:60-100 | Checking on from the carried-over bytes continues the check of the whole file |
| `Utf8.EncodedIsClean` | kernel/src/commands/cat.rs:34-114 | Every encoded text passes the check |
| `Utf8.LossyEncode` | kernel/src/fs/iso9660.rs:94-107 | Reading bytes as text with replacement characters gives every encoded text back |
| `Utf8Laws.ReplacedPart` | kernel/src/fs/iso9660.rs:95-107 | One replacement character stands for the bytes that could still have begun a character, at least one |
| `Utf8Laws.LossyBehind` | kernel/src/fs/iso9660.rs:95-107 | Text in front of such bytes reads as itself |
| `Utf8.CleanIsEncoded` | kernel/src/commands/cat.rs:34-114 | Every byte sequence that passes the check encodes some text |
| `IsoDirectory.ExtentReads` | kernel/src/fs/iso9660.rs:313-345 | A directory laid out as records that do not cross a block, zero-padded, yields exactly the kept records in order |
| `IsoDirectory.RecordRead` | kernel/src/fs/iso9660.rs:175-217 | A record gives its name on that kind of volume, extent, size and kind; those of the directory itself and of its parent give nothing |
| `IsoFormat.RecordWritten` | kernel/src/fs/iso9660.rs:175-217 | A record as ECMA-119 lays it out is one the directory theorem speaks of: extent and size in their little-endian copies, the directory bit, identifier, padding and system-use bytes |
| `IsoDirectory.DirectoryListed` | kernel/src/fs/iso9660.rs:313-345 | A directory laid out as records that do not cross a block lists exactly its named files and directories, in order and with their extents, and neither itself nor its parent: under their identifiers without version and final dots, on plain volumes and on Joliet ones, or under the text of their Rock Ridge parts, whatever the identifier then is |
| `IsoDirectory.EveryRecord` | kernel/src/fs/iso9660.rs:175-217 | Every record of a plain volume is covered by this, provided its identifier up to the version is UTF-8 or Rock Ridge names it |
| `IsoDirectory.IsoFs.ListItems` | kernel/src/fs/iso9660.rs:313-345 | Listing an extent that holds such a directory returns exactly that list, or an error if a read fails |
| `IsoNames.PlainReads` | kernel/src/fs/iso9660.rs:94-107 | A plain identifier reads as its name, without the version number and however many dots stand before it |
| `IsoNames.EveryIdentifier` | kernel/src/fs/iso9660.rs:94-107 | Any plain identifier whose part before the version is UTF-8 is the spelling of some name |
| `IsoNames.JolietReads` | kernel/src/fs/iso9660.rs:110-141 | A Joliet identifier reads as its name, surrogate pairs included, without version number and final dots |
| `IsoSystemUse.NamedRead` | kernel/src/fs/iso9660.rs:203-207 | On a plain volume the text of the Rock Ridge parts is the name, if there is any; otherwise the spelled name is |
| `IsoSystemUse.AreaReads` | kernel/src/fs/iso9660.rs:144-172 | The Rock Ridge name of system-use bytes, whatever other fields they hold, is the text of the parts that are not continued, in order |
| `IsoSystemUse.WholeNameIff` | kernel/src/fs/iso9660.rs:157-164 | The name read is the whole name its parts carry if and only if no continued part has any text |
| `IsoSystemUse.NameCut` | kernel/src/fs/iso9660.rs:157-164 | A name in two parts, of which only the last is read |
| `IsoSystemUse.EveryArea` | kernel/src/fs/iso9660.rs:144-172 | Any system-use bytes consist of such fields |
| `IsoNames.ReadJoliet` | kernel/src/fs/iso9660.rs:110-141 | The loops read big-endian units up to the version mark and drop the dots at the end |
| `IsoNames.ReadRockRidge` | kernel/src/fs/iso9660.rs:144-172 | The loop joins the texts of the complete NM entries and finds no name if they are empty |
| `IsoDirectory.ListRecords` | kernel/src/fs/iso9660.rs:320-344 | The loop returns the records of the recursive scan |
| `IsoDirectory.IsoFs.List` | kernel/src/fs/iso9660.rs:313-345 | The scan of the extent's bytes, of which at most 64 MiB are read, with the way of naming the volume was opened with; an error if and only if the read fails, and an empty one needs no disk |
| `IsoDirectory.ReadAbs` | kernel/src/fs/iso9660.rs:59-77 | Reading through whole sectors yields the bytes asked for |
| `IsoDirectory.IsoFile.Read` | kernel/src/fs/iso9660.rs:382-390 | The next bytes of the contiguous extent, fewer only at its end; an error if and only if a read failed, and it moves nothing |
| `IsoDirectory.IsoFile.ReadParts` | kernel/src/fs/iso9660.rs:382-390 | Reads of any lengths one after the other, from any position, give one slice of the extent |
| `TextLines.OneLine` | kernel/src/commands/edit.rs:128-145 | Exactly one line holds an offset: the one whose bytes or end it is at |
| `TextLines.OffsetOf` | kernel/src/commands/edit.rs:160-165 | Line and column determine the offset, and every column up to the line's end is reachable |
| `TextLines.StartsFit` | kernel/src/commands/edit.rs:128-153 | From each line start the line's bytes follow, then a separator or the end of the text |
| `TextLines.Increasing` | kernel/src/commands/edit.rs:128-137 | Line starts are strictly increasing and within the text |
| `TextLines.LinesSplit` | kernel/src/commands/edit.rs:128-137 | Cutting a text anywhere cuts exactly one line |
| `TextLines.InsertedIn` | kernel/src/commands/edit.rs:169-177 | A byte goes into the cursor's line before its column, a newline cuts that line in two there, and the cursor ends up behind it |
| `TextLines.RemovedFrom` | kernel/src/commands/edit.rs:186-201 | Deletion is the inverse: it takes the byte out of its line, or joins two lines if it was their newline |
| `TextLines.LineCutOut` | kernel/src/commands/edit.rs:204-221 | Dropping a line with its newline leaves the other lines as they were |
| `EditBuffer.Editor.LineStarts` | kernel/src/commands/edit.rs:128-137 | The loop computes the starts of all lines |
| `EditBuffer.Editor.CursorLine` | kernel/src/commands/edit.rs:140-145 | Binary search finds the one line that holds the cursor |
| `EditBuffer.Editor.LineLen` | kernel/src/commands/edit.rs:148-153 | The length of a line without its newline |
| `EditBuffer.Editor.PlaceCursor` | kernel/src/commands/edit.rs:160-165 | The cursor is then in the named line, clamped, and column, clamped to the line |
| `EditBuffer.Editor.InsertByte` | kernel/src/commands/edit.rs:169-177 | Inserts at the cursor, or nothing if the buffer is full |
| `EditBuffer.Editor.InsertStr` | kernel/src/commands/edit.rs:179-183 | As much of a string as there is room for goes in at the cursor |
| `EditBuffer.Editor.DeleteBefore` | kernel/src/commands/edit.rs:186-193 | Removes the byte before the cursor and steps back; nothing at the start |
| `EditBuffer.Editor.DeleteAt` | kernel/src/commands/edit.rs:196-201 | Removes the byte under the cursor; nothing at the end |
| `EditBuffer.Editor.DeleteLine` | kernel/src/commands/edit.rs:204-221 | Removes the cursor's line and puts the cursor at its place; an only line is emptied; a last line with one before it is left as it is, contrary to the comment |
| `EditBuffer.Editor.MoveUp` | kernel/src/commands/edit.rs:223-230 | One line up at min(column, length of that line); nothing on the first line |
| `EditBuffer.Editor.MoveDown` | kernel/src/commands/edit.rs:232-239 | One line down at min(column, length of that line); nothing on the last line |
| `EditBuffer.Editor.MoveLines` | kernel/src/commands/edit.rs:255-261 | A page move lands on the clamped line at min(column, its length) |
| `EditBuffer.Editor.WordLeft` | kernel/src/commands/edit.rs:264-278 | Back over what is no word and then over one word, to its first byte, within the line |
| `EditBuffer.Editor.WordRight` | kernel/src/commands/edit.rs:280-294 | On over the rest of the word and what separates it from the next, within the line |
| `EditBuffer.OneWordLeft` | kernel/src/commands/edit.rs:264-278 | There is one place a word move to the left can go |
| `EditBuffer.OneWordRight` | kernel/src/commands/edit.rs:280-294 | There is one place a word move to the right can go |
| `EditBuffer.WordCharacter` | kernel/src/commands/edit.rs:270-278 | A word is made of ASCII letters, digits and underscores |
| `EditBuffer.Editor.InsertThenBackspace` | kernel/src/commands/edit.rs:169-193 | A byte inserted and taken back leaves text and cursor as they were |

## Left out

- Framebuffer: the RAM-framebuffer scroll that moves pixels, `draw_block_cursor`, the back buffer, the path without a valid shadow, a changing background colour (the staging path paints blanks with the current one), and the text printed before the heap exists, which the shadow never held.
- Pixel formats: colour conversion is an arbitrary function; font contents and the character table are arbitrary, with blank glyphs for the blank codes.
- ext2: superblock and group descriptor parsing, inode lookup, directory entries and paths; reads of one extra indirect block after enough entries are found show only in that such a read can fail.
- exFAT: boot-sector parsing (its checked fields are the validity predicate of the boot record), path lookup, volume labels; `cluster_count + 2` is taken not to overflow 32 bits. FAT32 and NTFS.
- Entries the exFAT parser drops (first cluster below 2, as for empty files) are excluded from the round trip by its cluster condition.
- Boot log: the 64-bit total is unbounded; log-volume discovery, the raw-disk checkpoint, the RAM-file copies and the shell-log twins of the ring functions, which are the same code over a second buffer.
- LogSink.Sink.constructor: a sink attached again after three failures starts over at offset 0; claims about crashes hold for one sink, from its first publication on unless it found the file empty.
- NVMe: register setup, identify and queue creation; buffers of 4 GiB or more, where the block count no longer fits 32 bits.
- NvmeQueue.RunInvariant: holds while at most 62 commands have timed out; beyond that the driver overruns the submission ring.
- NvmeQueue.TimeoutsShiftAnswers: assumes a device that posts in order, without which the shifted answer is not determined.
- NvmeIo.Controller.ReadBytes: promises nothing about data once a submission has timed out, because the driver then takes other commands' completions for its own and abandoned commands may still write; the same goes for writes.
- AHCI: command tables, port start-up and the PRD length field; LBAs beyond 48 bits.
- AhciIo.AtapiDisk.ReadBlocks: says what is read only for requests whose block numbers fit 32 bits; later ones wrap to the start of the disc.
- VirtIO-GPU: where in memory the used index is read (the readings are arbitrary inputs), the descriptor number in an answer, which the driver ignores, and the device writing to buffers freed after a timeout. Feature negotiation and the display commands.
- PCI: the bus scan; other BARs than BAR0; the registers hold the address written, without the read-only low bits.
- Keyboard: controller commands, polling and push-back, the cancel flag raised for Ctrl+C and Ctrl+Z, and the wrap-around of the 64-bit drop counter. Keys outside both tables are covered where their codes are free of prefix and service values.
- `cat`: cancellation, read errors and the binary notice's wording.
- CatPrint.PrintFile: the size of the first read decides what is printed of a broken file, so the output is not a function of the file alone.
- IsoDirectory.DirectoryListed: leaves out identifiers that are no text (bytes that are not UTF-8, unpaired surrogates, an odd length on Joliet), which the code reads with replacement characters; `IsoDirectory.RecordRead` covers their records.
- ISO 9660: volume descriptors and path lookup; multi-extent files.
- Editor: drawing, scrolling, saving, the status line and the conversion of CRLF on opening.
- USB, ACPI, memory management, scheduling, networking, the shell and its scripts, partitions and the VFS.
