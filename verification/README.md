# Verified models from the Ivy 2.0 firmware

This project states and proves, in Dafny, what four parts of the Plantsio Ivy 2.0 firmware
tree compute. `dafny verify dfyconfig.toml` checks all of it.

**Application tracing (ESP-IDF `app_trace`).** A target talks to a host through two memory
blocks that take turns: the application fills one while the host reads the other.

- `Ring` is the ring buffer that hands out contiguous chunks and may wrap early, cutting off
  the end of its storage for a while. It is a byte queue: producing appends a region that
  holds no queued byte, consuming takes the oldest bytes.
- `Packets` is the framing of the stream, and the host's way of cutting it into packets.
- `Membufs` is the protocol. Its class invariant `Proto.Valid` is the law of the whole
  thing, in both directions. The bytes exposed to the host, then the current block up to its
  marker, then the pending ring, are the encoding of all packets ever allocated, in order. What
  was handed to the application, then the down ring, is what a queue of the ring's size takes
  of the chunks that the host sent (`Taken`): of each as much as there was room for when it
  came. Every operation keeps it, for all answers of the hardware and the clock.
- Several tasks may hold packets at once. Each one fills in and sends off its own; a packet
  stays in its place until a block is handed over, and the host then sees it as it was left.
- `AppTrace` and `HostFileIo` are the calls on top, up to a whole run of arbitrary calls and
  the reading of a host file. That call trusts the size the host announces: what it stores
  stays inside the caller's buffer when the size fits, and a call that succeeds with a larger
  one has overwritten what lies behind. `AnnouncedTooMuch` is a run that does.

The hardware hooks and the clock are tapes of answers (`Membufs.Host`). A run that ends
consults finitely many answers, and all finite tapes are allowed; past the end of a tape the
host is busy, sends nothing, and the time is up. So "the wait ends" is what a finite tape says.
Nothing is demanded of the host. A block that comes back may hold anything, such as old trace
bytes, and a host with data may announce more of it than the block holds: then what lies in
memory behind the block, which each answer carries along, is taken for host data as well
(`OnlyFromBlock`). Blocks have equal sizes between 4 bytes, the size of a packet header, and 2^15,
the range of the header's length field; the firmware uses 0x4000.

**The display driver (TFT_eSPI).** `Panel` is the panel: a picture, a window, and the pixel of
the window that comes next. `Tft.Display` is the driver: viewport, window commands, the cached
address of the last single pixel, and the basic shapes. Each drawing routine is proved to leave
exactly the picture of a plain rule, however it batches its work: `Lines` (Bresenham with runs),
`Circles`, `Glyphs` (three ways of painting a run-length encoded character), `Blits` (images
with a transparent colour at 16, 8 and 4 bits), `Drawing` (any sequence of all these calls and
of the viewport calls). `SqrtFraction` and `Utf8` are two self-contained routines.

**The scheduler of idf.py.** `Scheduler` is the loop that reworks the list of requested
tasks until everything stands after its dependencies. It ends whenever there is no cycle among
the commands that are needed, and never with a cycle of dependencies and requested
order-dependencies among them (`CycleNeverEnds`); the proof counts names never queued, then the
length of the list, then the rank of its front. The rounds of the loop are a relation between
states (`IsRound`), and further results are about all its runs (`IsTrace`).

**The DFU image writer.** `Cpio` is the archive format with a reader for it, `Dfu` the writer.
The MD5 and CRC-32 functions are parameters.

Where code and documentation disagree the model follows the code. idf.py warns that of several
requested invocations of a command only the first is executed. But a command that another one
waits for is taken from a dictionary by name, which holds the last invocation: of `A B B`, where
A depends on B, the last B runs (`LastOfTwo`). Every round that brings a command up turns its
invocations by one, so the first one runs exactly if the number of such rounds is a multiple of
the number of invocations (`WhichRuns`). That number is zero exactly if nothing that is
requested before the command needs it (`NeverBroughtUp`), and never more than the number of
commands that need it directly (`FewTurns`), which can both be checked beforehand. So with more
invocations than such commands, the first one runs exactly if nothing requested before needs it
(`FirstRunsExactly`). With fewer the turns may come full circle (`FirstOfTwo`).

## Model

| member | source | states |
|---|---|---|
| Ring.RingBuffer.constructor | esp-idf/components/app_trace/include/esp_app_trace_util.h:114-120 | a new ring is empty and has its full size |
| Ring.RingBuffer.Produce | esp-idf/components/app_trace/app_trace_util.c:96-136 | succeeds exactly when the bytes fit contiguously short of the read pointer; the region handed out holds no queued byte and becomes the newest part of the queue; a refusal changes nothing; the ring shrinks only when it wraps early; chunks handed out before stay where they are |
| Ring.RingBuffer.CanPlaceIs | esp-idf/components/app_trace/app_trace_util.c:96-125 | bytes can be placed exactly when the pointer does not come to the read pointer on the way, from where it is or from the start of the storage |
| Ring.RingBuffer.WrapEarly | esp-idf/components/app_trace/app_trace_util.c:109-123 | wrapping before the end of the storage appends the first bytes of the storage to the queue, also when the ring was empty |
| Ring.RingBuffer.Consume | esp-idf/components/app_trace/app_trace_util.c:138-162 | succeeds exactly when all positions asked for, from the read pointer on, hold queued bytes; the region returned holds the oldest bytes and the queue loses exactly these; taking the read size empties the queue or brings the pointer to the start |
| Ring.RingBuffer.ReadSize | esp-idf/components/app_trace/app_trace_util.c:164-175 | zero exactly when the queue is empty, which is exactly when the pointers meet |
| Ring.RingBuffer.ReadSizeIs | esp-idf/components/app_trace/app_trace_util.c:164-175 | the read size is the number of queued bytes in one piece from the read pointer on, and no other number is |
| Ring.RingBuffer.WriteSize | esp-idf/components/app_trace/app_trace_util.c:177-191 | every smaller request can be placed; zero in an unshrunk ring exactly when it is full |
| Ring.RingBuffer.WriteSizeIs | esp-idf/components/app_trace/app_trace_util.c:177-191 | the write size is how far the write pointer can be moved on without coming to the read pointer, and no other number is |
| Ring.RingBuffer.Poke | esp-idf/components/app_trace/app_trace_membufs_proto.c:209-214 | a store into a chunk that was handed out changes the queue at those bytes and nowhere else |
| Bytes.Le16Is | esp-idf/components/app_trace/app_trace_membufs_proto.c:19-27 | two-byte numbers are stored low byte first |
| Transfer.AppendChunk | esp-idf/components/app_trace/app_trace_membufs_proto.c:209-214 | a chunk within the write size is appended; the "failed to produce" assertion cannot fire |
| Transfer.DownBufferWrite | esp-idf/components/app_trace/app_trace_membufs_proto.c:193-219 | appends exactly the first min(size, free) bytes, wherever the ring wraps |
| Transfer.PumpPending | esp-idf/components/app_trace/app_trace_membufs_proto.c:115-136 | fills the block with the oldest pended bytes until it is full or none is left; the "failed to consume" assertion cannot fire; no byte is lost or reordered |
| Packets.ParseHead | esp-idf/components/app_trace/app_trace_membufs_proto.c:13-27 | the packet read off a stream is encoded at its start |
| Packets.ParseIsSound | esp-idf/components/app_trace/app_trace_membufs_proto.c:13-27 | on any bytes, what the host parses followed by what it leaves over is the stream |
| Packets.ParseOfPrefix | esp-idf/components/app_trace/app_trace_membufs_proto.c:13-27 | wherever a stream of packets is cut, the host has exactly the packets wholly before the cut and a proper piece of the next |
| Packets.ParseOfAll | esp-idf/components/app_trace/app_trace_membufs_proto.c:13-27 | a whole stream parses back to its packets with nothing left over |
| Packets.HeaderOver | esp-idf/components/app_trace/app_trace_membufs_proto.c:260-266 | writing a header over the start of an allocation makes it a packet with written size zero |
| Packets.Patch | esp-idf/components/app_trace/app_trace_membufs_proto.c:268-273 | overwriting payload or written size of any packet in place gives the stream of the changed packet |
| Packets.WholeInside | esp-idf/components/app_trace/app_trace_membufs_proto.c:13-19 | a packet that lies wholly before the cut is among those the host has, unchanged |
| Membufs.Proto.constructor | esp-idf/components/app_trace/app_trace_membufs_proto.c:55-71 | the protocol starts with nothing allocated, arrived or delivered, for any host |
| Membufs.Proto.DownBufferConfig | esp-idf/components/app_trace/app_trace_membufs_proto.c:73-76 | the down ring gets its storage and is empty; the account of host data starts anew |
| Membufs.Proto.ReceiveFromHost | esp-idf/components/app_trace/app_trace_membufs_proto.c:96-114 | takes exactly the part of the announced bytes that fits the down ring, even from behind the block, and clears the header; without host data the block is left alone |
| Membufs.Proto.Refill | esp-idf/components/app_trace/app_trace_membufs_proto.c:96-136 | host data is taken out of the new block before pended bytes overwrite it |
| Membufs.Proto.Exchange | esp-idf/components/app_trace/app_trace_membufs_proto.c:81-138 | the filled block is exposed up to its marker, the new block holds the oldest pended bytes, the down ring gets what it has room for |
| Membufs.Proto.ExchangeCounted | esp-idf/components/app_trace/app_trace_membufs_proto.c:81-138 | with one more chunk from the host, what was delivered and what waits are still what the queue takes of all chunks |
| Membufs.TakenIsAll | esp-idf/components/app_trace/app_trace_membufs_proto.c:193-219 | the queue takes all bytes of all chunks exactly if each of them fitted when it came |
| Membufs.OnlyFromBlock | esp-idf/components/app_trace/app_trace_membufs_proto.c:96-109 | only bytes of the block are taken exactly if the announced ones are in it; else all of the block and what lies behind it |
| Membufs.Proto.RingGrows | esp-idf/components/app_trace/app_trace_membufs_proto.c:193-219 | what has come from the host stays in the down ring until it is read |
| Membufs.Proto.SwapKeepsStream | esp-idf/components/app_trace/app_trace_membufs_proto.c:79-139 | a swap neither loses, repeats nor reorders a byte of the stream |
| Membufs.Proto.Swap | esp-idf/components/app_trace/app_trace_membufs_proto.c:79-139 | swaps exactly when the host agrees, and then counts its chunk, else changes nothing |
| Membufs.Proto.SwapWaitUs | esp-idf/components/app_trace/app_trace_membufs_proto.c:141-152 | gives up only after the clock said so, and then has changed nothing; otherwise one swap took place and one chunk came |
| Membufs.Proto.FlushNolock | esp-idf/components/app_trace/app_trace_membufs_proto.c:349-371 | ends because marker plus pended bytes fall with each swap; succeeds exactly when the marker is down to the minimum; with minimum zero every allocated byte is then exposed; fails only on a timeout |
| Membufs.Proto.TakeFromPend | esp-idf/components/app_trace/app_trace_membufs_proto.c:291-294 | the stream grows at its end by what the pending ring hands out |
| Membufs.Proto.TakeFromBlock | esp-idf/components/app_trace/app_trace_membufs_proto.c:323-329 | the stream grows at its end by the bytes past the marker |
| Membufs.Proto.Wait4Buf | esp-idf/components/app_trace/app_trace_membufs_proto.c:221-258 | after a swap the packet goes where there is room; without a buffer, the time was up or a swap took place and still neither block nor ring has room |
| Membufs.Proto.WaitAndTake | esp-idf/components/app_trace/app_trace_membufs_proto.c:295-303 | as Wait4Buf, with the marker moved past a packet that went into the block |
| Membufs.Proto.TakeOrWait | esp-idf/components/app_trace/app_trace_membufs_proto.c:291-303 | room in the pending ring, else after a swap; none only if neither has room |
| Membufs.Proto.Allocate | esp-idf/components/app_trace/app_trace_membufs_proto.c:284-330 | appends the packet's bytes to the stream; uses the block directly when nothing is pended and it fits; pended data and a ready host force a swap; fails only without room, after a timeout or a swap |
| Membufs.Proto.PktStart | esp-idf/components/app_trace/app_trace_membufs_proto.c:260-266 | the new bytes become a packet of the requested size and core with written size zero |
| Membufs.Proto.UpBufferGet | esp-idf/components/app_trace/app_trace_membufs_proto.c:275-336 | allocates exactly one packet, appended to all earlier ones, or none; too large a request changes nothing; packets that others hold stay in place unless a block was handed over |
| Membufs.Proto.Fill | esp-idf/components/app_trace/app_trace.c:274-274 | filling any packet that is still in place sets its payload and nothing else |
| Membufs.Proto.UpBufferPut | esp-idf/components/app_trace/app_trace_membufs_proto.c:338-347 | the written size of any packet that is still in place becomes its block size, nothing else changes |
| Membufs.Proto.HeldStays | esp-idf/components/app_trace/app_trace_membufs_proto.c:13-19 | until a block is handed over, a packet stays in place whatever others allocate, fill in, send off or read |
| Membufs.Proto.SeenAsLeft | esp-idf/components/app_trace/app_trace_membufs_proto.c:13-19 | when its block is handed over, the host sees a packet just as its owner has left it, so one not sent off shows written size zero |
| Membufs.Proto.LateAfterSwap | esp-idf/components/app_trace/app_trace_membufs_proto.c:79-139 | after one handover a packet of that block is in the block that the host has |
| Membufs.Proto.FillLate | esp-idf/components/app_trace/app_trace.c:274-274 | filling in such a packet changes no packet, neither shown nor still to be shown |
| Membufs.Proto.PutLate | esp-idf/components/app_trace/app_trace_membufs_proto.c:338-347 | sending off such a packet changes no packet either |
| Membufs.Proto.Deliver | esp-idf/components/app_trace/app_trace_membufs_proto.c:161-165 | hands on the oldest bytes of the down ring, as many as were asked for or all up to the end of the piece |
| Membufs.Proto.AwaitBytes | esp-idf/components/app_trace/app_trace_membufs_proto.c:158-183 | waits for host bytes by swapping when the host has data; gives up only when the time is up and the ring is empty |
| Membufs.Proto.DownBufferGet | esp-idf/components/app_trace/app_trace_membufs_proto.c:154-185 | delivers the next host bytes, as many as were asked for or all up to the end of the ring's piece; without a byte, the time was up and the down ring is empty |
| Membufs.Proto.ExposedIsPrefix | esp-idf/components/app_trace/app_trace_membufs_proto.c:79-139 | what the host was shown is a prefix of the encoding of all packets |
| Membufs.Proto.HostSeesPrefix | esp-idf/components/app_trace/app_trace_membufs_proto.c:13-27 | at any time the host parses the exposed bytes into a prefix of the allocated packets and a proper piece of the next |
| AppTrace.Write | esp-idf/components/app_trace/app_trace.c:241-278 | on success one complete packet with exactly this payload was appended, else none; out of memory only if it is too large or there is no room |
| AppTrace.Read | esp-idf/components/app_trace/app_trace.c:143-183 | copies the next host bytes into the buffer and touches nothing else of it; times out only when the clock says so |
| HostFileIo.RspRecv | esp-idf/components/app_trace/host_file_io.c:109-124 | success means that exactly the next bytes that the host sent are stored, however they were split; in any case only what was delivered is stored, and no other byte changes; bytes that wait already are enough |
| HostFileIo.CmdSend | esp-idf/components/app_trace/host_file_io.c:76-107 | on success the command packet was appended and the host was shown every byte |
| HostFileIo.FRead | esp-idf/components/app_trace/host_file_io.c:243-277 | what is stored from the start of the buffer on is what the host sent after its length word, all of it on success, and no other byte of memory changes; so the buffer is overrun exactly when more than its size is stored, which takes a larger announced length; the host parses the exposed bytes into all packets, the command last |
| HostFileIo.AnnouncedTooMuch | esp-idf/components/app_trace/host_file_io.c:262-270 | a run that stores five bytes in a buffer of four |
| HostFileIo.Step | esp-idf/components/app_trace/app_trace_membufs_proto.c:79-371 | one call of a run: appends its packet if it succeeded, hides nothing already exposed, delivers the next host bytes; chunks that came in it came before its read |
| HostFileIo.Run | esp-idf/components/app_trace/app_trace_membufs_proto.c:79-371 | over any run from the start the host parses a prefix of the packets of the successful writes, each complete; all of them after a successful full flush; what was read and what waits is what the queue takes of the chunks the host sent, each counted with the reads before it, and is all of them exactly if each fitted |
| Scheduler.ByNameIsLast | esp-idf/tools/idf.py:586-586 | the dictionary holds the last listed task of each name |
| Scheduler.MoveToFront | esp-idf/tools/idf.py:595-610 | the first occurrence of the task comes to the front and the others keep their order |
| Scheduler.BroughtOf | esp-idf/tools/idf.py:595-617 | bringing up the last invocation of a command, once or more often in a round, turns its invocations by one and leaves those of others in order |
| Scheduler.PullDependencies | esp-idf/tools/idf.py:588-611 | the list with the missing dependencies brought up one after the other, each as its last invocation or else a new one of the command it names; nothing changes exactly when none is missing |
| Scheduler.PullOrder | esp-idf/tools/idf.py:613-617 | the list with the waiting order-dependencies brought up one after the other; nothing changes exactly when there is none |
| Scheduler.Round | esp-idf/tools/idf.py:584-625 | the round brings up what the front task waits for, or takes it off the list |
| Scheduler.PopKeeps | esp-idf/tools/idf.py:619-625 | running the front task keeps the order, and no name gets lost |
| Scheduler.RoundKeeps | esp-idf/tools/idf.py:584-625 | every round keeps the order of what is run, all requested names and the requested invocations |
| Scheduler.RoundIsNearer | esp-idf/tools/idf.py:584-625 | a round comes nearer the end in the lexicographic order of new names, list length and rank of the front |
| Scheduler.RanksExist | esp-idf/tools/idf.py:583-625 | dependencies without cycles have numbers that fall along them, which is what ends the loop |
| Scheduler.TasksToRun | esp-idf/tools/idf.py:583-625 | without a cycle among the needed commands the loop ends, as a run of the rounds; the result is the least set with the requested names closed under the table of dependencies, each once; what the table of dependencies lists for a command precedes it, and so does what the table of order-dependencies lists and was requested; a requested command runs as a requested invocation |
| Scheduler.NoCycleIsRun | esp-idf/tools/idf.py:583-625 | no list in this order holds a command that needs itself through dependencies and requested order-dependencies, so the demand for no cycles cannot be dropped |
| Scheduler.CycleNeverEnds | esp-idf/tools/idf.py:583-625 | with a cycle of dependencies and requested order-dependencies among the needed commands, no run of the rounds ends |
| Scheduler.AliasNeverEnds | esp-idf/tools/idf.py:589-607 | a requested command with a dependency written as an alias is never run, so no run of the rounds ends |
| Scheduler.WhichRuns | esp-idf/tools/idf.py:536-544 | the invocation that runs is counted back from the first by the rounds that brought the command up; it is the first exactly if their number is a multiple of the number of invocations |
| Scheduler.NeverBroughtUp | esp-idf/tools/idf.py:536-544 | no round brings a command up exactly if nothing requested before it needs it; then its first invocation runs |
| Scheduler.FewTurns | esp-idf/tools/idf.py:588-617 | a command is brought up at most once by each needed command that needs it directly |
| Scheduler.FirstRunsExactly | esp-idf/tools/idf.py:536-544 | with more invocations than commands that need it directly, the first invocation runs exactly if nothing requested before it needs the command |
| Scheduler.LastOfTwo | esp-idf/tools/idf.py:536-544 | on A B B, where A depends on B, the last B is run and the first is not |
| Scheduler.FirstOfTwo | esp-idf/tools/idf.py:536-544 | on M N N, where M depends on N and D, and D on N, the first N is run although M needs it |
| Scheduler.EraseBeforeFlash | esp-idf/tools/idf.py:613-617 | on flash erase-flash, where flash has erase-flash as an order-dependency only, the run is erase-flash and then flash |
| Scheduler.RunsAsRequested | esp-idf/tools/idf.py:619-625 | commands that have no dependencies or order-dependencies run in the order of the request, each at its first invocation |
| Cpio.HexRoundTrip | esp-idf/tools/mkdfu.py:79-80 | hexadecimal printing of any number reads back, at exactly the given width if it fits |
| Cpio.HexDigitIs | esp-idf/tools/mkdfu.py:79-80 | digits are the lower-case ones |
| Cpio.FieldRoundTrip | esp-idf/tools/mkdfu.py:79-80 | a header field gives its number back exactly when the number is below 2^32 |
| Cpio.HeaderAt | esp-idf/tools/mkdfu.py:74-100 | the magic and all thirteen fields stand at the offsets of the format, each with its number, mode and link count by whether it is the trailer |
| Cpio.Spelling | esp-idf/tools/mkdfu.py:50-71 | magic and trailer name, byte by byte |
| Cpio.PadBytes | esp-idf/tools/mkdfu.py:124-127 | pads to the next multiple, keeping the bytes |
| Cpio.PaddingIsZero | esp-idf/tools/mkdfu.py:124-127 | what is added is zeros |
| Cpio.EntryRoundTrip | esp-idf/tools/mkdfu.py:194-205 | a printed entry is read back with its name, data and length, whatever follows |
| Cpio.ArchiveParses | esp-idf/tools/mkdfu.py:157-169 | reading an archive gives its files in order up to the first with the trailer's name |
| Cpio.UntilTrailerIsAll | esp-idf/tools/mkdfu.py:163-164 | that is all files exactly when none has the trailer's name |
| Dfu.CutGrows | esp-idf/tools/mkdfu.py:152-155 | adding a part keeps the chunks contiguous, named in turn and full except the last |
| Dfu.DecimalRoundTrip | esp-idf/tools/mkdfu.py:153-153 | the printed number of a chunk reads back |
| Dfu.ChunkNamesDiffer | esp-idf/tools/mkdfu.py:153-153 | two chunks of a file have the same name exactly if they are the same |
| Dfu.IndexSpelling | esp-idf/tools/mkdfu.py:107-107 | the name of the index file, byte by byte |
| Dfu.Writer.AddFlashEntry | esp-idf/tools/mkdfu.py:179-192 | archive entry and index entry are added together |
| Dfu.Writer.AddFile | esp-idf/tools/mkdfu.py:138-155 | the chunks added are consecutive pieces of the file at consecutive addresses, at most a part long; a part size of zero reads nothing and a negative one all |
| Dfu.NameFieldRoundTrip | esp-idf/tools/mkdfu.py:105-105 | the index gives a name back exactly when it has at most 64 bytes and does not end in a zero |
| Dfu.PackIndex | esp-idf/tools/mkdfu.py:160-160 | packing fails exactly when an address does not fit 32 bits |
| Dfu.IndexRoundTrip | esp-idf/tools/mkdfu.py:103-106 | each index entry reads back as address, flags zero, name field and checksum |
| Dfu.SuffixRoundTrip | esp-idf/tools/mkdfu.py:171-174 | a reader of the DFU suffix, for which the stored checksum and the CRC of all before it add up to 0xFFFFFFFF, accepts it and finds image, product and vendor 0x303A; device and format numbers are 0xFFFF and 0x0100 |
| Bytes.Le32Is | esp-idf/tools/mkdfu.py:102-115 | four-byte numbers are stored low byte first |
| Dfu.FinishedParses | esp-idf/tools/mkdfu.py:157-169 | the padded archive reads as the index followed by the chunks |
| Dfu.Writer.Finish | esp-idf/tools/mkdfu.py:157-177 | fails exactly when a number does not fit; otherwise the file is the archive of index, chunks and trailer, padded to blocks of 10240 bytes, and the suffix; it is read back, with its checksum, as image and index of the chunks |
| Dfu.ChunkNamedTrailer | esp-idf/tools/mkdfu.py:153-153 | only the first chunk of a file named like the trailer has the trailer's name |
| Dfu.WriteImage | esp-idf/tools/mkdfu.py:208-213 | the image reads back as the index and all chunks of all files, in order, exactly when no file that yields a chunk is named like the trailer; index entry i is about chunk i |
| Panel.Window.AtInside | libs/TFT_eSPI/TFT_eSPI.cpp:3356-3360 | the k-th pixel of a stream lands inside the window, at the place counted row by row |
| Panel.Window.WholeWindow | libs/TFT_eSPI/TFT_eSPI.cpp:4684-4686 | as many pixels as the window has cover it exactly |
| Tft.Display.constructor | libs/TFT_eSPI/TFT_eSPI.cpp:483-484 | a new display clips to the screen and has no cached address |
| Tft.Display.SetViewport | libs/TFT_eSPI/TFT_eSPI.cpp:178-232 | the clip box is exactly the part of the rectangle on the screen, flagged exactly when that is empty; the datum is the corner, or the screen's |
| Tft.Display.ResetViewport | libs/TFT_eSPI/TFT_eSPI.cpp:270-283 | the clip box is the screen |
| Tft.Display.SetOrigin | libs/TFT_eSPI/TFT_eSPI.cpp:902-906 | only the datum changes, so the clip box stays good |
| Tft.Display.SetWindow | libs/TFT_eSPI/TFT_eSPI.cpp:3356-3486 | the window is set and the cached address dropped, which keeps the cache sound |
| Tft.Display.PushBlock | libs/TFT_eSPI/TFT_eSPI.cpp:3801-3808 | colours exactly the next pixels of the window |
| Tft.Display.DrawPixel | libs/TFT_eSPI/TFT_eSPI.cpp:3578-3777 | colours exactly the pixel, if visible, although a column or row the panel has is not sent again |
| Tft.Display.FillRect | libs/TFT_eSPI/TFT_eSPI.cpp:4655-4689 | colours exactly the visible pixels of the shifted rectangle |
| Tft.Display.DrawFastHLine | libs/TFT_eSPI/TFT_eSPI.cpp:4625-4648 | colours exactly the visible pixels of the shifted line |
| Tft.Display.DrawFastVLine | libs/TFT_eSPI/TFT_eSPI.cpp:4595-4618 | colours exactly the visible pixels of the shifted line |
| Drawing.Draw | libs/TFT_eSPI/TFT_eSPI.cpp:3578-3777 | one call leaves the picture and the viewport of its plain rule, whatever the calls before it left in the window and the cache |
| Drawing.DrawAll | libs/TFT_eSPI/TFT_eSPI.cpp:3578-3777 | any sequence of viewport, shape, circle, character and image calls leaves the picture of their plain rules one after the other |
| Drawing.ClipStaysOnScreen | libs/TFT_eSPI/TFT_eSPI.cpp:178-232 | after any sequence of calls the clip box is on the screen |
| Lines.ErrIsDistance | libs/TFT_eSPI/TFT_eSPI.cpp:3901-3936 | the error term is the scaled distance from the true line and stays between zero and the major length |
| Lines.WithinHalf | libs/TFT_eSPI/TFT_eSPI.cpp:3901-3936 | every pixel is within half a pixel of the true line |
| Lines.EndsAtTarget | libs/TFT_eSPI/TFT_eSPI.cpp:3901-3936 | after all steps the minor axis has moved by exactly its length |
| Lines.LineHasEnds | libs/TFT_eSPI/TFT_eSPI.cpp:3880-3940 | both end points are pixels of the line, in any direction |
| Lines.LineIsClose | libs/TFT_eSPI/TFT_eSPI.cpp:3880-3940 | no pixel of the line is more than half a pixel off the line through the two given points, on either side |
| Lines.Slope.RunContinues | libs/TFT_eSPI/TFT_eSPI.cpp:3909-3919 | a batched run at one height is exactly the next pixels of the plain algorithm |
| Lines.DrawShallow | libs/TFT_eSPI/TFT_eSPI.cpp:3922-3936 | the runs of a shallow line colour exactly the visible pixels of the plain algorithm |
| Lines.DrawSteep | libs/TFT_eSPI/TFT_eSPI.cpp:3907-3921 | the runs of a steep line colour exactly the visible pixels of the plain algorithm |
| Lines.DrawLine | libs/TFT_eSPI/TFT_eSPI.cpp:3880-3940 | colours exactly the visible pixels of the line |
| Circles.DecisionSteps | libs/TFT_eSPI/TFT_eSPI.cpp:2426-2437 | the decision variable is a fixed quadratic expression in row, width and radius, kept by both kinds of step |
| Circles.SpanEnd | libs/TFT_eSPI/TFT_eSPI.cpp:2426-2437 | a span drawn with the decision variable in its bounds ends within one pixel of the circle |
| Circles.SpanWidth | libs/TFT_eSPI/TFT_eSPI.cpp:2426-2437 | a span drawn with the decision variable in its bounds has the width of the midpoint rule |
| Circles.MidpointUnique | libs/TFT_eSPI/TFT_eSPI.cpp:2426-2437 | the midpoint rule gives one width per row |
| Circles.DiscUnique | libs/TFT_eSPI/TFT_eSPI.cpp:2413-2446 | so the spans of a disc depend on its radius alone |
| Circles.FillCircle | libs/TFT_eSPI/TFT_eSPI.cpp:2413-2446 | one centred span on each row from -R to R and on no other, the same above and below, each of exactly the width that the midpoint rule gives and so within one pixel of the circle; nothing for a negative radius |
| SqrtFraction.DecideBit | libs/TFT_eSPI/TFT_eSPI.cpp:4039-4047 | the comparison decides the next bit of the root |
| SqrtFraction.NoOverflow | libs/TFT_eSPI/TFT_eSPI.cpp:4046-4046 | the remainder can be doubled within 32 bits |
| SqrtFraction.RootBits | libs/TFT_eSPI/TFT_eSPI.cpp:4039-4047 | the loop computes twice the integer square root of the scaled number, with no 32-bit overflow |
| SqrtFraction.AutoAdjust | libs/TFT_eSPI/TFT_eSPI.cpp:4032-4037 | the starting bit covers the number and is 4^(7+k), with k zero exactly up to 0x4000 |
| SqrtFraction.Unscaled | libs/TFT_eSPI/TFT_eSPI.cpp:4049-4049 | shifting back gives 256 times the root rounded down, to an even number if nothing was shifted |
| SqrtFraction.SqrtFraction | libs/TFT_eSPI/TFT_eSPI.cpp:4030-4050 | the result is the low byte of F with F^2 <= 65536 num < (F+1)^2 above 0x4000, and of an even F with 65536 num < (F+2)^2 up to there; zero above 2^30 |
| Glyphs.DecodeFirst | libs/TFT_eSPI/TFT_eSPI.cpp:5355-5360 | each byte read is a run that the decoded character continues with, so reading stays inside the data |
| Glyphs.RunsRoundTrip | libs/TFT_eSPI/TFT_eSPI.cpp:5355-5360 | any bitmap written as runs of up to 128 pixels, the top bit for set ones and the rest for the length less one, decodes to itself |
| Glyphs.Glyph.RowPiece | libs/TFT_eSPI/TFT_eSPI.cpp:5427-5445 | a piece of one row of a scaled character is a rectangle |
| Glyphs.StretchIsCells | libs/TFT_eSPI/TFT_eSPI.cpp:5397-5411 | at size one the window's row-by-row order is that of the character |
| Glyphs.NextCell | libs/TFT_eSPI/TFT_eSPI.cpp:5378-5383 | stepping one pixel right, or to the start of the next row, follows the pixel count |
| Glyphs.DrawTransparent | libs/TFT_eSPI/TFT_eSPI.cpp:5345-5391 | paints exactly the set pixels of the decoded character, scaled |
| Glyphs.DrawOpaque | libs/TFT_eSPI/TFT_eSPI.cpp:5395-5412 | paints exactly the decoded character in both colours |
| Glyphs.PaintRun | libs/TFT_eSPI/TFT_eSPI.cpp:5427-5445 | a run cut at the ends of rows paints exactly its pixels, clipped |
| Glyphs.DrawClipped | libs/TFT_eSPI/TFT_eSPI.cpp:5413-5447 | paints exactly the decoded character, scaled and clipped, in one or two colours |
| Glyphs.DrawChar | libs/TFT_eSPI/TFT_eSPI.cpp:5251-5452 | whichever of the three ways is taken, the picture is the decoded character, scaled and clipped |
| Blits.PiClip | libs/TFT_eSPI/TFT_eSPI.cpp:40-59 | the visible part is not empty, lies in the image, and is shifted alike on screen and in the image |
| Blits.PiClipIsExact | libs/TFT_eSPI/TFT_eSPI.cpp:40-59 | the part is exactly what shows of the image |
| Blits.CopiedAll | libs/TFT_eSPI/TFT_eSPI.cpp:40-59 | copying all rows of the visible part is the plain rule |
| Blits.Take | libs/TFT_eSPI/TFT_eSPI.cpp:1503-1519 | an opaque pixel joins the run, a transparent one sends it; no pixel is sent twice or lost |
| Blits.Flush | libs/TFT_eSPI/TFT_eSPI.cpp:1512-1522 | sending the run completes the row so far |
| Blits.SameDisplay | libs/TFT_eSPI/TFT_eSPI.cpp:1490-1491 | comparing stored bytes with the swapped colour compares displayed colours |
| Blits.SwapsBytes | libs/TFT_eSPI/TFT_eSPI.cpp:1490-1491 | the two bytes of a colour change places |
| Blits.PushImage16 | libs/TFT_eSPI/TFT_eSPI.cpp:1478-1530 | copies exactly the visible pixels that do not display as the transparent colour |
| Blits.BytesOfColor | libs/TFT_eSPI/TFT_eSPI.cpp:4792-4803 | the two bytes of a converted pixel are the 16-bit colour |
| Blits.ChannelsScale | libs/TFT_eSPI/TFT_eSPI.cpp:4792-4803 | each channel of the colour is the same channel of the 8-bit pixel, scaled: red to the nearest step, green exactly, blue to the next step |
| Blits.Row8 | libs/TFT_eSPI/TFT_eSPI.cpp:1916-1955 | a row with remembered last colour is the row of the plain rule |
| Blits.PushImage8 | libs/TFT_eSPI/TFT_eSPI.cpp:1901-1957 | copies exactly the visible pixels of an 8-bit image that are not the transparent one |
| Blits.TakeNibble | libs/TFT_eSPI/TFT_eSPI.cpp:1981-2035 | the half of the byte that is read is the pixel of that column |
| Blits.Row4 | libs/TFT_eSPI/TFT_eSPI.cpp:1971-2046 | a row of 4-bit pixels from an odd or even column is the row of the plain rule |
| Blits.PushImage4 | libs/TFT_eSPI/TFT_eSPI.cpp:1958-2050 | copies exactly the visible pixels of a 4-bit image that are not the transparent index, with rows as wide as the masked width says |
| Blits.StrideIsRowWidth | libs/TFT_eSPI/TFT_eSPI.cpp:1962-1962 | the masked width is that of a row exactly below 65535 pixels |
| Blits.AllRowsAreTheFirst | libs/TFT_eSPI/TFT_eSPI.cpp:1962-1962 | at 65535 pixels the masked width is zero and all rows are the first |
| Utf8.Feed | libs/TFT_eSPI/TFT_eSPI.cpp:4897-4938 | a byte keeps the decoder's state sound: the bits still missing are zero |
| Utf8.SerialDecoder.Decode | libs/TFT_eSPI/TFT_eSPI.cpp:4897-4938 | one call is one step of the state machine, or gives the byte back when decoding is off |
| Utf8.SerialRoundTrip | libs/TFT_eSPI/TFT_eSPI.cpp:4897-4938 | the serial decoder gives an encoded text back and ends between characters |
| Utf8.FallsBack | libs/TFT_eSPI/TFT_eSPI.cpp:4902-4938 | plain characters and, between characters, bytes that start no sequence are given back as they are |
| Utf8.DecodeAt | libs/TFT_eSPI/TFT_eSPI.cpp:4946-4970 | on any bytes the buffer decoder moves on and not past the end |
| Utf8.FallsBackAt | libs/TFT_eSPI/TFT_eSPI.cpp:4953-4970 | a single byte is taken exactly if it starts no sequence or the sequence is cut off, and is then given back as it is |
| Utf8.DecodeUtf8 | libs/TFT_eSPI/TFT_eSPI.cpp:4946-4970 | one call decodes the character at the index, or gives the byte back when decoding is off |
| Utf8.DecodeString | libs/TFT_eSPI/TFT_eSPI.cpp:5644-5647 | the loop ends on any bytes and decodes from start to end; with decoding off it gives the bytes |
| Utf8.DecodersAgree | libs/TFT_eSPI/TFT_eSPI.cpp:4897-4970 | both decoders give every encoded text back |

## Left out

- Membufs.Proto.Fill: a store through a pointer whose block was handed over twice, or whose pended packet has been moved to a block, overwrites whatever lies there now; that is not modelled.
- Membufs.Proto.UpBufferPut: as Fill.
- Membufs.Proto.DownBufferGet: the piece of the ring is read before the next operation, as `esp_apptrace_read` does; a swap between the call and the copy is not modelled.
- Ring.RingBuffer.Produce: pointers are unbounded numbers; a request near 2^32 that would wrap the 32-bit sum of pointer and size is not modelled, since no caller makes one.
- Glyphs.DrawChar: text sizes are one to seven, which is what `setTextSize` lets through, and the runs of a character add up to its area; the font tables themselves are parameters.
- Scheduler.TasksToRun: demands dependencies written with the commands' own names, since with an alias the loop need not end.
- HostFileIo.FRead: the memory behind the buffer is apart from the protocol's own; an overrun into that is not modelled.
- Locks, interrupts and the two cores of the tracing module; the SystemView header variant; tracing without a pending buffer.
- The checks of destination and initialisation in app_trace.c, `esp_apptrace_vprintf_to`, and the other host file calls, which send and receive as `FRead` does.
- Screen rotation, the driver and processor variants of the window commands, 32-bit overflow of screen coordinates.
- 1-bit images, masked images, sprites, smooth fonts and all floating-point drawing.
- Running the scheduled tasks, options of tasks, and the command line parsing of both tools; base names and UTF-8 encoding of file names.
- The application (`app`, `main`, `ivy`) and the Tuya SDK, which are calls into code that is not part of the repository.
