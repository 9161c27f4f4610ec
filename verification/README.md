# macxterm: verified models of decoders, protocol machines, printers and stores

The Dafny files beside this one model the self-contained algorithms of macxterm and prove what they are for.
`dafny verify dfyconfig.toml` checks the whole project.

Code that changes things step by step is modelled as methods with loops (classes where the source has an object
whose fields it updates), and each such method is proved equal to a function of its inputs or of the old state.
The properties are then lemmas about those functions, for all inputs, all runs or all reachable states.

| files | what they model |
|---|---|
| `Wire`, `Canvas`, `Mosaic`, `RfbPixels` | bytes and offsets, row-major pixel lists, images made of tiles, server pixels |
| `Hextile`, `RfbRect`, `Zrle` | the RFB rectangle decoders (sections 7.7.1 to 7.7.4 and 7.7.6 of RFC 6143) |
| `HextileEncoder`, `ZrleEncoder` (and the encoders in `RfbRect`) | reference encoders written from RFC 6143, which the decoders invert |
| `VncConnection`, `VncSplit` | the VNC client loop over its receive buffer, and what cutting the stream into reads changes |
| `VncHandshake` | the whole connection from the server's side: what it sends, what the client answers, and the images after |
| `VncImages`, `VncRects` | the reference encoders against the client loop: an encoded image sent is that image emitted, and which updates of several rectangles are read as they were sent |
| `TextDiff` | the longest-common-subsequence table and the greedy walk |
| `TftpPacket`, `TftpServer`, `TftpAnswers`, `TftpRun` | the TFTP codec, the server's per-peer transfers, the answer to every datagram byte by byte, and runs against RFC 1350 clients over a lossy, duplicating, reordering network |
| `CommandLine` | Windows argument quoting against the MSVCRT parsing rules |
| `IniSession`, `IniStore`, `IniRoundTrip`, `IniExact`, `IniFormat` | the session tree, its INI text, the parser, exactly which trees come back, and the documented format |
| `Scrollback`, `ScrollbackPrint`, `ScrollbackCap` | the scrolled-off history, its cap and its reflow, what it keeps of printed text, and what two resizes under the cap leave |
| `RemotePath`, `RemoteWalk` | normalising, joining and taking the parent of paths against walking a directory tree |
| `Bits`, `Cron`, `CronText` | bit masks as sets, cron expressions against their set reading, and what each way of writing one denotes |
| `Xdr`, `Nfs`, `NfsReadDir` | the XDR writer and reader, SETATTR parsing, the file handle table, READDIR paging |
| `Basics`, `Text` | shared arithmetic, options, splitting, joining and trimming |

Where a property does not hold of the code for every input, the project proves the exact condition instead:

- Streaming a rectangle is prefix-exact with one exception, which `PrefixExact` states: an empty Hextile rectangle is
  complete on every buffer, also one that ends before the rectangle starts.
- Cutting a VNC stream into reads can change what is emitted: a failed handshake is reported again by the next read
  (or the word after a failed result is taken for another result), an incomplete update of several rectangles emits
  its earlier rectangles again, and an update that ends in empty Hextile rectangles past the buffer's end removes bytes
  that have not been read as its own. `StreamSafeExactly` says exactly of which streams every part can be cut anywhere;
  `SplitSafeExactly` says the same of the whole stream when no update of several rectangles has an empty Hextile one;
  `LastByteNeededIs` spells the condition out phase by phase.
- RFC 6143 sends each rectangle of an update as a header with its payload behind it, but the reader takes all headers
  from the front of the update, back to back. An update is shown as it was sent exactly when those places hold its
  headers (`ManyShownExactly`), which an update of one rectangle always satisfies (`OneInFront`). Of two Raw rectangles
  of one pixel each the second is never shown, and the first is shown again on every read (`SecondNeverShown`).
- A TFTP transfer of 65535 * 512 bytes or more never ends, because the block number on the wire has 16 bits and the
  server's counter has more. `LockstepEnds` gives the exact bound, `LongFilesNeverEnd` shows it for every run.
- A command line reads back exactly when neither the program nor an argument contains NUL, because the child reads it
  as one C string; a NUL in the program takes every argument with it (`NulInProgram`).
- A session tree reads back exactly when it is a `LegalTree`. In particular a session named `[Folder` whose line ends
  in `]` is read as a folder header, and white space at the end of a session's last value is lost.
- A header that leaves out the root's name leads where the whole path leads exactly when its first name is not the
  root's own (`RelativeHeaderExactly`).
- The history recovers printed lines exactly when each but the last ends before the last column (`PrintedExactly`); a
  line that ends in it runs into the next, because the wrap flag is guessed from the last column.
- Resizing the history to w1 makes no difference to any later resize exactly when its newest logical lines, as many as
  the cap allows, are empty or end non-blank and, cut at w1, still fit under the cap (`ResizeTwiceExactly`). Under a cap
  of one the line `ab` resized to width one and back is `b` (`CapLosesFront`). Taking a line back to the screen is the
  one operation that can leave a logical line ending in a blank, and it does so exactly when the line before it
  continues and ends in a blank (`PopSettledExactly`; `PopMayUnsettle` is a reachable history where it happens).
- `normalize` leads to the same place as its input exactly when the input is not empty (empty becomes `/`).
- `parent` leads one step up exactly for absolute paths and for relative ones whose normal form has at least two
  segments and does not end in `..` (`ParentIsUpExactly`). The parent of `.`, of `..` and of a single name is `/`, so
  going up from the directory `.` leads to the root (`ParentOfHere`), and the parent of `../..` is `..`.
- `join` is associative for exactly the non-empty middle parts.
- The Raw decoder reads three bytes of every pixel. It stays inside its pixel data exactly when there is no pixel or a
  pixel has at least three bytes (`RawReadsInside`), and gives encoded images back exactly when a pixel has at least
  three bytes (`RawInvertsExactly`, with images of narrower pixels that it misreads).
- The sums of the cron step loop fit a signed int exactly when the step added to the last number visited does
  (`StaysInIntExactly`); in a day-of-month field the step 2147483647 from 1 does not (`LargestStepOverflows`).
- The file handle table stays one-to-one exactly as long as the 32-bit identifiers last.

Where code and documentation disagree the model follows the code. The comment at the head of `decodeZRLERect` cites
section 7.7.5 for ZRLE; RFC 6143 has it in section 7.7.6. The comment in the SETATTR handler says that after a short
read every later read fails; after a short *handle* that is not so (the length word has been consumed), and it is the
empty handle, which names no path, that keeps such a request from changing a file. Failed counted data leaves the
reader spent exactly when no word follows its length (`OpaqueFailureSticksExactly`, with an input where it does not). Section 3.3.2 of RFC 1813 lets a
request be guarded by a ctime; the handler reads the guard's flag and no more, so a guarded request is carried out
whatever ctime follows (`GuardNotCompared`).

## Model

| member | source | states |
|---|---|---|
| Hextile.Decode | src/connect/RfbProtocol.cpp:153-203 | the tile loop that paints in place completes exactly when the whole payload is in the buffer, and then every pixel is fixed by its own 16x16 tile alone: its raw pixel, else the last covering subrectangle of that tile, else the carried background |
| Hextile.DecodeTile | src/connect/RfbProtocol.cpp:160-199 | one tile, painted without clipping to the tile, shows exactly its own cells and leaves everything above and to the left unchanged; the carried colours afterwards are those the format prescribes |
| Hextile.PaintSubs | src/connect/RfbProtocol.cpp:185-198 | after the loop over the subrectangles the tile's cells show the last covering one, whatever spilled right and down |
| Hextile.PaintRaw | src/connect/RfbProtocol.cpp:170-181 | a raw tile's stores change the tile's cells and no others |
| Hextile.GridLocal | src/connect/RfbProtocol.cpp:153-203 | a completed Hextile decode depends only on the bytes it consumed, through its data-dependent lengths |
| HextileEncoder.TileRoundTrip | src/connect/RfbProtocol.cpp:160-199 | every legal tile of RFC 6143 section 7.7.4 (raw or filled, with or without background, foreground, plain or coloured subrectangles) parses back to its cells and carried colours, whatever stands in the bits of the subencoding that say nothing |
| HextileEncoder.DecodeEncode | src/connect/RfbProtocol.cpp:153-203 | decoding the reference encoding of an image, by any legal choice per tile, gives exactly the image wherever the payload stands in the buffer |
| HextileEncoder.EveryImageHasAnEncoding | src/connect/RfbProtocol.cpp:153-203 | every image of pixels the server format can carry has such an encoding |
| HextileEncoder.FirstTile | src/connect/RfbProtocol.cpp:153-199 | a first tile that sends no colours is black with white subrectangles |
| RfbPixels.ReadWritePixel | src/connect/RfbProtocol.cpp:94-101 | a server pixel of any width reads back as the colour that was written |
| RfbPixels.PixelsRoundTrip | src/connect/RfbProtocol.cpp:78-92 | a run of server pixels reads back unchanged |
| RfbPixels.ShadeIs | src/connect/RfbProtocol.cpp:141-150 | a cell shows the last of the subrectangles that cover it, and the background where none does |
| Wire.MostSignificantFirst | src/connect/VncConnection.cpp:24-32 | words of 16 and 32 bits are written and read with the most significant byte first |
| RfbRect.DecodeRaw | src/connect/RfbProtocol.cpp:78-92 | the Raw loop gives the row-major pixels of the payload, or nothing when the buffer is short, whenever its reads stay inside the pixel data |
| RfbRect.RawReadsInside | src/connect/RfbProtocol.cpp:83-90 | three bytes are read of every pixel whatever its width; all reads stay inside the pixel data exactly when there is no pixel or pixels have at least three bytes |
| RfbRect.DecodeRre | src/connect/RfbProtocol.cpp:128-152 | the RRE loops give, for each pixel, the last subrectangle covering it, else the background, clipped at the rectangle |
| RfbRect.DecodeRect | src/connect/RfbProtocol.cpp:107-207 | the dispatch over encodings: the same result as the specification when complete, nothing consumed when not, unknown encodings never complete |
| RfbRect.DecodedLocal | src/connect/RfbProtocol.cpp:107-207 | a completed decode, Raw ones with at least three bytes a pixel, depends only on the bytes from the offset to the end of what it consumed |
| RfbRect.ConsumedInside | src/connect/RfbProtocol.cpp:107-207 | the bytes a completed decode consumed are in the buffer, unless it is an empty Hextile rectangle |
| RfbRect.PrefixExact | src/connect/RfbProtocol.cpp:107-207 | streaming is prefix-exact: a completed decode is the same on every extension of the buffer, and on every truncation at all it is the same when the bytes it consumed are there and incomplete when they are not, save for an empty Hextile rectangle, which is complete on every buffer |
| RfbRect.DecodeEncodeRre | src/connect/RfbProtocol.cpp:128-152 | an RRE encoding decodes to its subrectangles painted in order over its background |
| RfbRect.DecodeEncodeRaw | src/connect/RfbProtocol.cpp:113-119 | a Raw encoding of at least three bytes a pixel decodes to its image |
| RfbRect.DecodeEncodeCopy | src/connect/RfbProtocol.cpp:120-127 | a CopyRect payload gives its source position, x before y, and consumes four bytes |
| RfbRect.RawInvertsExactly | src/connect/RfbProtocol.cpp:83-90 | the three bytes the Raw loop reads for a pixel give the pixel of every encoded image back exactly when a pixel has at least three bytes |
| RfbRect.NarrowRawTwo | src/connect/RfbProtocol.cpp:84-89 | an image of two pixels of two bytes whose first pixel is misread inside the data |
| Zrle.TileReader.U8 | src/connect/RfbProtocol.cpp:294-297 | the cursor never passes the end of the data; a read past it returns 0, moves nothing and latches `bad` |
| Zrle.TileReader.Cpixel | src/connect/RfbProtocol.cpp:298-306 | three bytes are one opaque pixel; a short read latches `bad` |
| Zrle.TileReader.RunLength | src/connect/RfbProtocol.cpp:307-312 | terminates on every byte string, and is one more than the sum of the 255-chunks, or bad exactly when they run out |
| Zrle.PutRun | src/connect/RfbProtocol.cpp:371-374 | a run writes the tile's cells in row-major order, once each, from where the last run ended, and is cut at the end of the tile |
| Zrle.DrawPlainRle | src/connect/RfbProtocol.cpp:366-375 | the plain RLE loop covers the tile exactly once, or latches `bad` exactly when the data is short |
| Zrle.DrawPaletteRle | src/connect/RfbProtocol.cpp:376-390 | the palette RLE loop does the same; indices past the palette are black |
| Zrle.DrawPackedRow | src/connect/RfbProtocol.cpp:356-365 | shifting indices out of a byte buffer gives each cell its index, and every row starts on a byte |
| Zrle.DrawTile | src/connect/RfbProtocol.cpp:341-393 | each subencoding draws exactly its tile; 17 to 127 and 129 are bad |
| Zrle.DecodeTiles | src/connect/RfbProtocol.cpp:329-397 | on every inflated byte string the tile loops end, and the result is the mosaic of the tiles |
| Zrle.TilePixelsOf | src/connect/RfbProtocol.cpp:329-397 | the result holds exactly w*h pixels or none |
| ZrleEncoder.RunRoundTrip | src/connect/RfbProtocol.cpp:307-312 | every run length reads back, through any number of 255-chunks |
| ZrleEncoder.IndexBitsLeast | src/connect/RfbProtocol.cpp:354 | the index width is that of the table in RFC 6143 section 7.7.6, and the least of 1, 2 and 4 bits that distinguishes the colours |
| ZrleEncoder.PackedRowRoundTrip | src/connect/RfbProtocol.cpp:356-365 | packed rows of 1, 2 and 4 bit indices, padded to a byte, read back |
| ZrleEncoder.TileRoundTrip | src/connect/RfbProtocol.cpp:341-393 | each of the five tile kinds of RFC 6143 section 7.7.6 reads back to its cells |
| ZrleEncoder.DecodeEncode | src/connect/RfbProtocol.cpp:329-400 | for every opaque image and every legal choice per tile, edge tiles included, decoding the encoding returns exactly the image whatever follows it |
| ZrleEncoder.EveryImageHasAnEncoding | src/connect/RfbProtocol.cpp:329-400 | every opaque image has such an encoding |
| ZrleEncoder.SolidTile | src/connect/RfbProtocol.cpp:298-306 | a solid tile byte by byte: blue, green and red, three bytes, opaque |
| ZrleEncoder.FourIndices | src/connect/RfbProtocol.cpp:354-365 | four cells of a palette of any three colours, two bits each, the first in the most significant bits |
| ZrleEncoder.OverlongRun | src/connect/RfbProtocol.cpp:366-375 | a run longer than the tile fills the tile and no more, whatever follows |
| ZrleEncoder.PastThePalette | src/connect/RfbProtocol.cpp:356-390 | indices past the palette, packed or in a run, are black |
| ZrleEncoder.UnusedSubencoding | src/connect/RfbProtocol.cpp:391-397 | a stream that is empty or starts with subencoding 17 to 127 or 129 gives no pixels for any rectangle |
| VncConnection.ReadHeaders | src/connect/RfbProtocol.cpp:50-76 | the header loop reads the back-to-back headers, valid exactly when all are there |
| VncConnection.Connection.TakeVersion | src/connect/VncConnection.cpp:37-45 | the version step: buffer, phase, reply and error as the state machine says, about which `VncHandshake` speaks |
| VncConnection.Connection.TakeSecurity | src/connect/VncConnection.cpp:47-58 | the security step of the state machine, whose choice `VncHandshake.SecurityReply` fixes |
| VncConnection.Connection.TakeResult | src/connect/VncConnection.cpp:60-67 | the result step, which consumes its word also when it fails |
| VncConnection.Connection.TakeInit | src/connect/VncConnection.cpp:69-83 | the ServerInit step and the things it sends and emits, which `VncHandshake.InitReply` fixes |
| VncConnection.Connection.DecodePayload | src/connect/VncConnection.cpp:96-98 | one payload, with the inflate stream carried from rectangle to rectangle |
| VncConnection.Connection.TakeUpdate | src/connect/VncConnection.cpp:89-108 | one update: all its rectangles, or the events of those decoded before the payload ran out and an untouched buffer |
| VncConnection.Connection.OnReadyRead | src/connect/VncConnection.cpp:34-110 | one arrival of data takes the state and the log to those of the step machine run until it waits or stops |
| VncConnection.StepConsumes | src/connect/VncConnection.cpp:34-110 | every message taken makes the buffer shorter, so every read ends |
| VncConnection.NothingToTake | src/connect/VncConnection.cpp:89 | a message of another type than an update is never taken, and everything waits behind it |
| VncHandshake.VersionReply | src/connect/VncConnection.cpp:37-45 | every ProtocolVersion of three-digit numbers is answered by the same twelve bytes, whatever follows |
| VncHandshake.BadVersion | src/connect/RfbProtocol.cpp:7-17 | twelve bytes are refused exactly when they do not start with "RFB ", do not end in a newline, or one of the numbers does not read |
| VncHandshake.SecurityReply | src/connect/VncConnection.cpp:47-58 | for every list of security types the answer is None when it is on offer and otherwise the first type |
| VncHandshake.ResultReply | src/connect/VncConnection.cpp:60-67 | a result of four zero bytes is answered by a shared ClientInit, any other is an error and is not answered |
| VncHandshake.InitReply | src/connect/VncConnection.cpp:69-83 | a ServerInit written from width, height, format and name comes back in what is emitted, and is answered by the five encodings in order and a request for the whole screen, byte by byte |
| VncHandshake.ConnectionRuns | src/connect/VncConnection.cpp:34-110 | from the first byte to the last image: a server that speaks RFC 6143 and offers None gets the four answers and each content shown once, in order |
| VncHandshake.ConnectionArrives | src/connect/VncConnection.cpp:34-110 | the same however the server's bytes are cut into reads |
| VncHandshake.NothingOffered | src/connect/VncConnection.cpp:47-52 | a server that offers no security type gets its version back and is refused |
| VncHandshake.NotLetIn | src/connect/VncConnection.cpp:60-65 | after a result other than zero no ClientInit is sent |
| VncSplit.ReadInTwo | src/connect/VncConnection.cpp:34-110 | for a clean stream, reading a first part and then a non-empty rest is reading it all: same phase, buffer, inflate stream and events |
| VncSplit.SplitDoesNotMatter | src/connect/VncConnection.cpp:34-110 | the same for any number of reads, each of which brings something |
| VncSplit.SplitSafeExactly | src/connect/VncConnection.cpp:34-110 | when no update of several rectangles has an empty Hextile one, every way of cutting the stream into non-empty reads gives what one read gives exactly when the stream is clean: no complete update of several rectangles has payload, unless it needs the last byte received; and a failed handshake or an incomplete update that already emits needs the last byte received for that, or is a failed result with fewer than four bytes after it |
| VncSplit.StreamSafeExactly | src/connect/VncConnection.cpp:34-110 | whatever the updates hold, every part of the stream can be cut anywhere into non-empty reads exactly when the stream is clean |
| VncSplit.StopRepeats | src/connect/VncConnection.cpp:37-108 | when a proper part of the buffer already ends a read with a failed version or security message or an update cut short, the read that brings the other bytes does all a single read does, starting with the events the earlier read has already produced, up to pixels |
| VncSplit.LastByteNeededIs | src/connect/VncConnection.cpp:37-108 | when the last byte is needed, phase by phase: a version of twelve bytes, one byte of security, one word of result, no first rectangle complete before the last byte |
| VncSplit.ResultMisread | src/connect/VncConnection.cpp:60-67 | after a failed result the next read takes the word that follows for another result |
| VncSplit.UnsafeCut | src/connect/VncConnection.cpp:94-107 | an update of several rectangles with payload that does not need the last byte received has a cut that shows: its first rectangles are emitted twice, or, past empty Hextile rectangles, a byte stays behind that a single read removes |
| VncImages.UpdateShows | src/connect/VncConnection.cpp:89-108 | an update of one rectangle whose payload decodes to an image or a copy is taken whole and emits exactly that |
| VncImages.StreamArrives | src/connect/VncConnection.cpp:34-110 | however the bytes of a stream of such updates arrive, each content is emitted once, in order, and the buffer is empty |
| VncImages.UpdateArrives | src/connect/VncConnection.cpp:34-110 | however the bytes of such an update arrive, its content is emitted once and the buffer is empty |
| VncImages.RawShows | src/connect/VncConnection.cpp:89-108 | a Raw update shows its image |
| VncImages.CopyShows | src/connect/VncConnection.cpp:100-101 | a CopyRect update shows a copy from its source position to its rectangle |
| VncImages.RreShows | src/connect/VncConnection.cpp:89-108 | an RRE update shows its subrectangles in order over its background |
| VncImages.HextileShows | src/connect/VncConnection.cpp:89-108 | a Hextile update, encoded by any legal choice per tile, shows its image |
| VncImages.ZrleShows | src/connect/VncConnection.cpp:89-108 | a ZRLE update whose block inflates to an encoding by any legal choice per tile shows its image and moves the inflate stream on by one block |
| VncImages.BrokenStream | src/connect/RfbProtocol.cpp:326-327 | a block that does not inflate, and every block after it, shows an empty image and takes exactly its bytes |
| VncImages.EmptyBlock | src/connect/RfbProtocol.cpp:326-397 | a block of no bytes shows an empty image and leaves the stream as it is |
| VncRects.HeaderExactly | src/connect/RfbProtocol.cpp:65-73 | a header is read at an offset exactly when its twelve bytes stand there |
| VncRects.ManyShownExactly | src/connect/VncConnection.cpp:89-107 | an update of any number of rectangles, each sent as a header with its payload behind it, is taken whole and shown as sent exactly when the places the reader takes headers from hold them |
| VncRects.OneInFront | src/connect/VncConnection.cpp:92-94 | an update of one rectangle always has its header there |
| VncRects.SecondNeverShown | src/connect/RfbProtocol.cpp:65-73 | two pixels sent as two Raw rectangles, of which the second is never shown and the first on every read |
| TextDiff.FillTable | src/tools/TextDiff.cpp:11-16 | the table filled in place from its far corner holds the length of a longest common subsequence for every pair of suffixes |
| TextDiff.Diff | src/tools/TextDiff.cpp:6-32 | the loops that walk the table and flush both ends give the walk of the specification |
| TextDiff.Counts | src/tools/TextDiff.cpp:34-40 | the numbers of added and removed lines |
| TextDiff.DiffSpells | src/tools/TextDiff.cpp:18-31 | the Equal and Removed lines joined are the first text, the Equal and Added lines the second |
| TextDiff.LcsBounds | src/tools/TextDiff.cpp:11-16 | no common subsequence is longer than the table entry |
| TextDiff.DiffOptimal | src/tools/TextDiff.cpp:6-32 | the Equal lines are as many as any common subsequence has, so Added plus Removed is the least of all edit scripts |
| TextDiff.DiffFirst | src/tools/TextDiff.cpp:18-31 | of all scripts that keep as many lines the diff is the first, where keeping comes before removing and removing before adding |
| TextDiff.LcsNeighbours | src/tools/TextDiff.cpp:13-16 | neighbouring table entries differ by at most one |
| TextDiff.DiffOrder | src/tools/TextDiff.h:18-19 | a Removed line never directly follows an Added line: at each change point all removals come first |
| TftpPacket.DecodeAck | src/tools/TftpPacket.cpp:33-36 | an acknowledgement decodes to its block modulo 65536 |
| TftpPacket.DecodeData | src/tools/TftpPacket.cpp:29-32 | a DATA packet decodes to its block modulo 65536 and its bytes |
| TftpPacket.DecodeRrq | src/tools/TftpPacket.cpp:18-28 | a read request decodes to its name and mode |
| TftpPacket.DecodeError | src/tools/TftpPacket.cpp:37-44 | an error packet decodes to its code modulo 65536 and its message |
| TftpServer.Server.OnDatagram | src/tools/TftpServer.cpp:33-76 | one datagram takes the transfer table and the reply to those of the specification: insert on a request, erase on the last acknowledgement, otherwise the next block, and nothing for a stale one |
| TftpAnswers.ReadRequest | src/tools/TftpServer.cpp:43-54 | a read request gets DATA 1 with the first 512 bytes and starts a transfer, or error 1 "File not found" or error 2 "Access violation", byte by byte |
| TftpAnswers.CutRequest | src/tools/TftpPacket.cpp:18-28 | a request whose mode does not end is served all the same, and one whose name does not end like one with an empty name |
| TftpAnswers.WriteRequest | src/tools/TftpServer.cpp:72-74 | whatever follows a write opcode gets error 2 "Server is read-only" |
| TftpAnswers.Acknowledged | src/tools/TftpServer.cpp:55-71 | the awaited acknowledgement of block k gets the bytes from k*512 on, at most 512 of them and possibly none, or ends the transfer when block k was short |
| TftpAnswers.NotAwaited | src/tools/TftpServer.cpp:56-58 | an acknowledgement of another block, or without a transfer, changes nothing and is not answered |
| TftpAnswers.PassedOver | src/tools/TftpServer.cpp:43-74 | so does every other datagram |
| TftpAnswers.AnswersRead | src/tools/TftpPacket.cpp:29-60 | a peer reads block and bytes, or code and message, out of what it is sent |
| TftpRun.NextInv | src/tools/TftpServer.cpp:43-71 | the invariant over server, clients and network that every step keeps, with loss, duplication, reordering and repeated requests |
| TftpRun.RunSafe | src/tools/TftpServer.cpp:43-71 | in every run each client holds whole blocks of its file and nothing else, and whenever the server erases a transfer its client holds the whole file, also when the size is a multiple of 512 |
| TftpRun.LockstepEnds | src/tools/TftpServer.cpp:55-71 | with an in-order client a transfer of S bytes ends exactly when S < 65535*512, and then after S/512+1 DATA packets |
| TftpRun.LongFilesNeverEnd | src/tools/TftpServer.cpp:58-70 | in no run at all is the transfer of a longer file erased |
| CommandLine.QuoteArg | src/platform/Pty.cpp:26-47 | the loop that counts backslashes writes the quoting of the specification |
| CommandLine.UnquotedExactly | src/platform/Pty.cpp:26-29 | an argument is left as it is exactly when it is not empty and has no blank, tab or quote in it |
| CommandLine.QuotedRuns | src/platform/Pty.cpp:30-46 | inside the quotes backslashes are doubled before a quote, which gets one more, and at the end, and nowhere else |
| CommandLine.PlainLine | src/platform/Pty.cpp:77-78 | a program and arguments that need no quotes are written with single blanks between |
| CommandLine.BuildCommandLine | src/platform/Pty.cpp:77-78 | the program and every argument, quoted, with a blank before each argument |
| CommandLine.TakeQuote | src/platform/Pty.cpp:26-47 | the MSVCRT rules read a quoted argument back, whatever it is, and stop at the blank after it |
| CommandLine.RoundTripExactly | src/platform/Pty.cpp:77-80 | cut at its first NUL, as the child sees it, the command line reads back as the program and the argument list, empty arguments and trailing backslashes included, exactly when none of them contains NUL |
| CommandLine.ArgumentsExactly | src/platform/Pty.cpp:77-80 | after a program without NUL, by whatever rules that is read, the arguments come back exactly when none contains NUL |
| CommandLine.NulInProgram | src/platform/Pty.cpp:77-80 | a program with a NUL inside, after which no argument arrives |
| IniSession.PutSorted | src/core/Session.h:42 | setting a parameter keeps the keys sorted and distinct, as QVariantMap does |
| IniSession.KindBack | src/core/Session.cpp:6-32 | every session type reads back from its name |
| IniFormat.KindExactly | src/core/Session.cpp:24-30 | a kind other than Unknown is read from its name alone, in capital or small letters and with any white space around it |
| IniFormat.LessExactly | src/core/IniStore.cpp:16-17 | keys are ordered by their first different character, a shorter key before its extensions |
| IniSession.LineReads | src/core/IniStore.cpp:57-75 | what the line of any nameable session reads as: a header when it looks like one, else the session without the space at the end of its last value |
| IniSession.LineBackExactly | src/core/IniStore.cpp:12-22 | a session line reads back as the session exactly when the session is legal |
| IniStore.Collect | src/core/IniStore.cpp:9-27 | the recursive printer appends, to whatever is there, the lines of the folder and of its subfolders in depth-first order |
| IniStore.EnsurePath | src/core/IniStore.cpp:37-51 | the loop that descends and adds folders arrives where the recursive specification does, with the tree it builds; along which names, `IniFormat.RelativeHeaderExactly` says |
| IniStore.ParseSession | src/core/IniStore.cpp:65-74 | the fields of a trimmed session line, parameter by parameter |
| IniFormat.EntryReads | src/core/IniStore.cpp:65-74 | a line that is no header: the name up to the first equals sign, the kind, and the fields |
| IniFormat.LastFieldWins | src/core/IniStore.cpp:71-74 | of several fields for one key the last gives its value, and a field without a key gives none |
| IniFormat.PaddedLine | src/core/IniStore.cpp:58 | white space around a line, a carriage return included, changes nothing about what it says |
| IniStore.Deserialize | src/core/IniStore.cpp:53-78 | the loop over lines, with its moving current folder, builds the tree of the specification |
| IniRoundTrip.LoadFolder | src/core/IniStore.cpp:9-78 | loading a printed folder, from any current folder, adds exactly that folder where its header says |
| IniRoundTrip.LoadTree | src/core/IniStore.cpp:9-78 | loading a printed tree gives the tree, with session lines tightened |
| IniFormat.RelativeHeaderExactly | src/core/IniStore.cpp:37-41 | a header of names below the root leads along all of them exactly when the first is not the root's name |
| IniFormat.SlashesSkipped | src/core/IniStore.cpp:38 | doubled slashes, and slashes at an end, make no difference to a header |
| IniFormat.EmptyText | src/core/IniStore.cpp:53-57 | a text with nothing in it is read as a root named Sessions without sessions or folders |
| IniFormat.LoadSame | src/core/IniStore.cpp:53-78 | texts that differ only in the root's name in front of such headers load to the same tree and the same current folder |
| IniFormat.DocumentedBack | src/core/IniStore.h:11-15 | the text of a legal tree in the documented format, headers without the root's name, is read back as the tree |
| IniFormat.DocumentedLooks | src/core/IniStore.h:11-15 | that text for a folder inside a folder, line by line |
| IniFormat.LineLooks | src/core/IniStore.cpp:12-22 | a session line, character by character |
| IniFormat.PrintedLooks | src/core/IniStore.cpp:9-27 | the printed text of a root with a session and a folder, character by character |
| IniExact.DeserializedParsed | src/core/IniStore.cpp:53-78 | whatever the text, sibling folders are distinct and nameable and every session has a legal name and legal sorted parameters |
| IniExact.LoadCount | src/core/IniStore.cpp:53-78 | sessions are neither lost nor made up: their number grows by one per line that reads as a session |
| IniExact.RoundTripExactly | src/core/IniStore.cpp:9-78 | a tree comes back from its text unchanged, order and empty folders included, exactly when it is a legal tree |
| Scrollback.History.PushLine | src/term/VtEngine.cpp:64-73 | a pushed line is recorded with its wrap flag, and the oldest lines go when the cap is passed |
| Scrollback.PushThenPop | src/term/VtEngine.cpp:64-90 | a line pushed under the cap is the line taken back, and everything else is as it was |
| Scrollback.NewestStay | src/term/VtEngine.h:44-50 | at the cap a push drops the oldest line, and a lower cap keeps the newest lines with their flags |
| ScrollbackPrint.PrintedIs | src/term/VtEngine.cpp:64-73 | printing any lines of visible cells under the cap, rows padded to the screen's width, adds to the logical lines exactly those, where one that ends in the last column runs into the next |
| ScrollbackPrint.PrintedExactly | src/term/VtEngine.cpp:64-73 | the printed lines come back as they are exactly when each but the last ends before the last column |
| ScrollbackPrint.PrintedThenResized | src/term/VtEngine.cpp:152-187 | such text printed at one width and resized to another is the same lines, cut at the other width with their flags |
| ScrollbackPrint.PiecesAre | src/term/VtEngine.cpp:172-181 | the rows of a re-split line are the line, all but the last as wide as the screen and the last not empty unless the line is |
| Scrollback.History.PopLine | src/term/VtEngine.cpp:78-90 | the newest line leaves both lists and is handed out padded or cut to the screen's width |
| Scrollback.History.SetScrollbackMax | src/term/VtEngine.h:44-50 | a new cap keeps the newest lines; a negative one is zero |
| Scrollback.History.ClearScrollback | src/term/VtEngine.h:53 | both lists are emptied and the cap stays |
| Scrollback.History.Reflow | src/term/VtEngine.cpp:152-187 | rejoining, trimming, re-splitting and capping in loops is re-wrapping the logical lines |
| Scrollback.LogicalOfWrapping | src/term/VtEngine.cpp:152-187 | the logical lines read back after a resize are those before it, up to blanks at their ends |
| Scrollback.CountWrapping | src/term/VtEngine.cpp:172-181 | re-splitting keeps every cell |
| Scrollback.RewrapTwiceExactly | src/term/VtEngine.cpp:172-181 | before the cap is applied, re-splitting at w1 and then at w2 is re-splitting at w2 exactly when every logical line is empty or ends non-blank |
| ScrollbackCap.ReflowedIs | src/term/VtEngine.cpp:152-187 | under the cap a resize depends on the newest logical lines only, as many as the cap allows |
| ScrollbackCap.ResizeTwiceExactly | src/term/VtEngine.cpp:152-187 | a resize to w1 makes no difference to any later one exactly when those newest logical lines are empty or end non-blank and, cut at w1, fit under the cap |
| ScrollbackCap.CapLosesFront | src/term/VtEngine.cpp:184 | a settled line that the cap cuts short |
| Scrollback.ApplyValid | src/term/VtEngine.cpp:66-90 | across push, pop, reflow, clear and cap changes the two lists stay parallel and within the cap |
| Scrollback.ApplyFull | src/term/VtEngine.cpp:64-90 | across the same operations a line that continues on the next is never empty |
| Scrollback.PopSettledExactly | src/term/VtEngine.cpp:78-90 | taking a line back keeps all logical lines empty or ending non-blank exactly when the line before it ends non-blank or does not continue |
| Scrollback.ApplySettled | src/term/VtEngine.cpp:64-90 | an operation keeps all logical lines empty or ending non-blank exactly when it is not a pop, or a pop that leaves the line before it ending non-blank or not continuing |
| Scrollback.PopMayUnsettle | src/term/VtEngine.cpp:78-90 | a concrete history that a pop leaves ending in a blank inside a logical line |
| ScrollbackCap.HistoryResizesTwice | src/term/VtEngine.cpp:152-187 | after any pushes, clears, cap changes, resizes and pops that leave the line before properly ended, a resize to w1 makes no difference to later ones exactly when the newest logical lines cut at w1 fit under the cap |
| RemotePath.Normalize | src/sftp/RemotePath.cpp:5-23 | the loop over segments with its stack gives the specification's normal form |
| RemotePath.JoinPaths | src/sftp/RemotePath.cpp:25-28 | the join about which `JoinWalks` and `JoinAssociative` speak |
| RemotePath.Parent | src/sftp/RemotePath.cpp:30-36 | the parent about which `ParentIsUp` speaks, found at the last slash of the normal form |
| RemotePath.NormalIdempotent | src/sftp/RemotePath.cpp:5-23 | normalising twice is normalising once |
| RemotePath.AbsoluteHasNames | src/sftp/RemotePath.cpp:11-15 | an absolute normal form holds no "." and no ".." |
| RemotePath.NormalPreservesExactly | src/sftp/RemotePath.cpp:5-23 | from every start directory the normal form leads where the path leads, ".." clamped at the root, exactly when the path is not empty |
| RemoteWalk.NormalDecides | src/sftp/RemotePath.cpp:5-23 | two non-empty paths have the same normal form exactly when they lead to the same place from everywhere |
| RemoteWalk.JoinWalks | src/sftp/RemotePath.cpp:25-28 | the joined path leads where the child leads from where the base leads, an empty base being the root |
| RemotePath.JoinAssociative | src/sftp/RemotePath.cpp:25-28 | join is associative for every non-empty middle part, relative or absolute, whatever the first and last parts are |
| RemotePath.JoinAssociatesExactly | src/sftp/RemotePath.cpp:25-28 | a middle part can be regrouped between all first and last parts exactly when it is not empty |
| RemotePath.ParentIsUp | src/sftp/RemotePath.cpp:30-36 | for an absolute path, or a relative one whose normal form has two segments or more and does not end in "..", the parent is one step up from where the path leads |
| RemotePath.ParentIsUpExactly | src/sftp/RemotePath.cpp:30-36 | the parent leads one step up from wherever one starts exactly for those paths |
| RemotePath.ParentOfHere | src/sftp/RemotePath.cpp:34 | the parent of "." is "/", so from /home/user going up leads to the root and not to /home |
| Bits.LowBits | src/tools/CronExpr.cpp:63-67 | narrowing a mask keeps exactly the bits below its width |
| Bits.SameBits | src/tools/CronExpr.cpp:84-85 | comparing masks is comparing the sets they hold |
| Bits.TestBit | src/tools/CronExpr.cpp:75-81 | the shift-and-mask test is bit membership |
| Cron.ParseField | src/tools/CronExpr.cpp:7-39 | a field parses exactly when all its parts are well formed, and its mask then holds exactly the numbers of its ranges, steps and lists |
| Cron.PutRange | src/tools/CronExpr.cpp:36 | the step loop sets the bits of every step-th number and no others |
| Cron.StaysInIntExactly | src/tools/CronExpr.cpp:36 | no sum of the step loop passes the largest int exactly when the step added to the last number visited does not |
| Cron.LargestStepOverflows | src/tools/CronExpr.cpp:36 | a range and step within the limits the parser checks, for which the first sum overflows |
| Cron.FullMask | src/tools/CronExpr.cpp:41-46 | the unrestricted mask holds the whole interval |
| Cron.FieldsAreWords | src/tools/CronExpr.cpp:50-51 | simplifying and splitting at spaces gives the words between white space |
| CronText.NumeralBack | src/tools/CronExpr.cpp:17-32 | a written number reads as itself, with or without a sign, exactly when it fits 32 bits |
| CronText.DigitsExactly | src/tools/CronExpr.cpp:17-32 | what has anything but digits in it reads as no number |
| CronText.FieldBack | src/tools/CronExpr.cpp:7-39 | a field written as a list of *, a, a-b, each perhaps with a step, is accepted exactly when every part is in range with a positive step, and is then the set of the numbers its parts denote |
| CronText.EmptyParts | src/tools/CronExpr.cpp:9-10 | empty parts of a list are passed over, and a list of nothing else is refused |
| CronText.WordsBack | src/tools/CronExpr.cpp:50 | fields are read whatever white space is between and around them |
| Cron.FoldSunday | src/tools/CronExpr.cpp:60-61 | the two operations on bit 7 fold weekday 7 into 0 |
| Cron.CronExpr.Parse | src/tools/CronExpr.cpp:49-69 | parsing fails exactly when the expression has no meaning; the narrowed masks hold the meaning's five sets |
| Cron.CronExpr.constructor | src/tools/CronExpr.h:13-14 | a constructed expression represents the meaning of its text |
| Cron.CronExpr.Matches | src/tools/CronExpr.cpp:71-88 | for every valid expression and moment the mask tests agree with the set reading, with the either-day rule when both day fields are restricted; an invalid one never matches |
| CronText.ExpressionBack | src/tools/CronExpr.cpp:49-69 | every written expression has a meaning exactly when its five fields are in range, and it is what they denote, weekday 7 being weekday 0 |
| CronText.EitherDay | src/tools/CronExpr.cpp:83-86 | a job written for a day of the month and a weekday is due on either |
| CronText.OnDayOfMonth | src/tools/CronExpr.cpp:83-87 | written without a weekday it is due on the day of the month only |
| CronText.OnWeekday | src/tools/CronExpr.cpp:80-87 | written without a day of the month it is due on the weekday only, 0 and 7 both being Sunday |
| Xdr.XdrWriter.OpaqueFixed | src/tools/Xdr.cpp:15-18 | padding, counted over the whole buffer, pads the item to a multiple of four |
| Xdr.XdrReader.ReadU32 | src/tools/Xdr.cpp:25-33 | a word, or failure with the position unmoved |
| Xdr.XdrReader.ReadU64 | src/tools/Xdr.cpp:35-41 | two words, good only when both were there |
| Xdr.XdrReader.ReadOpaqueVar | src/tools/Xdr.cpp:52-57 | counted bytes; when they are short the length word stays consumed |
| Xdr.WriteAll | src/tools/Xdr.cpp:5-23 | any list of typed writes appends its encoding |
| Xdr.ItemsRoundTrip | src/tools/Xdr.cpp:5-57 | any sequence of typed writes reads back unchanged, lengths and positions being multiples of four |
| Xdr.Layout | src/tools/Xdr.cpp:5-23 | counted data is its length, the data and zeros up to a multiple of four; a double word its high and its low word |
| Xdr.FailureSticks | src/tools/Xdr.cpp:25-41 | after a failed word or double-word read every later one fails and moves nothing |
| Xdr.OpaqueFailureSticksExactly | src/tools/Xdr.cpp:52-57 | after failed counted data every later word read fails exactly when no word follows its length |
| Xdr.ShortOpaqueReadsOn | src/tools/Xdr.cpp:52-57 | counted data cut short after which the next word is read |
| Xdr.ReadsStayAligned | src/tools/Xdr.cpp:25-57 | every read, good or failed, on any buffer, leaves the position inside the buffer and a multiple of four |
| Nfs.HandleTable.FileHandle | src/tools/NfsServer.cpp:123-132 | a path keeps its handle, a new path gets a new one, old handles keep their paths, and the table stays one-to-one exactly as long as the 32-bit identifiers last |
| Nfs.HandleTable.NoEmptyHandle | src/tools/NfsServer.h:40 | the empty handle, which a failed read yields, names no path |
| Nfs.SetAttr | src/tools/NfsServer.cpp:341-380 | although every read overwrites `ok`, a file is changed exactly when the whole request parsed and its handle names a path, and then as the request asks |
| Nfs.SetAttrAllOrNothing | src/tools/NfsServer.cpp:341-356 | reading on after failures and looking at the last outcome equals parsing all or nothing |
| Nfs.CutParse | src/tools/NfsServer.cpp:341-356 | a request cut anywhere before its end does not parse; cut at its end or later it parses to the same |
| Nfs.CutRequestChangesNothing | src/tools/NfsServer.cpp:352-356 | a datagram that ends inside a SETATTR request changes no file |
| Nfs.RequestRoundTrip | src/tools/NfsServer.cpp:341-351 | every request a client encodes, with any of its optional fields and each time kept, set to the server's time or given, parses to exactly that request |
| Nfs.AnyFlag | src/tools/NfsServer.cpp:345-347 | any flag but zero says that a value follows |
| Nfs.GuardNotCompared | src/tools/NfsServer.cpp:351-356 | guarded by whatever ctime or not at all, a request that names a path is carried out as asked |
| Nfs.RequestDone | src/tools/NfsServer.cpp:341-380 | a request whose handle names a path, and no other, changes that path: its mode to the low twelve bits of the mode given, its size to the size given, and neither when none is given |
| NfsReadDir.ReadDir | src/tools/NfsServer.cpp:295-313 | the loop with its running index writes exactly the page that starts at the cookie, at most 64 entries, and the right eof flag |
| NfsReadDir.PageBack | src/tools/NfsServer.cpp:296-312 | a client decodes a page to the entries and the flag that were sent |
| NfsReadDir.FollowFrom | src/tools/NfsServer.cpp:295-312 | following the returned cookies from any cookie yields the rest of the listing |
| NfsReadDir.EveryEntryOnce | src/tools/NfsServer.cpp:295-312 | from cookie 0 until eof every entry comes exactly once, in order, with its name, its inode number or else its place, and its place as cookie, in max(1, ceil(n/64)) calls |
| Text.SplitJoin | src/core/IniStore.cpp:56 | splitting a joined list of separator-free parts gives the list back |

## Left out

- zlib: the inflated bytes are the value of a function of all blocks fed to the stream so far; the library is not part of this model. Reading the digits of a version number is a function parameter too; the handshake results assume of it that it reads three decimal digits.
- Widths of the source's `int`: `width*height*bpp`, `nsub*(bpp+8)`, message lengths and run-length sums are taken to fit.
- RfbRect.DecodeRaw: with one or two bytes a pixel and pixels to read, the source reads past its pixel data; the result is not specified then.
- Hextile.Decode: the pixels painted before an incomplete Hextile payload ran out are not specified; the caller drops them.
- VncSplit.SplitSafeExactly: of the stream as a whole it assumes that no update of several rectangles has an empty Hextile rectangle; `StreamSafeExactly` speaks of every part of the stream and assumes nothing.
- VncHandshake.ConnectionRuns: the server offers None and its updates have one rectangle each; of updates of several rectangles `ManyShownExactly` speaks.
- IniFormat.DocumentedBack: no folder under the root has the root's name, since a header that starts with it is taken from the root; `RelativeHeaderExactly` is the exact condition for one header.
- Pointer and key events, the socket, connection states and the surface widget.
- TftpServer.Server.OnDatagram: one call is one pending datagram; resolving a name under the served root and reading the file are one function parameter, and names are bytes.
- TftpRun.RunSafe: the clients do not wrap block numbers, as RFC 1350 has it, and each peer asks for one fixed file.
- CommandLine.RoundTripExactly: the separate MSVCRT rule for the program name is not modelled; the program is read by the rules for arguments. ConPTY, pipes and threads are left out.
- IniStore.Deserialize: the tree is a value and the current folder the list of child positions that lead to it, where the source holds a pointer into shared folders; sharing of folders is not modelled.
- IniSession.KindBack: upper-casing covers the ASCII letters. UTF-8 conversion is left out and strings are character sequences throughout.
- File reading and writing of the store, the vault, importers, settings and the session list edit operations.
- Scrollback.History.PushLine: a cell is its code point and an opaque style; libvterm, colours and wide-glyph pairs are left out.
- RemotePath: `baseName`.
- Cron.ParseField: the value plus its step is an unbounded number here; `StaysInIntExactly` says exactly when the source's int holds it. Moments are taken to be valid dates and times.
- Nfs.HandleTable.FileHandle: the path is the cleaned path; `QDir::cleanPath` is not part of this model.
- Nfs.SetAttr: the effect on the file system is the value handed to chmod and truncate; the reply's attributes, the Windows branch and the other procedures are left out.
- NfsReadDir.ReadDir: the cookie is a parameter, the listing is fixed for the whole traversal and names are bytes; the reply's attributes, the verifier and the READDIRPLUS extras are left out.
- RPC framing, the portmapper and the mount protocol.
