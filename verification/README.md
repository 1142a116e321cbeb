# The client side of RFB, verified

This project models the client side of the RFB protocol (RFC 6143) as gtk-vnc
implements it, and proves what it promises:

* the decoders in `src/vncconnection.c` - Raw, CopyRect, RRE, Hextile, ZRLE and
  the gradient filter of Tight - as imperative loops that read a byte stream
  and draw into a framebuffer held in one array, each proved to invert a pure
  encoder: the picture that was meant is the picture shown, nothing outside
  the rectangle changes, and exactly the bytes of the rectangle are consumed;
* the framebuffer of `src/vncbaseframebuffer.c`, with its overlapping in-place
  copy, row-replicating fills, and mask-and-shift conversion of pixels;
* the streams: buffered and inflated reading, the way of client messages
  through the transmit and write buffers to the wire, the audio buffer;
* the state machines: coroutines made of threads, the wait queue,
  authentication, the table of held keys, the grab detector;
* the in-place alignment of big numbers in `src/dh.c`.

## How it is put together

`Feed.Feed` is the input as a decoder sees it: `Live(rest)`, or `Dead` once
`coroutine_stop` is set. Each decoder is a total function on it (`RunRaw`,
`RunSubrects`, `RunHextiles`, `RunTiles`, `RunRows`) that follows the C code
byte by byte, errors included; the methods are proved to compute exactly that
function on a `Reader` and a `Framebuffer`, and the round-trip lemmas are about
the function. Memory that the C code leaves uninitialised (the ZRLE palette,
the Hextile colours) is an arbitrary argument, so that the lemmas hold whatever
it contains. `Framebuffer.Img()` is the picture, a map from positions to the
bytes of a pixel; `Slack()` are the bytes that belong to no pixel.

The pieces meet in `Screen`, where a framebuffer opened on the rendering state
computed for a pair of formats shows, by either render path, the colour of each
channel that was sent, and in `Pictures`, which follows a ZRLE picture from the
values meant for its pixels to the colours on the screen.

The protocols are state machines whose every interleaving is quantified over.
In `Coroutine` each access to a shared field is a step of its own, any thread
may take the next step, and waits may end spuriously; `CoroutineTalk` says what
the program passes to whom, without threads, and that the threads carry it out.
In `Auth` every contract says which exchange is run: what is wanted of the user,
what the server is told, behind which bytes of the input the result is read, and
for what reasons alone the connection goes down.

## What the code does not do

Some properties turned out to hold only under a condition. For each there is a
lemma that says exactly when.

* The client's prediction in the gradient filter is computed in a signed
  integer as wide as the pixel. It is the defined one, for all neighbours, if
  and only if each channel leaves two bits of that width to spare
  (`Gradient.PredictionExact`), and all pictures of a format arrive as they
  were if and only if its channels do (`Gradient.RestoredIffNarrow`, with a
  picture of two by two pixels that does not); 8-bit pixels with no channel
  wider than 6 bits and all usual 16- and 32-bit formats do.
* The 3-byte CPIXEL placement loses nothing if and only if no channel uses the
  byte that the placement leaves out (`PixelFormats.CPixelsLossless`); and then
  only can every picture of the format be sent (`Pictures.SendableIffLossless`).
  The client puts the three bytes low whichever three bytes the format uses, so
  that a little-endian format in the high three bytes is read wrongly
  (`HighFormatLosesTop`). And the test made in signed 32-bit arithmetic takes a
  channel that reaches the top bit for a small one, so that a format that needs
  all four bytes is read from three (`SignTestLosesTop`). The client does not
  look at the depth either: `PixelFormats.SizeAsDefined` says exactly for which
  formats it reads as many bytes as section 7.7.5 of RFC 6143 defines, and
  `DeepLowDiffers` for which it reads three bytes of four, the depth being
  above 24.
* In a depth of 24 the gradient filter stores four bytes for each pixel, and so
  overruns its row exactly if pixels are shorter and the rectangle is not empty
  (`GradientDecoder.GradientUpdate`).
* A ZRLE rectangle of length 0 leaves the compressed buffer NULL, and its tiles
  are read straight off the socket. A rectangle is taken off the stream with
  exactly its data if and only if it has data, or no pixels
  (`ZrleEmpty.TakesItsDataIffAny`).
* Without true colour the byte order of the server is forgotten, and indices of
  two bytes are read in that of the host: the colours meant are shown, whatever
  the colour map, if and only if pixels are colours, or one byte long, or in
  the order of the host (`Screen.ShowsMeantIffInOrder`).
* The ZRLE walk counts tiles in 16 bits and leaves its range if and only if the
  extent is at most 65472 (`Tiles.CounterLeavesRange`).
* A send that would block has the preceding byte sent again, or, at the start
  of the data, drops the rest. A flush delivers its data, whatever they are, if
  and only if no send blocks or fails (`Output.FlushDeliversIffSmooth`). What
  calls of the interface queue while the transmit buffer waits to be sent is
  lost (`Output.Writer.SendQueued`).
* The table of held keys goes by the hardware keycode, the server by the keysym
  and, in the extended form, the scancode. One event leaves the two in step if
  and only if it is not one that frees a slot whose keysym (and scancode)
  another slot holds as well, unless it presses the same key again, nor, with
  some exceptions that the condition names, one of keycode 0 that finds a free
  slot (`KeyServers.EventInStep`, over whole runs `KeyServers.RunInStep`);
  `TwoKeysOneSym` is a run of three events that puts them out of step. With keycodes other than 0 the server never takes a key
  for held that no slot holds, and none after a loss of focus
  (`KeyServers.NoKeyStuck`); one of keycode 0 stays down (`StuckKey`).
* Initialization succeeds without the server's acceptance in four cases, and in
  no other (`Auth.Handshake.Initialize`, `Auth.Handshake.Coroutine`):
  - a server that offers no security types refuses with a reason length and the
    text. The client reads the length as a security result, so that an empty
    reason is a success, and the text as a length. For every refusal
    `Auth.RefusalOutcome` says exactly when the connection survives it; in
    protocol 3.8 it survives every text of four characters or more
    (`Auth.TextSurvives`);
  - a failure reason longer than 1023 bytes ends the check of the result without
    an error, and failing without an error counts as success
    (`Auth.AuthResultMeans`);
  - a credential that is cleared between the check that ends the wait for it
    and the resumption is found missing, which sets no error either. That
    happens exactly if the coroutine waited and the main loop then cleared one
    that was wanted and did not set it again (`Auth.Handshake.GatherCredentials`);
  - a type without authentication, chosen though the server did not offer it,
    needs no result before protocol 3.8.
* Credentials are tested before the reads that come between the test and their
  use, if they are tested at all, and the main loop runs during these reads. A
  NULL pointer is followed exactly if a credential that was wanted has been
  cleared, and not set again, by the end of the last of them: one read of the
  challenge (`Auth.Handshake.AuthVnc`), three numbers
  (`Auth.Handshake.AuthMsLogon`), four (`Auth.Handshake.AuthArd`), or none, the
  end of the wait alone counting (`Auth.Handshake.SaslCredentials`). Where the
  credentials are copied without a read in between, it never is
  (`Auth.Handshake.AuthPlain`).
* Unlike the older exchange, that of Apple Remote Desktop does not look whether
  the modulus is zero; with the connection up it divides by zero exactly if it
  is (`Auth.Handshake.AuthArd`).
* An error that a call of the application sets (a type, subtype or credential
  that is not accepted, `Auth.Misuse`) is signalled by a yield of the main
  coroutine, which resumes the VNC coroutine wherever it waits. Over every run
  each suspension is resumed by its own event, and the program goes on, if and
  only if there is no such call (`WaitQueues.OwnEventsIffNoMainError`), and then
  each exactly once (`WaitQueues.ResumedOnce`); `WaitQueues.SetErrorSpoils` says
  what becomes of the program in each state, and `WaitQueues.HandlerMisuse`
  follows a handler that chooses an unsupported type.
* Each interruption of the wait for the server's version sends the start of the
  client's own greeting; the greeting sent is well-formed if and only if that
  happens at most once (`Auth.GreetingWhole`), and reading the version fails
  also if one of these sends does (`Input.Reader.ReadGreeting`).
* The audio timer may fire while a payload is being read: the sample is played
  without it and freed, and the code then follows a NULL pointer. A connection
  that fails meanwhile leaves bytes in the sample that never arrived. Both are
  in the contract of `Audio.AudioStream.OnData`; while payloads arrive whole,
  every byte is played once (`Audio.AudioStream.Conserved`).
* The result of a coroutine's entry function is not delivered: the resume that
  it ends returns what the last yield had carried (`Coroutine.ResultNotDelivered`).
  Resuming an ended coroutine aborts; so does a yield of the main coroutine
  while none has yielded to it since its last one, and if the one that has is
  at its end, the program hangs. Nothing else does either
  (`Coroutine.AbortsIffEnded`).
* A message whose announced count does not fit its field is misread, and no
  other (`ClientMessages.MessageInverts`).
* A fill of height 0 paints its first row, so that `Rows(h)`, not `h`, rows
  have to lie inside the framebuffer (`Framebuffers.Framebuffer.Fill`). An RRE
  rectangle or subrectangle of no rows right below the last row passes its check
  and is painted past the buffer, and no other is
  (`PaintDecoder.RreUpdate`, `PaintDecoder.Subrects`).

Where the code departs from the protocol in a way that these lemmas do not
mention, the models follow the code: the VeNCrypt version check, for instance,
accepts major 0 or minor 2 where the protocol asks for both.

## Model

| member | source | states |
|---|---|---|
| Input.Reader.ReadWire | src/vncconnection.c:760-822 | what comes off the socket is the next bytes of the wire, at least one; only an interruptible wait comes back empty-handed, having lost nothing |
| Input.Reader.ZRead | src/vncconnection.c:709-751 | succeeds exactly if zlib still yields that many bytes, and then returns the next ones of the inflated stream |
| Input.Reader.ReadBuf | src/vncconnection.c:885-906 | a refill puts bytes into the read buffer without losing or reordering any |
| Input.Reader.Read | src/vncconnection.c:913-957 | the data are the next slice of the stream in use; only an interruptible read is short, and then no byte is lost; one that fails has returned all that was left; the other stream is untouched |
| Input.Reader.ReadInterruptable | src/vncconnection.c:1187-1197 | a read cut short returns what had arrived, and the rest of the stream is intact |
| Input.Reader.ReadGreeting | src/vncconnection.c:5699-5747 | the greeting is the first 12 bytes however the reads are interrupted; it fails exactly if there are fewer or one of the client's early sends fails |
| Input.Reader.StartInflating | src/vncconnection.c:2559-2564 | reads are directed at the inflated data and the socket's stream is kept |
| Input.Reader.StopInflating | src/vncconnection.c:2576-2580 | reads return to the socket's stream exactly where it was left |
| Input.WireOfSplit | src/vncconnection.c:760-822 | however the socket splits and delays the data, the stream is their concatenation |
| Input.ReadsAreSlices | src/vncconnection.c:913-957 | reads of any lengths return consecutive slices of the stream, and fail exactly if it is too short |
| Framebuffers.Framebuffer.MoveRow | src/vncbaseframebuffer.c:947-951 | one memmove of pixels, overlap allowed, is a simultaneous copy of them |
| Framebuffers.Framebuffer.CopyRect | src/vncbaseframebuffer.c:926-952 | every destination pixel gets the old source pixel, for every overlap, and no other byte changes |
| Framebuffers.Framebuffer.SetPixelAt | src/vncbaseframebufferblt.h:79-86 | one pixel becomes the converted one, everything else is unchanged |
| Framebuffers.Framebuffer.FillRows | src/vncbaseframebufferblt.h:91-140 | painting one row and replicating it fills exactly the rectangle |
| Framebuffers.Framebuffer.Fill | src/vncbaseframebuffer.c:912-923 | both fill paths fill exactly the rectangle of max(1, height) rows with the rendered colour |
| Framebuffers.Framebuffer.BltRow | src/vncbaseframebuffer.c:774-786 | a row of wire bytes becomes a row of rendered pixels, by copy on a perfect match and pixel by pixel otherwise |
| Framebuffers.Framebuffer.Blt | src/vncbaseframebufferblt.h:142-163 | each row of the source, `stride` bytes apart, becomes one row of rendered pixels |
| Layouts.Layout.RowWritten | src/vncbaseframebuffer.c:774-786 | bytes written along a row change the pixels of that stretch and no others |
| Rendering.AdjustShift | src/vncbaseframebuffer.c:845-859 | the halving loops add exactly the difference of the bit widths to a shift |
| Rendering.Renderer.Reinit | src/vncbaseframebuffer.c:789-896 | the cached masks and shifts are those of the two formats, and the match flag is set exactly for equal formats in host order |
| Rendering.SetPixelConverts | src/vncbaseframebufferblt.h:69-76 | each local channel gets the top bits of the remote one, or it with zeros below, and no channel disturbs another |
| Rendering.PerfectMatchKeepsColours | src/vncbaseframebuffer.c:808-820 | on a perfect match the general path leaves every colour bit as it is |
| Rendering.ColourMapConverts | src/vncbaseframebufferblt.h:52-67 | in colour-map mode each channel gets the top bits of its 16-bit entry |
| Screen.Open | src/vncbaseframebuffer.c:789-896 | a framebuffer on the rendering state computed for two formats shows the colours of every pixel, by either path, if indices come in the order they are read in |
| Screen.StoredReadsBack | src/vncbaseframebufferblt.h:69-86 | the bytes stored hold the converted value in full, in the local byte order |
| Screen.EitherPathShowsColours | src/vncbaseframebuffer.c:873-893 | by the fast or the general path, every channel of a stored pixel shows the colour sent or the entry of the colour map meant |
| Screen.ShowsMeantIffInOrder | src/vncbaseframebuffer.c:799-807 | every colour meant is shown, whatever the colour map, if and only if pixels are colours, or of one byte, or in the host's order |
| PixelFormats.Format.ValueInverts | src/vncconnection.c:2050-2079 | a value laid out in the server's byte order is read back |
| PixelFormats.CPixelsLossless | src/vncconnection.c:2341-2372 | every value of a format survives as a CPIXEL if and only if no channel uses the byte left out |
| PixelFormats.LowFormatsLossless | src/vncconnection.c:2353-2368 | formats in the low three bytes, little-endian or of depth 24, are read back whole |
| PixelFormats.HighFormatLosesTop | src/vncconnection.c:2350-2368 | a little-endian format in the high three bytes loses its top channel |
| PixelFormats.SignTestLosesTop | src/vncconnection.c:2353-2368 | a channel that reaches the top bit passes the signed test and is lost, in every format of this kind that is placed low |
| PixelFormats.SizeAsDefined | src/vncconnection.c:2341-2372 | a CPIXEL is read in as many bytes as the protocol defines if and only if, for pixels of four bytes in true colour, the depth is at most 24 and neither the signed test nor a channel without bits misleads the client, or the depth is more and the client finds no three bytes |
| PixelFormats.DeepLowDiffers | src/vncconnection.c:2353-2368 | a format in the low three bytes whose depth is above 24 is read in three bytes where four are defined |
| ZrleCodec.ReadPackedInverts | src/vncconnection.c:2395-2443 | indices packed most significant bits first, padded at the end of a row, are read back with exactly their bytes |
| ZrleCodec.IndexBitsLeast | src/vncconnection.c:2404-2413 | indices are read in the least width of 1, 2 and 4 bits that tells the colours of the palette apart, and in no other |
| ZrleCodec.PackedRowLength | src/vncconnection.c:2418-2443 | a packed row takes (w+7)/8, (w+3)/4 or (w+1)/2 bytes for palettes of 2, of 3 to 4 and of 5 to 16 colours |
| ZrleCodec.ReadRunInverts | src/vncconnection.c:2445-2456 | every run length, chained by 255s, is read back with exactly its bytes |
| ZrleCodec.ReadRunsInverts | src/vncconnection.c:2458-2477 | runs of pixels, crossing rows as they like, expand to the pixels they stand for |
| ZrleCodec.ReadPRunsInverts | src/vncconnection.c:2479-2508 | runs of palette indices, those of one pixel with or without a length, expand to the colours they stand for |
| ZrleTiles.TileInverts | src/vncconnection.c:2510-2542 | decoding any legal encoding of a tile yields its pixels and consumes exactly its bytes, whatever the palette array held |
| ZrleDecoder.ReadRunLength | src/vncconnection.c:2445-2456 | the loop terminates on every input and returns the run length the bytes encode |
| ZrleDecoder.ReadIndex | src/vncconnection.c:2395-2416 | one index is taken from the reservoir, which is refilled exactly when it is empty |
| ZrleDecoder.PaletteTile | src/vncconnection.c:2418-2443 | the loops draw exactly the tile its packed indices stand for |
| ZrleDecoder.RunsTile | src/vncconnection.c:2458-2477 | the loops, carrying a run across rows, draw exactly the tile its runs stand for |
| ZrleDecoder.PRunsTile | src/vncconnection.c:2479-2508 | the loops, carrying an index and its run across rows, draw exactly the tile its palette runs stand for |
| ZrleDecoder.RawTile | src/vncconnection.c:2374-2393 | the loop and the blit draw exactly the pixels read |
| ZrleDecoder.DecodeTile | src/vncconnection.c:2510-2542 | every subencoding byte draws what the tile reader says and consumes what it says |
| ZrleRect.DecodeTiles | src/vncconnection.c:2566-2574 | with 16-bit counters the loops visit the tiles of the walk in order and terminate |
| ZrleRect.ZrleUpdate | src/vncconnection.c:2544-2583 | a rectangle with data takes exactly those off the socket's stream and draws the inflated tiles; one without has its tiles read off the socket |
| ZrleRect.TilesShowPicture | src/vncconnection.c:2566-2574 | tiles in any mix of legal encodings show the picture on the pixels they cover and change no others |
| ZrleRect.RectShowsPicture | src/vncconnection.c:2544-2583 | ZRLE round trip: a rectangle with data shows the picture, the rest is unchanged, the stream is left right behind it |
| ZrleEmpty.TakesItsDataIffAny | src/vncconnection.c:2553-2564 | a rectangle that decodes is taken off the stream with exactly its data if and only if it has data or no pixels |
| Pictures.SendableIffLossless | src/vncconnection.c:2341-2372 | with CPIXELs of the length the client reads, every picture of a format's values has legal encodings if and only if these CPIXELs lose nothing |
| Pictures.ZrleShowsColours | src/vncconnection.c:2544-2583 | from the values meant to the colours shown: each pixel of a decoded rectangle shows the colours of its value, in whatever encodings it was sent |
| Tiles.WalkPartitions | src/vncconnection.c:2289-2303 | every pixel of the rectangle lies in exactly one tile, no other pixel in any |
| Tiles.WalkInside | src/vncconnection.c:2566-2574 | every tile is nonempty, no larger than the tile size, and inside the rectangle |
| Tiles.CounterLeavesRange | src/vncconnection.c:2551-2574 | the 16-bit counter passes an extent if and only if it is at most 65472 |
| Gradient.PredictionExact | src/vncconnectionblt.h:104-121 | the clamped prediction in a signed integer is the defined one for all neighbours exactly if two bits are to spare |
| Gradient.PixelInverts | src/vncconnectionblt.h:104-143 | a pixel is restored from its difference if and only if the predictions agree in every channel |
| Gradient.NarrowInverts | src/vncconnectionblt.h:104-143 | with two bits to spare every pixel is restored, whatever its neighbours |
| Gradient.WideLoses | src/vncconnectionblt.h:104-143 | without them no pixel is restored between white neighbours and a black one |
| Gradient.ReadTPixelInverts | src/vncconnection.c:2613-2633 | a TPIXEL is read back with exactly its bytes |
| Gradient.DecodeRowInverts | src/vncconnection.c:2727-2745 | a row whose pixels each come back, as in a narrow format all do, is restored with exactly its bytes |
| Gradient.RestoredIffNarrow | src/vncconnection.c:2701-2758 | all pictures of a format are restored from their differences if and only if its channels leave two bits to spare |
| GradientDecoder.GradientRow | src/vncconnection.c:2727-2745 | the inner loop computes the row from the stream and the row above, whatever the buffer held |
| GradientDecoder.GradientUpdate | src/vncconnection.c:2701-2758 | the row is overrun exactly if the depth is 24 and pixels have fewer than four bytes, the rectangle not being empty; else the outer loop, swapping two buffers, draws all rows, the first against zeros |
| GradientDecoder.RunRowsDecodes | src/vncconnection.c:2701-2758 | what is drawn, and what is consumed, is the rows decoded |
| GradientDecoder.GradientInverts | src/vncconnection.c:2701-2758 | gradient round trip: every image of any size is restored from its differences, with exactly its bytes |
| Painter.PaintShowsTop | src/vncconnection.c:2317-2336 | painting in order leaves on each pixel the last subrectangle that covers it, else the background |
| Painter.RawInverts | src/vncconnection.c:2173-2207 | raw rows are shown in place with exactly their bytes |
| Painter.RreShowsTop | src/vncconnection.c:2306-2337 | RRE round trip: inside the rectangle the topmost colour, outside no change, exactly its bytes consumed |
| Hextile.MaskRead | src/vncconnection.c:2239-2260 | the bits of the mask, from the lowest: raw, background, foreground, subrectangles, coloured |
| Hextile.EveryMask | src/vncconnection.c:2229-2277 | every byte is a mask of these bits |
| Hextile.TileInverts | src/vncconnection.c:2229-2277 | for every mask byte, decoding a legal tile shows what it means and keeps the colours it leaves known |
| Hextile.TilesShowPicture | src/vncconnection.c:2280-2304 | tiles that rely on the background and foreground of earlier ones show the picture |
| Hextile.RectShowsPicture | src/vncconnection.c:2280-2304 | Hextile round trip, whatever the two colours held at the start: the picture inside, no change outside, exactly its bytes |
| PaintDecoder.ValidateBoundary | src/vncconnection.c:2155-2170 | the connection goes down exactly if the area leaves the framebuffer |
| PaintDecoder.RawUpdate | src/vncconnection.c:2173-2207 | both paths draw the rows read from the stream; of a row that fails the fast path shows what had arrived, the last pixel perhaps in part |
| PaintDecoder.CopyRectUpdate | src/vncconnection.c:2209-2227 | the area at the position read is copied as it was before, or, if it does not fit, nothing is |
| PaintDecoder.Subrects | src/vncconnection.c:2321-2336 | the loop paints the subrectangles read until one fails its check; it paints past the buffer exactly at one of no rows right below the last row |
| PaintDecoder.RreUpdate | src/vncconnection.c:2306-2337 | background, then the subrectangles of the stream; past the buffer exactly if one of them is of no rows right below the last row |
| PaintDecoder.TinySubs | src/vncconnection.c:2257-2274 | the loop paints the packed subrectangles and leaves the foreground at the last colour read |
| PaintDecoder.HextileRect | src/vncconnection.c:2229-2277 | a tile is drawn and the two colours carried on as its mask says |
| PaintDecoder.HextileUpdate | src/vncconnection.c:2280-2304 | the loops draw the tiles of the walk in order |
| Coroutine.StepKeepsInv | src/coroutine_gthread.c:59-156 | every step of every thread keeps the invariant: whose turn it is, who holds the lock, who is runnable, who has a caller |
| Coroutine.OneBodyAtATime | src/coroutine_gthread.c:108-128 | for every schedule the program's code runs in one thread at a time, which holds the lock, is runnable and is `current` |
| Coroutine.NoEarlyTest | src/coroutine_gthread.c:59-101 | for every schedule a new thread tests `runnable` only after coroutine_init has cleared it |
| Coroutine.NeverStuck | src/coroutine_gthread.c:108-128 | for every schedule no wake-up is lost, short of the main coroutine yielding to an ended one: the thread whose turn it is can take the free lock |
| CoroutineTalk.ArgumentsDelivered | src/coroutine_gthread.c:108-156 | for every schedule what comes out is what the choices of the program have passed, value for value and receiver for receiver, in order, none lost or doubled, at most one under way |
| CoroutineTalk.RunsAsSaid | src/coroutine_gthread.c:108-156 | for every schedule the code that runs is that of the coroutine whose turn it is by these choices alone, and what it may choose, and whether that goes through, is as without threads |
| CoroutineTalk.ResultsHeld | src/coroutine_gthread.c:70-72 | for every schedule, while the program's code runs each coroutine that has ended holds what its entry function returned |
| Coroutine.Advances | src/coroutine_gthread.c:59-128 | for every schedule the thread that holds the lock comes nearer to the program's code or to letting it go; a wait ends by itself only spuriously |
| Coroutine.AbortsIffEnded | src/coroutine_gthread.c:108-156 | resuming aborts if and only if the coroutine has ended; yielding if and only if the main coroutine does so though none has yielded to it since its last yield; the program hangs if and only if the one that has is at its end |
| Coroutine.ResultNotDelivered | src/coroutine_gthread.c:70-78 | the resume that a coroutine ends returns the last yielded argument, or NULL |
| WaitQueues.OwnEventsIffNoMainError | src/vncconnection.c:298-364 | over every run each suspension is resumed by its own event and the program goes on, if and only if no error is set from the main coroutine |
| WaitQueues.ResumedOnce | src/vncconnection.c:298-364 | in every run without such an error each suspension but the open one has been resumed exactly once |
| WaitQueues.ValuesTellCauses | src/vncconnection.c:298-364 | in every such run the wait for the socket is told that it is ready, the interruptible one gets NULL if and only if it was woken up, the others get NULL |
| WaitQueues.SetErrorSpoils | src/vncconnection.c:653-691 | in every state such an error aborts, hangs, follows a NULL, or resumes a suspension by an event not its own; which of them, the state says |
| WaitQueues.HandlerMisuse | src/vncconnection.c:6204-6221 | a handler that chooses an unsupported type has the coroutine leave its emission early, and the callback then uses a stack frame that has returned |
| WaitQueues.WaitQueue.Begin | src/vncconnection.c:6033-6052 | the first resume runs the coroutine to its first suspension |
| WaitQueues.WaitQueue.Suspend | src/vncconnection.c:340-355 | a source of its own is armed for the suspension, and `waiting` is set for the interruptible one |
| WaitQueues.WaitQueue.Switch | src/vncconnection.c:307-364 | resumption clears `waiting`, a wake-up removes the source still armed, and g_io_wait follows a NULL |
| WaitQueues.WaitQueue.Fire | src/vncconnection.c:298-305 | without an error from the main coroutine an armed source is that of the present suspension, resumes it with a condition or NULL as its kind of wait has it, and is disarmed |
| WaitQueues.WaitQueue.Emit | src/vncconnection.c:509-651 | the callback of an emission finds its data while the coroutine is still in that emission, and only then |
| WaitQueues.WaitQueue.Emitted | src/vncconnection.c:645-651 | the callback's end resumes the coroutine that emits, or, where that has gone on, a stack frame that has returned |
| WaitQueues.WaitQueue.WakeUp | src/vncconnection.c:321-325 | a wake-up reaches the coroutine only in the interruptible wait |
| WaitQueues.WaitQueue.SetError | src/vncconnection.c:653-691 | the main coroutine's yield aborts, hangs or resumes the coroutine at its open suspension |
| ClientMessages.MessageInverts | src/vncconnection.c:1840-2047 | a server reads a message back if and only if its counts fit their fields |
| ClientMessages.ReadTyped | src/vncconnection.c:1840-2047 | of all that a server can read off the wire only a scancode of more than 16 bits cannot have been sent |
| ClientMessages.StreamInverts | src/vncconnection.c:1840-2047 | a server reads a series of messages back one after the other |
| Output.SmoothDelivers | src/vncconnection.c:963-1015 | with sends that neither block nor fail the rest of the data is sent, in any portions |
| Output.FlushDeliversIffSmooth | src/vncconnection.c:963-1015 | all data of a length are delivered if and only if no send blocks or fails |
| Output.UnwaitedKeepsOrder | src/vncconnection.c:963-1015 | unless a send has to wait, what goes out is a beginning of the data, and all of it unless a send fails |
| Output.Writer.FlushWire | src/vncconnection.c:963-1015 | the loop sends exactly what the sends let it, with the wrap of the unsigned offset |
| Output.Writer.Flush | src/vncconnection.c:1061-1072 | the buffered bytes follow those on the wire, unless a send has had to wait, and the buffer is empty |
| Output.Writer.Write | src/vncconnection.c:1078-1099 | bytes of any number pass through the 4096-byte buffer in order, unless a send has had to wait, flushing as needed |
| Output.Writer.BufferedWrite | src/vncconnection.c:1574-1591 | the bytes are appended to the transmit buffer, which grows so that its size never exceeds its capacity |
| Output.Writer.KeyEvent | src/vncconnection.c:1977-1999 | one key message is queued, in the extended form exactly if the server knows it |
| Output.Writer.PointerEvent | src/vncconnection.c:2013-2022 | one pointer message is queued |
| Output.Writer.ClientCutText | src/vncconnection.c:2036-2047 | one cut-text message is queued |
| Output.Writer.FramebufferUpdateRequest | src/vncconnection.c:1902-1932 | one update request is queued and remembered, made incremental once after a resize |
| Output.OfferedMeans | src/vncconnection.c:1840-1883 | all encodings are offered, in order, but for ZRLE, number 16, exactly where the depth is 32 and a channel has more than 8 bits |
| Output.Writer.SetEncodingsTo | src/vncconnection.c:1840-1883 | one message is queued that announces and lists the encodings offered |
| Output.Writer.CountSkipped | src/vncconnection.c:1858-1869 | the count announced is that of the entries written |
| Output.Writer.SendQueued | src/vncconnection.c:3571-3577 | all queued messages go out whole and in order, each once; what is queued while a send waits is lost |
| Output.Writer.ResendUpdateRequest | src/vncconnection.c:1940-1960 | the last request goes out again between whole messages, unless a send has had to wait |
| Output.Writer.WireIsMessages | src/vncconnection.c:1061-1099 | unless a send has waited or failed, a server reads off the wire exactly the messages passed on, in order; those of API calls are all there, each once and in their order, but for the ones still queued |
| Keys.EventTracks | src/vncdisplay.c:1098-1151 | an event keeps the slots those of the hardware keys whose press has been sent and whose release has not, if and only if it is not one of keycode 0 that finds a free slot |
| Keys.RunTracks | src/vncdisplay.c:1098-1151 | over every series of events presses and releases alternate per hardware key, releases carry the keyval of the press, and at most 16 keys are held |
| KeyServers.EventInStep | src/vncdisplay.c:1098-1151 | an event leaves the slots and what the server believes, told by keysym or by keysym and scancode, in step if and only if it is not a misleading one, which the slots tell |
| KeyServers.RunInStep | src/vncdisplay.c:1098-1220 | they are in step throughout a series of events if and only if none of them misleads |
| KeyServers.NoKeyStuck | src/vncdisplay.c:1098-1220 | over every series of events with keycodes the server takes no key for held that no slot holds, and none after a loss of focus |
| KeyServers.TwoKeysOneSym | src/vncdisplay.c:1098-1151 | with two keys of one keysym down, the release of the first has a server that knows keysyms alone take both for released |
| KeyServers.StuckKey | src/vncdisplay.c:1126-1220 | a key pressed with keycode 0 stays down at the server over a loss of focus |
| Keys.KeyTracker.KeyEvent | src/vncdisplay.c:1043-1151 | the scanning loops change the slots and send the events that the model says |
| Keys.KeyTracker.ReleaseKeys | src/vncdisplay.c:1202-1220 | every held key is released once, in the order of the slots |
| Grab.LongestRunDecides | src/vncdisplay.c:994-1040 | some uninterrupted run of presses covers the sequence if and only if the longest one does |
| Grab.RunStartIsLeast | src/vncdisplay.c:1012-1036 | where the longest run starts |
| Grab.Detector.KeyPressed | src/vncdisplay.c:1009-1039 | the flags record exactly the keys pressed in the current run |
| Grab.Detector.KeyReleased | src/vncdisplay.c:1002-1008 | a release triggers if and only if the run before it covers the sequence |
| Grab.Detector.SetGrabKeys | src/vncdisplay.c:3039-3050 | a new sequence starts with nothing pressed |
| Auth.AuthResultMeans | src/vncconnection.c:3867-3900 | success with the connection up means the server granted it; failure leaves it up if and only if the reason is over-long |
| Auth.RefusalOutcome | src/vncconnection.c:5105-5110 | a refusal without security types is taken for success exactly if its reason is empty, and leaves the connection up exactly then or if, in protocol 3.8, what follows the length reads as an over-long length |
| Auth.TextSurvives | src/vncconnection.c:3878-3891 | every reason of four characters or more leaves the connection up in protocol 3.8 |
| Auth.GreetingWhole | src/vncconnection.c:5731-5747 | the client's greeting is well-formed exactly if its start was sent early at most once |
| Auth.Handshake.Apply | src/vncconnection.c:6195-6251 | a call of the application sets or clears what it names; it sets an error in the main coroutine, which is taken for a crash, exactly if it is a misuse; a type once chosen stays |
| Auth.Handshake.GatherCredentials | src/vncconnection.c:3811-3864 | succeeds exactly while the connection is up, and then a credential is missing exactly if it waited and one was cleared before it resumed |
| Auth.Handshake.CheckAuthResult | src/vncconnection.c:3867-3900 | what it returns and leaves of the input is what the result on the stream says, or the connection went down in the wait for it |
| Auth.Handshake.AuthVnc | src/vncconnection.c:3955-3986 | wants the password alone and asks for the result behind the 16 bytes of the challenge; with the connection up and no crash it fails exactly on the over-long refusal or a password found missing, and succeeds only with the server's grant; the password is found missing exactly if it was cleared before the wait for it had ended, and its NULL is followed exactly if it was cleared by the end of the read of the challenge |
| Auth.Handshake.AuthPlain | src/vncconnection.c:3988-4009 | wants both credentials and asks for the result at once; with the connection up and no crash it fails exactly on the over-long refusal or a credential found missing, and succeeds only with the server's grant; one is found missing exactly if it was cleared before the wait for it had ended, and no NULL is followed |
| Auth.Handshake.AuthMsLogon | src/vncconnection.c:4063-4150 | wants both credentials and asks for the result behind 24 bytes; with the connection up and no crash it fails exactly on the over-long refusal, and succeeds only with the server's grant; a NULL is followed exactly if a credential was cleared by the end of the three reads, and no modulus of zero is used |
| Auth.Handshake.AuthArd | src/vncconnection.c:4152-4269 | wants both credentials and asks for the result behind four bytes and two numbers of the length in the last two of them; with the connection up and no crash it fails exactly on the over-long refusal, and succeeds only with the server's grant; a NULL is followed exactly if a credential was cleared by the end of the four reads, and with the connection up a division by zero is made exactly if the modulus on the stream is zero |
| Auth.Handshake.SaslCredentials | src/vncconnection.c:4297-4356 | a NULL is followed exactly if it waited and a credential asked for was cleared before it resumed |
| Auth.Handshake.AuthSasl | src/vncconnection.c:4397-4745 | asks for the result behind the list of mechanisms and the replies, of which the last is complete; with the connection up and no crash it fails exactly on the over-long refusal, and succeeds only with the server's grant |
| Auth.Handshake.StartTls | src/vncconnection.c:4749-4832 | every failure takes the connection down, before any result has been asked for |
| Auth.Handshake.AuthTls | src/vncconnection.c:4878-4946 | reads the list of subtypes and runs the exchange of the one chosen, by the numbers 1, 2 and 20; with the connection up and no crash it fails exactly on the over-long refusal or a credential found missing, and succeeds only with the server's grant, a silent refusal of subtypes, or a subtype that needs no grant before protocol 3.8 |
| Auth.Handshake.AuthVencrypt | src/vncconnection.c:4948-5076 | reads version and list of subtypes and runs the exchange of the one chosen, by the numbers 256 to 264; with the connection up and no crash it fails exactly on the over-long refusal or a credential found missing, and succeeds only with the server's grant |
| Auth.Handshake.PerformAuth | src/vncconnection.c:5090-5186 | reads the list of types and runs the exchange of the one chosen, by its number; the connection goes down only if the server refuses, for what the exchange objects to, or by the user, a library or the end of the input; whichever type is chosen, unless the program has crashed, success is the server's but for the silent refusal and a type without authentication that was not offered, and failure with the connection up is the over-long refusal or a credential found missing |
| Auth.Handshake.ChooseVersion | src/vncconnection.c:5757-5775 | the version agreed on is the greatest of 3.3, 3.7 and 3.8 that is not above the server's, and there is none exactly if that is below 3.3 or cannot be read |
| Auth.Handshake.PerformChosen | src/vncconnection.c:5145-5183 | for each type by its number: what is wanted, what the server is told, behind which bytes of the input the result is asked for, and what alone takes the connection down |
| Auth.RunsUnlessObjecting | src/vncconnection.c:4749-5076 | no exchange runs that is objected to, so that what is objected to is no wider than what takes the connection down |
| Auth.Handshake.ReadServerInit | src/vncconnection.c:5795-5821 | takes 24 bytes and the name, and goes down only by a name of more than 4096 bytes, the user, a library or the end of the input |
| Auth.Handshake.Initialize | src/vncconnection.c:5687-5838 | unless the program has crashed, TRUE exactly if the connection is up, and then the server accepted or one of the four cases above holds; then the version is agreed on, and the exchange run is that of the type chosen; the connection goes down only for the reasons above |
| Auth.Handshake.Coroutine | src/vncconnection.c:5991-6031 | "initialized" is emitted only after acceptance or in one of the four cases above, and "disconnected" last unless the program has crashed |
| Audio.AudioStream.OnData | src/vncconnection.c:3724-3758 | a payload that arrives whole joins the pending sample, which is delivered first if it has no room; one that fails leaves its part, and the timer firing meanwhile takes the sample away |
| Audio.AudioStream.OnStart | src/vncconnection.c:3759-3764 | a start is passed on at once, and without a sink ends the connection |
| Audio.AudioStream.OnStop | src/vncconnection.c:3765-3777 | everything pending is delivered before the stop |
| Audio.AudioStream.TimerFires | src/vncconnection.c:3480-3497 | an armed timer finds a sample and delivers it |
| Audio.AudioStream.Conserved | src/vncconnection.c:3718-3782 | while payloads arrive whole, every stretch up to a stop was delivered in full before it, and of the last one all but the pending bytes |
| Audio.SessionsJoin | src/vncconnection.c:3718-3782 | the stretches together are all the payloads, in order |
| Mpi.RightAligned | src/dh.c:114-135 | right-aligned digits are the only bytes of their size that denote the number |
| Mpi.ToBytes | src/dh.c:114-135 | the overlapping move and the zero fill leave the number right-aligned, so that it is read back |

## Left out

- TLS and SASL as transports: the bytes a reader delivers are those that gnutls or SASL would hand over; in authentication every call into gnutls, libgcrypt and SASL, and every flush, succeeds or fails as an arbitrary script says.
- zlib: `inflate` is an arbitrary function from the data of a rectangle to portions of output of at most the buffer's size; that a connection has five streams whose dictionaries persist is not modelled.
- Main-loop internals of GLib, GTK drawing, cursors, scaling, JPEG, the audio sink: foreign code or user interface.
- The rest of Tight (basic copy, palette, fill and JPEG compression control), TRLE, rich and alpha cursors: they reuse the same loops or are simple bitmap loops.
- The dispatch over rectangles in `vnc_connection_framebuffer_update` and the other server messages: a rectangle that starts inside the framebuffer is the precondition that the dispatch checks.
- Input.Reader.Read: values read on a connection that has failed are zeros, where the C code leaves partly read or uninitialised memory; nothing but the picture of the failed rectangle, and a sample of audio, depends on them.
- Input.Reader.Read: a shutdown from another coroutine while a read waits shows as the end of the stream.
- PaintDecoder.RreUpdate: once a row has been painted past the buffer, nothing is said about the picture.
- PaintDecoder.HextileUpdate: subrectangles are checked against the framebuffer and not the tile, as in the code; that a sender keeps them inside the tile is a condition of the round trip only.
- ZrleDecoder.ReadRunLength: the length is unbounded, where the C `int` would overflow after some eight million bytes of 255.
- The ZRLE bit reservoir (`zrle_pi`, `zrle_pi_bits`) is local to a row here; the code resets it at the start of every row.
- GradientDecoder.GradientUpdate: once the row has been overrun nothing is said about the picture.
- Gradient.ReadTPixelInverts: of depth-24 formats only those with four bytes and three 8-bit channels, for which the TPIXEL is defined.
- Rendering.Renderer.Reinit: channel maxima are of the form 2^k - 1, at most 16 bits wide, and lie within the pixel. Shifts by 32, undefined in C, arise for a local channel of no bits, whose mask is 0: the model shifts to 0. Local pixels of 64 bits are not modelled.
- Screen.Open: without true colour, pixels of four bytes, for which the code picks the functions for two.
- Coroutine: main resumes workers, one level deep, and a live coroutine is not initialised again; a worker that resumes another, for which the code would overwrite `caller`, is not modelled. `coroutine_ucontext.c` is not part of this model.
- WaitQueues.WaitQueue.SetError: one connection; with several, the coroutine that an error resumes may be another's. Handlers run no main loop of their own.
- WaitQueues.WaitQueue.WakeUp: the greeting and connect timers are calls of it; that a timer may outlive the greeting is covered, the two-second delay is not.
- Output.Writer.SendQueued: of the calls made while a send waits only the messages are followed, not what they change besides; once a send has waited nothing more is promised of the wire.
- Output.Writer.BufferedWrite: sizes are unbounded, where the C code keeps them in `int`.
- SetPixelFormat, XVP, SetDesktopSize and the audio control messages: written by the same buffered writes.
- Auth.Handshake.GatherCredentials: certificates are set and not cleared.
- Auth.Handshake.Initialize: once the program has crashed, by a NULL, a division by zero or a misuse of the interface, nothing is said about what follows; `WaitQueues` says what a misuse does to the coroutine.
- Auth.Handshake.Respond: of what is encrypted only what it answers is known (the challenge, the numbers); ciphers and the credentials' bytes are not modelled, nor which error message is signalled.
- Auth.Handshake.AuthPlain: credentials so long that writing them flushes the 4096-byte buffer on the way, during which they could be cleared.
- Auth.Handshake.PerformAuth: the checks on the number of offered types compare it with the size of the array in bytes, 40 and 80 (src/vncconnection.c:5112, 4900), where the arrays hold 10 and 20; lists in between, which overrun the array, are taken as if it had room. Parsing of the version string is an arbitrary function.
- KeyServers.RunInStep: the server does not change to the extended form while keys are held.
- Keys.KeyTracker.KeyEvent: the keycode map is an arbitrary function; the branches for Windows are not modelled.
- Audio.AudioStream.OnData: the sink does not change.
- Mpi.ToBytes: a number too large for the array makes the code abort, and is excluded.
