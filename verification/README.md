# Decoders, caches, queues and codecs of an RDP client, modelled in Dafny

rdesktop is a client for the Remote Desktop Protocol. This project models the parts of it that
decide what the user sees and what the server is told, without its network and its windows, and
proves what those parts are for. `dafny verify dfyconfig.toml` checks everything.

The files go together in groups; each group has a specification on values, the program's own loops
and in-place updates as methods proved against it, and the properties as lemmas. The files named
`Meaning` say what the specification amounts to, with its numbers and bits written out: what comes of
an operation in terms of what was there before it.

- **MPPC** (`Bits`, `Register`, `MppcCode`, `Mppc`, `MppcProofs`, `MppcMeaning`): the 32-bit shift
  register of `mppc_expand`, its two prefix codes and its history. The register's top bits are the
  next bits of the stream; the decoder refines a bit-string semantics, inverts every encoding, and
  accepts exactly the strings that are encodings.
- **Interleaved RLE bitmaps** (`Rows`, `RleSpec`, `Packing`, `Rle`, `RleProofs`, `RleMeaning`): the
  three C functions, for pixels of one byte, of a machine word of two and of three bytes, as one
  decoder over the byte buffer, with a case for each pixel size where a pixel is loaded, stored or
  combined. The rows that grow upwards refine a stream of pixels, byte by byte.
- **Planar bitmaps** (`PlanarSpec`, `Planar`, `PlanarProofs`): four byte planes written into one
  buffer, each into every fourth byte.
- **Persistent bitmap cache** (`CacheSpec`, `CacheList`, `Cache`, `CacheProofs`, `CacheMeaning`):
  the list of use threaded through index arrays, eviction, stamps in the file, and the next
  program's start.
- **Smart card queue** (`ScardPool`, `ScardQueue`, `ScardProofs`, `ScardEpochs`, `ScardMeaning`):
  the main thread, the dispatcher and any number of workers as a state machine over their steps, in
  every interleaving; and in which epoch the answers go out.
- **OS/2 disk** (`DiskSpec`, `Disk`, `DiskProofs`, `DiskMeaning`, `LinkSeq`): handles, open counts,
  share modes, delete on close, and the intrusive list.
- **Channels and sound** (`ChannelSpec`, `Channels`, `ChannelProofs`, `ChannelMeaning`, `SoundSpec`,
  `Sound`, `SoundMeaning`): fragments built in the buffer they are sent from, reassembly, the ring
  of sound packets, the recording buffer.
- **Device requests** (`RdpdrSpec`, `Rdpdr`, `RdpdrProofs`, `RdpdrMeaning`): the linked list of
  pending requests and the walk that removes elements on its way.
- **Codecs** (`Deltas`, `Cssp`, `Escape`): delta-encoded points, nested BER values and the streams
  they are written to, percent escapes.

`Wrappers` holds what several groups share.

What the proofs found where the code and what is said about it part ways:

- The MPPC code for 8 KB histories can carry offsets up to 8511; a match may not fill the last byte
  of the history, while a literal may.
- The test for an empty slot under a smart card worker's lock never fails: only the dispatcher fills
  slots.
- An answer from a smart card can go out in another epoch than its request came in. The epoch is tested
  and the answer sent in two steps, without a lock, and the main thread can make another epoch known
  between them: `ScardEpochs.LateRun` is such a run, `ScardEpochs.InItsEpochWhen` says that this is the
  only way. Besides, what the test compares with is brought up to date by the next device request
  only, not when the server announces itself: `ScardEpochs.StaleRun`, and `ScardEpochs.InServersEpochWhen`
  says that every answer goes out in the server's epoch if and only if the server does not announce
  itself between a request and its answer.
- A device call that fails (-1, as the serial and parallel devices store it) is taken for a transfer
  where a `long` has 64 bits: the count of bytes goes from 0 to 4294967295 and the next read is aimed
  past the buffer. With 32 bits nothing moves and nothing ends. `RdpdrProofs.VisitInBounds` says for
  exactly which results an attempt proceeds as it should; `RdpdrProofs.FailedCall` and
  `RdpdrProofs.NeverEnds` are the failures.
- The list of device requests is there to keep the order of requests on one file, but taking an
  element out makes the walk pass over the next one, so a later request on the same file can be
  served first. `RdpdrProofs.OrderKeptWhen` says for exactly which lists that cannot happen, whatever
  files `select` finds ready and however much the devices then move, with or without failing calls;
  `RdpdrProofs.Overtaken` gives the failing case, and `RdpdrProofs.OrderKeptLong` the condition on the
  list alone for transfers that can be tried without ending.
- Closing a file gives up the first request that waits on it and no other, so that a second one is left
  waiting on a handle that the next open can give out again: `RdpdrProofs.AbortLeaves`.
- A request on file 0 is taken for an unused element: the next one overwrites it and it is never
  answered (`RdpdrProofs.Overwritten`). File 0 is what a serial or parallel device that is closed or was
  never opened has (serial.c:616, parallel.c:68), and it passes the test of the handle
  (rdpdr.c:133-142). `RdpdrProofs.AccountedWhen`: a request is pending or answered once
  in every run if and only if its file is not 0.
- The next program reads back a bitmap cache's order of use only if the file holds no stamps from earlier
  cells that its keys have come to reach, or if these go again while it is read:
  `CacheProofs.ReloadWhen`, for any file.
- A polyline whose last point has no coordinate of its own is refused although it is well formed.
- The loop that sizes an escaped string passes over the first character and counts the terminator;
  what it counts is enough all the same. Only the empty string takes the path for strings without
  anything to escape.
- Asked for a token and a key at once, the reader of CredSSP requests looks for the key where the
  token begins, so that the key it gives is never looked for where one was sent: `Cssp.BothRead` says
  what it gives instead, and `Cssp.BothRefused` that it accepts nothing when the token does not begin
  with the tag of a key.
- A CredSSP request with both an authentication and a key is written past the end of its buffer, since
  the end is not marked after the authentication; and a token is copied out without a look at the size
  of its buffer. `Cssp.TokenRoundTrip` says exactly when neither happens.
- In `disk_create` a directory that cannot be made is always reported as a missing file, because the
  return expression assigns where it means to compare: `DiskProofs.MakeReported`, the status is the
  one that was meant if and only if the code is ERROR_PATH_NOT_FOUND.
- `disk_create` takes an existing file for a directory when it is asked for a directory, unless the
  file is open already: `DiskProofs.TakenForWhatItIs`.
- A read-only file that was to be deleted on close and could not be loses its attribute for good:
  `DiskProofs.CloseEven`, the attribute is put back in every other case.

## Model

| member | source | states |
|---|---|---|
| `Register.Load` | rdesktop-master/mppc.c:109-124 | an octet shifted behind the valid bits of the register appends its eight bits to the bit string the register holds, with zeros below them |
| `Register.Drop` | rdesktop-master/mppc.c:128-129 | shifting left takes bits off the front and keeps zeros below the rest |
| `Register.TopValueMasked` | rdesktop-master/mppc.c:351-354 | the arithmetic shift of the signed register, masked, is the number its top bits spell |
| `MppcCode.OffsetRoundTrip` | rdesktop-master/mppc.c:157-290 | every offset the code can carry, written with its prefix, is read back with exactly its bits used |
| `MppcCode.LengthRoundTrip` | rdesktop-master/mppc.c:292-357 | the same for match lengths, the special case three and the unary prefixes |
| `MppcCode.EncodeRoundTrip` | rdesktop-master/mppc.c:99-357 | every literal and every match, in both codes and before any further bits, is read back |
| `MppcCode.NextWritten` | rdesktop-master/mppc.c:99-357 | whatever is read as a token is bit for bit that token's encoding |
| `MppcMeaning.OffsetBits` | rdesktop-master/mppc.c:157-290 | the bits of every offset: the prefixes 111, 110, 10 and 0 with 6, 8, 11 and 16 bits counting from 0, 64, 320 and 2368, and for the small history 11, 10 and 0 with 6, 8 and 13 bits counting from 0, 64 and 320 |
| `MppcMeaning.LengthBits` | rdesktop-master/mppc.c:292-357 | the bits of every length: one zero for three, and k - 1 ones, a zero and the k bits below the highest for a length from 2^k to 2^(k+1) |
| `MppcMeaning.EncodeBits` | rdesktop-master/mppc.c:99-156 | the bits of a literal, eight below 128 and otherwise 10 and the seven lower ones, and of a match, 11 before its offset and its length |
| `MppcMeaning.StreamBits` | rdesktop-master/mppc.c:104-118 | bit 8k + i of a byte string is bit 7 - i of byte k |
| `Mppc.Fill` | rdesktop-master/mppc.c:341-348 | octets are fetched until the register holds enough bits; it fails exactly when the data holds too few, and the bits to come are unchanged |
| `Mppc.GetOffset` | rdesktop-master/mppc.c:157-290 | the offset switch reads the offset the bit string starts with and leaves the rest |
| `Mppc.CountOnes` | rdesktop-master/mppc.c:318-337 | the loop over the unary prefix counts its ones, and gives up exactly at the longest prefix or the end of the data |
| `Mppc.GetLength` | rdesktop-master/mppc.c:292-357 | the length decoder reads the length the bit string starts with and leaves the rest |
| `Mppc.GetToken` | rdesktop-master/mppc.c:99-357 | one turn reads the next token of the bit string, or ends, or fails, exactly as the bit-string reader does |
| `Mppc.CopyMatch` | rdesktop-master/mppc.c:363-368 | the byte loop copies with overlap, each byte from what is there by then |
| `Mppc.RdpComp.Expand` | rdesktop-master/mppc.c:58-379 | for every packet, valid or not, the history, the stored offset, the returned offset and length and the verdict are those of the bit-string semantics |
| `MppcMeaning.PacketFlags` | rdesktop-master/mppc.c:58-97 | a packet without flag 0x20 is handed on as it is; 0x80 clears the history, 0x80 and 0x40 begin it again, 0x01 says which code, and no other bit is looked at |
| `MppcProofs.CopyStart` | rdesktop-master/mppc.c:362-368 | every match that is performed reads its first byte at the place p, 0 <= p < 65536 or 8192, with p = offset - distance + m * 65536 or 8192 for some integer m, and byte i from the i-th place after p, as it stands by then; the rest of the history stays |
| `MppcProofs.WriteWhen` | rdesktop-master/mppc.c:121-368 | a literal is performed below place 65536; a match is refused when it would end at 65536 or beyond, and reads outside the history when its source round the window runs past 65536 |
| `MppcProofs.CopyIsLz` | rdesktop-master/mppc.c:362-368 | a copy from what was said since the history was begun is the LZ77 copy that appends to it |
| `MppcProofs.NearMatch` | rdesktop-master/mppc.c:362-368 | a match no longer back than what was said since the history was begun is LZ77 on it |
| `MppcProofs.FarMatch` | rdesktop-master/mppc.c:362-368 | a match that reaches further, round the window, is a piece of what the history holds from before the reset |
| `MppcProofs.WriteAllIsLz` | rdesktop-master/mppc.c:121-123 | tokens that fit the history leave the text they stand for in it, matches round the window into what a reset has kept included, and nothing else changed |
| `MppcProofs.DecodeEncoded` | rdesktop-master/mppc.c:99-379 | decoding the encoding of any tokens with at most seven zero bits behind it performs those tokens |
| `MppcProofs.AcceptsExactlyTheCode` | rdesktop-master/mppc.c:99-379 | a bit string is accepted if and only if it is the encoding of tokens that fit the history, padded with fewer than eight zeros |
| `MppcProofs.SpellingIsUnique` | rdesktop-master/mppc.c:99-357 | no bit string encodes two token lists |
| `MppcProofs.ExpandInverts` | rdesktop-master/mppc.c:58-379 | one packet that spells tokens that fit delivers the text they stand for, whatever the history holds from before, and changes nothing beyond it |
| `MppcProofs.CompressSpells` | rdesktop-master/mppc.c:99-379 | every token list the code has words for is spelled by some packet, so the round trips are about all of them |
| `MppcProofs.PieceIsAppended` | rdesktop-master/mppc.c:372-378 | what a call delivers is appended to the history; a failing call delivers nothing and leaves the offset |
| `MppcProofs.HistoryIsWhatWasDelivered` | rdesktop-master/mppc.c:69-97 | over any run of packets between resets, valid or not, the history is what was there followed by all that was delivered |
| `MppcProofs.SessionRoundTrip` | rdesktop-master/mppc.c:58-379 | over a whole session with resets, flushes and uncompressed packets the client reads exactly what the server compressed, matches into text kept over a reset included |
| `Rle.Decoder.MaskUpdate` | rdesktop-master/bitmap.c:55-63 | for pixel j the mask bit is bit j modulo 8, a new mask byte (or the fixed mask) being taken exactly when that is zero |
| `Rle.Decoder.One` | rdesktop-master/bitmap.c:42-53 | one statement with its count and column steps paints the next pixel of the stream |
| `Rle.Decoder.Repeat` | rdesktop-master/bitmap.c:40-53 | the eight-fold unrolled loop and the single loop together paint as many pixels as count and row allow, as the one-pixel loop would |
| `Rle.Decoder.NextRow` | rdesktop-master/bitmap.c:162-170 | the next row lies one row further up and the stream of pixels is unchanged |
| `Rle.Decoder.ReadCode` | rdesktop-master/bitmap.c:81-128 | opcode and count of every header form, the strange counts included |
| `Rle.Decoder.Order` | rdesktop-master/bitmap.c:160-258 | an order paints its pixels across row breaks, bicolour pairs counted as the code counts them, and stops at the first that has no place |
| `Rle.Decoder.Decompress` | rdesktop-master/bitmap.c:67-261 | the rows written upwards are the pixel stream of the orders, and the verdict is that of the stream |
| `Rle.Decoder.PixelPlace` | rdesktop-master/bitmap.c:162-170 | pixel k of the stream is at row height-1-k/width, column k%width of the output |
| `Rle.Decoder.Store` | rdesktop-master/bitmap.c:573-590 | a pixel stored as a byte, as a word in the machine's byte order or as three bytes changes that pixel of the buffer and no other |
| `Rle.Decoder.BlendWord` | rdesktop-master/bitmap.c:374-395 | a word loaded from the row above, XORed with the mix word if the pixel is mixed, and stored, is the pixel above, or its XOR with the mix byte by byte, on machines of either byte order |
| `Rle.Decoder.BlendBytes` | rdesktop-master/bitmap.c:587-618 | a three-byte pixel is the one above, or, if it is mixed, its XOR with the mix byte by byte |
| `Rle.Decoder.Take` | rdesktop-master/bitmap.c:29-39 | a pixel read by one, two or three byte reads, or as a word, is the next bytes of the input |
| `Rle.Decoder.BytePlace` | rdesktop-master/bitmap.c:566-574 | byte b of pixel k is at byte bpp * ((height-1-k/width) * width + k%width) + b of the buffer |
| `Rle.BitmapDecompress` | rdesktop-master/bitmap.c:883-908 | for every input, size of pixel and byte order, the verdict is that of the stream and the buffer holds the stream byte by byte in those places |
| `Packing.XorWord` | rdesktop-master/bitmap.c:374-395 | the XOR of two 16-bit words, stored, is the XOR of their bytes |
| `RleProofs.HeaderRoundTrip` | rdesktop-master/bitmap.c:81-128 | every opcode and count that can be sent is read back from the shortest header for it |
| `RleProofs.DabWritten` | rdesktop-master/bitmap.c:171-257 | pixel j of a written order is the colour the order means there, masks and copied pixels included |
| `RleProofs.BodyWritten` | rdesktop-master/bitmap.c:160-258 | a written order paints what it means, or as much of it as there is room for |
| `RleProofs.DecodeWritten` | rdesktop-master/bitmap.c:79-260 | any list of written orders paints what they mean, a fill after a fill starting with a mixed pixel except at the second row, and is refused exactly when it means more pixels than there is room for |
| `RleProofs.BitmapRoundTrip` | rdesktop-master/bitmap.c:67-261 | the same for a whole bitmap, of pixels of any size |
| `RleProofs.BytesRoundTrip` | rdesktop-master/bitmap.c:464-746 | so for pixels of one, two or three bytes every byte b of every pixel k that the orders mean is at byte bpp * ((height-1-k/width) * width + k%width) + b of the buffer |
| `RleMeaning.BitmapMeans` | rdesktop-master/bitmap.c:160-258 | of any list of written orders every pixel, by its order: of a Fill the pixel one row up, or zero bytes in the first row; of a Mix that pixel XORed with the mix byte by byte; of a mask order one or the other as bit j % 8 of mask byte j / 8 is clear or set, of Mask3 pixels 0 and 1 mixed, of Mask5 pixels 0 and 2; a Fill after a Fill has just its first pixel mixed, unless it begins the second row; colours, copies, pairs, white 255 and black 0; and it is refused exactly when there are more pixels than width * height |
| `RleSpec.XorBits` | rdesktop-master/bitmap.c:179 | a bit of the XOR is set when just one of the two has it set |
| `Planar.Store` | rdesktop-master/bitmap.c:788-802 | a byte of one plane is stored and the bytes of the other planes stay |
| `Planar.Counts` | rdesktop-master/bitmap.c:779-787 | both counts of a code byte, the swapped nibbles from 16 to 47 being one long run |
| `Planar.RowLoop` | rdesktop-master/bitmap.c:777-846 | a row is the row the code bytes describe, from the row sent before it, and the other planes stay |
| `Planar.ProcessPlane` | rdesktop-master/bitmap.c:749-852 | a plane's rows, lowest first, and the exact number of bytes used |
| `Planar.Decompress4` | rdesktop-master/bitmap.c:855-880 | all four planes are in their bytes of the pixels, and the verdict says whether the input is used up |
| `PlanarProofs.CodeByteCounts` | rdesktop-master/bitmap.c:779-787 | every pair of counts a code byte can carry is read back |
| `PlanarProofs.RawRead` | rdesktop-master/bitmap.c:820-831 | every colour and every signed difference is read back from its zig-zag byte |
| `PlanarProofs.RawBack` | rdesktop-master/bitmap.c:820-831 | and every byte is the zig-zag byte of the colour it is read as, so that no two mean the same |
| `PlanarProofs.RowRead` | rdesktop-master/bitmap.c:777-846 | a row cut into raw values and runs in any way the code allows is read back, with exactly its bytes used |
| `PlanarProofs.PlaneWritten` | rdesktop-master/bitmap.c:749-852 | so is every plane |
| `PlanarProofs.BitmapRoundTrip` | rdesktop-master/bitmap.c:855-880 | any four planes, written one after the other, come back: byte c of row r of plane i is at byte 4 * ((height-1-r) * width + c) + 3 - i of the buffer; true is returned exactly when nothing follows them |
| `PlanarProofs.LiterallyFits` | rdesktop-master/bitmap.c:749-852 | every row can be cut up in some way, so every picture can be sent |
| `CacheList.BumpMoves` | rdesktop-master/cache.c:103-165 | a bump moves a cell up by the smaller of the bump and its distance to the end and leaves the others in their order |
| `CacheList.UnlinkForth` | rdesktop-master/cache.c:119-130 | taking a cell out leaves the forward links of the shorter list |
| `CacheList.LinkBack` | rdesktop-master/cache.c:152-165 | putting a cell in makes the backward links of the longer list |
| `Cache.BitmapCache.Bump` | rdesktop-master/cache.c:103-165 | the links, both ends and the count stand for the order with the cell moved, or put in if it was not there |
| `Cache.BitmapCache.EvictBitmap` | rdesktop-master/cache.c:169-191 | the least recently used cell leaves list and memory and loses its stamp |
| `Cache.BitmapCache.PutBitmap` | rdesktop-master/cache.c:217-250 | storing makes the cell the most recently used, evicts above 0x150 cells, and keeps one list without repetition of exactly the cells with a bitmap |
| `Cache.BitmapCache.GetBitmap` | rdesktop-master/cache.c:194-214 | a bitmap is found in memory or fetched from the file, bumped, and returned; the volatile cell 0x7fff apart |
| `Cache.BitmapCache.SaveBitmap` | rdesktop-master/pstcache.c:81-103 | a cell of the file is overwritten without a stamp |
| `Cache.BitmapCache.SaveState` | rdesktop-master/cache.c:253-271 | the stamps written at exit rise along the list |
| `Cache.BitmapCache.Rebuild` | rdesktop-master/cache.c:57-100 | the list becomes the table's cells that hold a bitmap, in the table's order; the program gives up exactly when their number is not the count |
| `Cache.BitmapCache.SortIn` | rdesktop-master/pstcache.c:138-147 | the insertion in place is the insertion behind all entries that are not younger |
| `Cache.BitmapCache.Enumerate` | rdesktop-master/pstcache.c:106-159 | the keys up to the first empty cell, the cells loaded, the list in the order of the stamps; the mismatch exit is never taken, whatever the file holds |
| `CacheProofs.RunKeeps` | rdesktop-master/cache.c:103-250 | in every run the list stays sound, a stamp in the file stays the mark of a listed cell, and bitmaps saved as they come stay equal to those in the file |
| `CacheMeaning.DrawMeans` | rdesktop-master/cache.c:194-214 | drawing a cell at place i that is in memory moves it to place min(i + 40, length - 1) and leaves the others in their order and the bitmaps and the file alone; one fetched from the file is last, and of 0x150 others the first gives way, with its stamp; from 0x9f6 on there is nothing to fetch |
| `CacheMeaning.ReceiveMeans` | rdesktop-master/cache.c:217-250 | storing moves a listed cell to the end, or makes a new one the last, the first of 0x150 others giving way, with its stamp; it is written to the file, without a stamp, if it has a key and the file has the cell |
| `CacheProofs.EnumeratedKeeps` | rdesktop-master/pstcache.c:106-159 | reading any file gives a sound cache; reading one without stamps beyond its keys gives one in which every stamp marks a listed cell |
| `CacheProofs.RisingUnique` | rdesktop-master/pstcache.c:138-147 | two lists of the same cells with rising stamps are the same list |
| `CacheProofs.ReloadWhen` | rdesktop-master/pstcache.c:106-159 | after a session over any file the next program finds the same order of use for the cells the keys reach if and only if they reach no cell with an old stamp, or the cells in use that they reach fill the cache and the old ones all come before them |
| `CacheProofs.SaveThenReload` | rdesktop-master/cache.c:253-271 | after a session over a file without stamps beyond its keys, the next program finds the same order of use for the cells the keys reach, and for all cells if and only if they reach all |
| `CacheProofs.SaveThenReloadBitmaps` | rdesktop-master/pstcache.c:52-78 | and the same bitmap in each of those cells, if all were saved |
| `CacheProofs.CleanAgain` | rdesktop-master/cache.c:253-271 | what is saved at exit is again a file without stamps beyond its keys if and only if the keys reach every cell in use that the file has |
| `CacheProofs.ReloadAfterAll` | rdesktop-master/pstcache.c:106-159 | order and bitmaps come back after any number of programs one after the other, as long as each left its cells in use within the keys |
| `ScardQueue.Queue.Add` | rdesktop-master/scard.c:2477-2488 | the linked list gets the request at its end |
| `ScardQueue.Queue.Next` | rdesktop-master/scard.c:2503-2523 | the linked list loses its first request, which is returned unlinked |
| `ScardProofs.RunKeeps` | rdesktop-master/scard.c:2447-2633 | the invariant of queue, locks, slots and counts holds after every interleaving of any number of threads |
| `ScardProofs.ExactlyOnce` | rdesktop-master/scard.c:2447-2633 | requests leave the queue in the order they came; each is at every time queued, in hand, in one slot or executed, and executed once; each that is executed is answered once, or given up once, or still to be answered |
| `ScardEpochs.InItsEpochWhen` | rdesktop-master/scard.c:2533-2538 | in every run every answer goes out in the epoch its request came in, as the threads know it, if and only if no other epoch is made known between the test for an answer that goes out and its sending |
| `ScardEpochs.InServersEpochWhen` | rdesktop-master/rdpdr.c:713-841 | in every run every answer goes out in the epoch its request came in, as the server counts, if and only if the server does not announce itself between the request and an answer that goes out |
| `ScardEpochs.GivenUpIsPast` | rdesktop-master/scard.c:2533-2538 | in every run an answer is given up only when another epoch has begun since its request |
| `ScardEpochs.LateRun` | rdesktop-master/scard.c:2536-2537 | a run in which a request of epoch 0 passes the test in epoch 0 and is answered in epoch 1 |
| `ScardEpochs.StaleRun` | rdesktop-master/rdpdr.c:713-841 | a run in which it is answered after the server has announced epoch 1, the test still comparing with 0 |
| `ScardProofs.LockedIsEmpty` | rdesktop-master/scard.c:2569-2578 | the test repeated under the lock always finds the slot empty |
| `ScardProofs.SlotKept` | rdesktop-master/scard.c:2544-2560 | a full slot keeps its request until its worker has executed it and clears it |
| `ScardProofs.WorkerLocks` | rdesktop-master/scard.c:2544-2560 | a worker holds its own lock while a request is executed, and the dispatcher holds the one lock it has taken |
| `ScardMeaning.RunKinds` | rdesktop-master/scard.c:2610-2631 | in every run the dispatcher executes immediate requests only, and hands on and puts into slots all others only |
| `ScardMeaning.PassedFull` | rdesktop-master/scard.c:2568-2607 | in every run a worker is passed over only with its slot full: a request goes to the first worker of the list whose slot is found empty, and another worker is made only when every slot has been found full |
| `ScardMeaning.RunNewest` | rdesktop-master/scard.c:2606-2607 | the list runs from the worker made last to the first one, each once |
| `ScardProofs.StepDescends` | rdesktop-master/scard.c:2544-2633 | every step of a thread brings the run nearer to its end |
| `ScardProofs.NothingIsLost` | rdesktop-master/scard.c:2503-2633 | when no thread can go on, every accepted request has been executed and answered, or dropped with its epoch: no wake-up is lost |
| `ScardProofs.ComesToRest` | rdesktop-master/scard.c:2503-2633 | from every reachable state the threads do come to that rest |
| `LinkSeq.List.Add` | rdesktop-master/os2/linkseq.h:68-74 | the element is linked behind the last one, both ways |
| `LinkSeq.List.Remove` | rdesktop-master/os2/linkseq.h:37-45 | the element is taken out from any place without a search, and the links of the others stay right |
| `Disk.DiskDevice.Place` | rdesktop-master/os2/disk.c:1380-1421 | a handle is stored in the first free place of the table, inside its allocation, which grows by 256 places when it is full |
| `Disk.DiskDevice.OpenReal` | rdesktop-master/os2/disk.c:1148-1369 | an open of what is not open yet, for every combination of the operating system's answers, request and disposition: the file listed or the refusal, and the read-only attribute taken off and put back |
| `Disk.DiskDevice.CreateFile` | rdesktop-master/os2/disk.c:1019-1421 | table, status and handle after an open, for a file that is open already and for one that is not, each refusal with its status, and the stamp that says something may be written |
| `Disk.DiskDevice.CloseFile` | rdesktop-master/os2/disk.c:1423-1513 | table and status after a close, with its deletions and refusals, the stamp, the handle for which one waiting request is given up and the read-only attribute put back |
| `DiskProofs.FlipTwice` | rdesktop-master/os2/disk.c:56-61 | a handle leads back to its index |
| `DiskProofs.FlipBits` | rdesktop-master/os2/disk.c:56-61 | the mapping is the XOR with thirty-one ones, bit for bit |
| `DiskProofs.HandleRange` | rdesktop-master/os2/disk.c:53-61 | handles are never negative, never 0 before the table has 2^31 places, and different for different places |
| `DiskProofs.RunKeeps` | rdesktop-master/os2/disk.c:1019-1513 | in every run a file's open count is the number of handles on it and it is listed just while that is positive; of any two handles on a file each shares reading if the other may read or execute, and writing if the other may write; no open file's name leads upwards |
| `DiskMeaning.EachSharesWithEach` | rdesktop-master/os2/disk.c:1140-1167 | in every run, of any two handles on one file, each shares writing if the other has all or write access, and reading if the other has all, read or execute access |
| `DiskMeaning.OpenOfListed` | rdesktop-master/os2/disk.c:1093-1169 | an open of a file that is open is NameCollision, IsADirectory, AccessDenied or Success under exactly these conditions; AccessDenied in particular if and only if it is no always or new creation and the kind is wrong, or the file is read-only and it asks to write, or some handle does not share what it asks for or may do what it does not share |
| `DiskMeaning.OpenOfOther` | rdesktop-master/os2/disk.c:1170-1328 | an open of what is not open: each refusal if and only if its conditions on the operating system's codes 0, 2, 3 and 32, on disposition, kind and attribute hold, and what is recorded otherwise |
| `DiskMeaning.OpenClears` | rdesktop-master/os2/disk.c:1256-1313 | the attribute of a read-only file that is really opened is off, and back on if the open fails; no other open of what is not open yet touches an attribute |
| `DiskMeaning.CloseMeans` | rdesktop-master/os2/disk.c:1423-1513 | a close is InvalidHandle, AccessDenied or Success under exactly these conditions, in every run, and what it leaves of the handle, the file, the stamp and the deletions |
| `DiskMeaning.ScheduleMeans` | rdesktop-master/os2/disk.c:615-688 | a request for a deletion: DirectoryNotEmpty exactly with the access for it on a directory that is not empty, nothing done without the access |
| `DiskProofs.RunGuarded` | rdesktop-master/os2/disk.c:1019-1513 | in every run no handle can write to a read-only file, and no deletion stands on a handle without the access for it |
| `DiskProofs.CloseEven` | rdesktop-master/os2/disk.c:1455-1496 | a close keeps the read-only attribute off just the open files if and only if it is not the last close of a read-only file that was to be deleted and could not be |
| `DiskProofs.AttributeKept` | rdesktop-master/os2/disk.c:1255-1313 | in every run without such a close the attribute is off on just the files that are open |
| `DiskProofs.MakeReported` | rdesktop-master/os2/disk.c:1219-1226 | the status for a directory that cannot be made is the one that was meant if and only if the code is ERROR_PATH_NOT_FOUND |
| `DiskProofs.TakenForWhatItIs` | rdesktop-master/os2/disk.c:1169-1245 | what is opened anew is recorded as the directory or the file it is, if and only if a directory was not asked for where there is a file |
| `DiskProofs.HandleStable` | rdesktop-master/os2/disk.c:134-139 | a live handle means the same until it is closed |
| `DiskProofs.HandleFresh` | rdesktop-master/os2/disk.c:1380-1421 | a new handle meant nothing before and means the file of that name with the access and sharing asked for |
| `DiskProofs.ScheduleKeeps` | rdesktop-master/os2/disk.c:615-688 | a request for a deletion keeps counts, listing and sharing |
| `DiskProofs.ScheduledBefore` | rdesktop-master/os2/disk.c:630-688 | a deletion that stands on a handle was scheduled by an earlier request on it, with delete access, and the handle has meant the same since |
| `DiskProofs.DeletedAtLast` | rdesktop-master/os2/disk.c:1452-1484 | a deletion is done only by closing the last handle on a file with the deletion scheduled on it |
| `DiskProofs.DeletionAsked` | rdesktop-master/os2/disk.c:615-1484 | so every deletion was asked for earlier on the handle whose closing performs it, with delete access |
| `DiskProofs.RefusedThenClosed` | rdesktop-master/os2/disk.c:1498-1505 | with other handles left a scheduled deletion is refused and forgotten, and closing again closes |
| `Channels.Sender.SecSend` | rdesktop-master/secure.c:333-364 | the bytes up to the end go out and only they are changed by headers and encryption |
| `Channels.Sender.SendFragment` | rdesktop-master/channels.c:110-131 | a later fragment is built over bytes already sent and nothing unsent is touched |
| `Channels.Sender.Send` | rdesktop-master/channels.c:79-135 | what goes out are the fragments of the payload that stood in the buffer |
| `Channels.VirtualChannel.Process` | rdesktop-master/channels.c:157-187 | one fragment is delivered, or added to the channel's buffer, or completes it |
| `ChannelProofs.ReadFragment` | rdesktop-master/channels.c:155-158 | length, flags and data of every fragment are read back |
| `ChannelMeaning.FragmentBytes` | rdesktop-master/channels.c:101-106 | the bytes of a fragment: the length in four, the lowest first, the flags 1, 2 and 16 for first, last and to be shown in four, and the data |
| `ChannelMeaning.FragmentsArePieces` | rdesktop-master/channels.c:79-135 | a payload of n bytes goes out as its pieces of 1600 bytes, (n + 1599) / 1600 of them and one for nothing, the first and the last marked |
| `ChannelMeaning.AnythingAssembled` | rdesktop-master/channels.c:156-187 | whatever fragments come and whatever length they announce, what is delivered with the last is all their bytes, cut at the announced length or the largest announced before |
| `ChannelProofs.PayloadArrives` | rdesktop-master/channels.c:138-188 | a payload of any length is delivered whole, whatever state the channel was left in |
| `ChannelProofs.Delivered` | rdesktop-master/channels.c:138-188 | with the fragments of other channels anywhere between them, a channel's payloads are delivered once each, unchanged and in order |
| `SoundSpec.Later` | rdesktop-master/rdpsnd.c:913-917 | the completion time is normalised and so many microseconds later |
| `SoundSpec.BeforeIs` | rdesktop-master/rdpsnd.c:950-955 | comparing seconds and then microseconds compares the times |
| `SoundSpec.RunKeeps` | rdesktop-master/rdpsnd.c:849-965 | between resets accepted packets are those acknowledged, awaiting and queued, in that order; at most 49 are held; no acknowledgement comes before its packet's completion time |
| `SoundMeaning.CompleteMeans` | rdesktop-master/rdpsnd.c:937-965 | a look at the clock answers the packets at the head whose completion time it has reached, up to the first that it has not, each with its index and its tick moved on by the whole milliseconds of its life, modulo 65536, and no others |
| `SoundMeaning.NoneOverdue` | rdesktop-master/rdpsnd.c:904-965 | so that after every look at the clock, in every run, the next acknowledgement is not due yet |
| `SoundMeaning.HandedOn` | rdesktop-master/rdpsnd.c:848-922 | a packet handed on waits behind the others for the normalised time so many microseconds from now; one that comes in is queued exactly if fewer than 49 are held |
| `Sound.SoundQueue.Write` | rdesktop-master/rdpsnd.c:848-867 | a packet is accepted exactly when fewer than 49 are held, and no occupied place is overwritten |
| `Sound.SoundQueue.Empty` | rdesktop-master/rdpsnd.c:875-879 | the two ends meet exactly when nothing is queued, a full ring never looking empty |
| `Sound.SoundQueue.Next` | rdesktop-master/rdpsnd.c:904-922 | the head of the queue gets its completion time and the acknowledgements that are due are sent |
| `Sound.SoundQueue.CompletePending` | rdesktop-master/rdpsnd.c:937-964 | acknowledgements go out from the head as long as they are due |
| `Sound.Recorder.Flush` | rdesktop-master/rdpsnd.c:124-163 | the buffer goes out in pieces and no byte is lost |
| `Sound.Recorder.Record` | rdesktop-master/rdpsnd.c:175-207 | what was sent and what is buffered together are all the bytes recorded, and the buffer is never left full |
| `Sound.PieceIsOneFragment` | rdesktop-master/rdpsnd.c:137-147 | every recorded piece with its header is a single fragment on the channel |
| `Sound.PieceLengths` | rdesktop-master/rdpsnd.c:143-148 | every piece but the last has 1596 bytes |
| `Rdpdr.AsyncList.AddRequest` | rdesktop-master/rdpdr.c:157-201 | the request takes the first unused element of the list, or a new one at its end |
| `Rdpdr.AsyncList.Remove` | rdesktop-master/rdpdr.c:963-985 | the element is unlinked and the result is the one after it, or null when the head went |
| `Rdpdr.AsyncList.CheckFds` | rdesktop-master/rdpdr.c:1047-1163 | list and answers after the walk, elements taken out on the way and elements passed over included |
| `Rdpdr.AsyncList.CheckNotify` | rdesktop-master/rdpdr.c:1165-1205 | the first directory request on a disk uses up the stamp and is answered if there is news for it; no other is looked at |
| `Rdpdr.AsyncList.CheckTimedOut` | rdesktop-master/rdpdr.c:1003-1043 | a serial read that has something is answered with it, otherwise a request on the file is given up |
| `Rdpdr.AsyncList.AbortIo` | rdesktop-master/rdpdr.c:1228-1256 | the first request that matches is answered and taken out |
| `RdpdrProofs.OneAnswerEach` | rdesktop-master/rdpdr.c:157-1256 | in every run, whatever else is added, served, timed out or given up, the requests added under a number with a file are pending or answered, once each |
| `RdpdrProofs.Overwritten` | rdesktop-master/rdpdr.c:176-199 | a request on file 0 is gone with the next one that is added, without an answer |
| `RdpdrProofs.AccountedWhen` | rdesktop-master/rdpdr.c:157-1256 | a request is pending or answered once in every run if and only if its file is not 0 |
| `RdpdrProofs.AbortLeaves` | rdesktop-master/rdpdr.c:1228-1256 | one request fewer waits on the file, and none at all exactly when at most one did |
| `RdpdrProofs.VisitKeepsStart` | rdesktop-master/rdpdr.c:1069-1073 | whatever a device answers, a transfer keeps its length and the place where it started, in 32 bits |
| `RdpdrProofs.VisitInBounds` | rdesktop-master/rdpdr.c:1060-1136 | for every 32-bit result and either size of `long`: an attempt ends the transfer within its length or moves it on within it if and only if the result is 0, or counts as moved and is no more than was left, or counts as nothing when nothing was left |
| `RdpdrProofs.FailedCall` | rdesktop-master/rdpdr.c:1069-1081 | the result -1 is none of these: with 64 bits the count goes from 0 past the length, with 32 bits the request stays as it is |
| `RdpdrProofs.NeverEnds` | rdesktop-master/rdpdr.c:1069-1081 | with 32 bits a request whose device only fails is never answered |
| `RdpdrProofs.WalkInBounds` | rdesktop-master/rdpdr.c:1047-1163 | after a walk every request is within its length if and only if every one that the walk comes to is left within its own |
| `RdpdrProofs.WalkKeepsBounds` | rdesktop-master/rdpdr.c:1047-1163 | which is so with devices none of whose calls fail |
| `RdpdrProofs.ReadAssembled` | rdesktop-master/rdpdr.c:1054-1091 | a finished read is answered with the bytes of the file from its offset on, as many as the answer says, whatever the pieces |
| `RdpdrProofs.WalkAt` | rdesktop-master/rdpdr.c:1047-1163 | the walk tries the requests it comes to and leaves the others as they are |
| `RdpdrMeaning.LeftAlone` | rdesktop-master/rdpdr.c:1052-1157 | a read is left as it is unless its file is readable, a write unless its file is writable, a control unless its event is there |
| `RdpdrMeaning.EventAnswered` | rdesktop-master/rdpdr.c:1140-1156 | a control whose event is there is answered with four bytes |
| `RdpdrMeaning.Transferred` | rdesktop-master/rdpdr.c:1056-1139 | a read whose file is readable and a write whose file is writable get what the device gives, where its result is positive as a signed long: bytes, count and offset move on, and the request is answered with the device's status exactly when it is complete or the device gave nothing |
| `RdpdrMeaning.WalkMeans` | rdesktop-master/rdpdr.c:1047-1163 | after the walk the list is what is left of the requests, in their order, and the answers are those to the requests that ended, in theirs; a request is tried unless the head has just been answered or the one before it was tried and answered |
| `RdpdrMeaning.TimeoutMeans` | rdesktop-master/rdpdr.c:1002-1046 | a timeout answers the head with its bytes if it is a serial request on the file with bytes moved, and otherwise the first request on the file with status 0xc0000102 |
| `RdpdrMeaning.AbortMeans` | rdesktop-master/rdpdr.c:1228-1256 | giving up takes out the first request on the file, of the kind if one is named, and answers it with the status and no bytes |
| `RdpdrMeaning.NotifyMeans` | rdesktop-master/rdpdr.c:1165-1205 | the first directory request on a disk uses up the stamp and is answered unless the answer would be 0x103 |
| `RdpdrMeaning.SizeIs` | rdesktop-master/rdpdr.c:1062-1065 | a device is asked for all that is left, or for 8192 bytes of it |
| `RdpdrMeaning.AddMeans` | rdesktop-master/rdpdr.c:157-201 | a request takes the first element without a file, or a new one at the end, and no other element changes |
| `RdpdrProofs.OrderKeptWhen` | rdesktop-master/rdpdr.c:963-1163 | for every list, either size of `long`, and devices whose calls may fail or may not: the order on each file is kept, whatever files are ready and whatever the devices move, if and only if there are no three ready requests, the second and third on one file, the first just before the second and not at the head, such that the walk may come to the first and from behind the second to the third |
| `RdpdrProofs.Overtaken` | rdesktop-master/rdpdr.c:963-1163 | when there are, with those files ready and devices that move nothing or one byte or fail, the third is served and the second passed over |
| `RdpdrProofs.OrderKeptLong` | rdesktop-master/rdpdr.c:963-1163 | if every transfer can be tried without ending, the order is always kept if and only if no two requests on one file stand behind another that is not the first |
| `RdpdrProofs.LongWhen` | rdesktop-master/rdpdr.c:1060-1136 | that is so of transfers with two bytes to go, and with one where calls may fail |
| `Deltas.DeltaRoundTrip` | rdesktop-master/orders.c:73-88 | every value in one or two bytes is read back |
| `Deltas.DeltaMeans` | rdesktop-master/orders.c:73-88 | the top bit of the first byte says that there is a second one, and the other 7 or 15 bits are the value in two's complement |
| `Deltas.FlagBits` | rdesktop-master/orders.c:737-745 | every byte of flags is for four points, from the top down, two bits each: x is left out, y is left out |
| `Deltas.Shortest` | rdesktop-master/orders.c:73-88 | every value from -16384 to 16383 has a form that carries it; only zero can be left out, and two bytes are taken only outside -64 to 63 |
| `Deltas.Parse` | rdesktop-master/orders.c:737-756 | the point loop with its shifted flags reads what the order's data describe |
| `Deltas.PointsRoundTrip` | rdesktop-master/orders.c:737-756 | points sent in any of their forms are read back if and only if the last one has a coordinate |
| `Cssp.PeekIsLength` | rdesktop-master/cssp.c:657-676 | the length peeked from four bytes is that of the rest of the message |
| `Cssp.PeekAgrees` | rdesktop-master/cssp.c:657-676 | for any four bytes or more, a length is peeked exactly when they begin with a header with tag 0x30, and it is what the header announces less the bytes read |
| `Cssp.HeadersRead` | rdesktop-master/asn.c:89-109 | a length below 0x80 in one byte, another behind 0x81 in one or behind 0x82 in two, the high one first, and no other |
| `Cssp.ShortTokenMessage` | rdesktop-master/cssp.c:551-643 | the bytes of a message with a short token: 0x30, 0xa0 3 2 1 2, 0xa1, 0x30, 0x30, 0xa0, 4 and the token |
| `Cssp.ShortFieldMessage` | rdesktop-master/cssp.c:580-643 | the bytes of a message with a short authentication, tag 0xa2, or key, tag 0xa3 |
| `Cssp.LongHeader` | rdesktop-master/asn.c:61-79 | a value of 128 to 65535 bytes stands behind its tag, 0x82 and its length in two bytes, the high one first |
| `Cssp.Unwrap` | rdesktop-master/asn.c:61-109 | a wrapped value of fewer than 65536 bytes is found under its header, whose length is its size |
| `Cssp.ReadRequest` | rdesktop-master/cssp.c:684-735 | the chain of headers read at a moving place finds what the description of the message says, copying the token out included |
| `Cssp.SendRequest` | rdesktop-master/cssp.c:551-643 | what is sent is the message, unless it carries both an authentication and a key: then the key is written past the end of the allocation |
| `Cssp.TokenRoundTrip` | rdesktop-master/cssp.c:551-735 | a request sent and read comes back as its token if and only if it has one, the buffer for it has room, and it does not carry both an authentication and a key; and exactly when it stays inside the buffers |
| `Cssp.KeyRoundTrip` | rdesktop-master/cssp.c:551-735 | a request sent and read comes back as its key if and only if it has one and neither token nor authentication before it |
| `Cssp.BothRead` | rdesktop-master/cssp.c:713-735 | asked for both, the reader gives as the key what stands as one at the beginning of the token and the fields behind it |
| `Cssp.BothRefused` | rdesktop-master/cssp.c:713-735 | so a token that does not begin with the tag of a key is never accepted, whatever key is sent |
| `Cssp.BrokenOff` | rdesktop-master/cssp.c:684-735 | a message with a token that breaks off anywhere is read beyond its end |
| `Escape.CountLoop` | rdesktop-master/utils.c:45-50 | what the counting loop counts |
| `Escape.StringEscape` | rdesktop-master/utils.c:37-78 | the escaped text with its terminator, every store inside the allocation |
| `Escape.StringUnescape` | rdesktop-master/utils.c:81-112 | the unescaped text with its terminator, written in place behind the place of reading |
| `Escape.EscapeRoundTrip` | rdesktop-master/utils.c:37-112 | unescaping an escaped string gives it back, for every string |
| `Escape.EncodedMeans` | rdesktop-master/utils.c:61-76 | the characters below the space and the percent sign become a percent sign and two upper-case digits, the high one first, and all others stay |
| `Escape.UnescapedPair` | rdesktop-master/utils.c:90-102 | a percent sign and two digits of either case are read as the character they stand for |
| `Escape.UnescapedPlain` | rdesktop-master/utils.c:104-107 | every other character, and a percent sign at the end, is read as itself |
| `Escape.OtherForms` | rdesktop-master/utils.c:93-102 | before a character that cannot begin a number a percent sign is read as itself; before white space, a sign or a single digit the scan may read a number of another form |

## Left out

- Inputs for which the C code would read or write outside its buffers end the model's run with a
  verdict of their own: Stray in `Mppc`, PastEnd in `Rle`, Overrun, PastEnd and Undefined in the planar
  decoder, PastEnd in `Deltas`, Overrun in `Cssp`, Other in `Escape`.
- A plane segment longer than its row: the C code runs on into the next row of the buffer.
- Inputs are sequences, not arrays; only buffers that the code writes are arrays.
- The bitmap caches without a file, whose put and get are plain assignments, and the flags that turn
  persistence off.
- Reading a cell of the cache file that was never written: the model finds a cell without a key.
- Bitmaps that are too large for their cell of the cache file, and failures to create a bitmap.
- Smart card: `scard_reset_state` while the queue is in use, failures to create a thread, and what a
  request does with the card.
- The path of an open is given as already put together, names are compared letter by letter, and what
  the operating system answers is a parameter, its codes included; changing a file's attributes is taken
  to succeed.
- File rename and attribute changes on request on the OS/2 disk, and memory that runs out.
- The list of open files in `Disk` and the intrusive list in `LinkSeq` are two models, not joined; the
  first holds its files as a sequence of records.
- `Channels.Sender.SecSend`: headers, signature and cipher are not modelled; they become an arbitrary
  change of the bytes up to the end, once these have gone out.
- `Channels.Sender.Send`: with eight output buffers instead of one there is nothing to overwrite; the
  single buffer is the case modelled. The search for a channel's number is a map.
- What a channel's handler does with the buffer it is given, in particular to the place of reading.
- Starting tick of the sound packet to be played next, and the sound drivers.
- Which files `select` finds ready, which serial events have happened and what a device moves are
  parameters of the walk over the device requests.
- What a failed call taken for a transfer then does to the memory behind the buffer, and reads that would
  cross the end of a 32-bit offset, in `RdpdrProofs.ReadAssembled`.
- Epochs of the smart card are counted without bound.
- The other drawing orders, the parsing of a polygon's brush, and the header fields of a polyline.
- The credentials and the GSSAPI exchange around CredSSP requests.
- Sockets, TLS, windows, the clipboard, printing, licences and option parsing.
