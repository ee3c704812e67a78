# Nitro graphics codec, modelled in Dafny

This project models the Nintendo DS ("Nitro") graphics codec of hacktools. It covers these parts:

- **Palette banks (NCLR):** how many 16- or 256-colour palettes the header gives and what ids they are stored under.
- **Tile stores (NCGR):** 64-index tiles at 4 or 8 bits per pixel, and re-encoding an index image into them.
- **Placement:** where a tile's pixels land in tiled or linear addressing.
- **Screen maps (NSCR):** 16-bit entries naming a tile, two flips and a palette, and re-encoding a picture through the map.
- **Cell banks (NCER):** OAM attribute words, the shape-by-size table, the bank's bounding box and re-origin, the drawing order, the greedy layer pass and duplicate detection. Re-encoding a picture through the banks is covered too.
- **Model textures (TEX0 block of an NSBMD):** the texture and palette directories, palette sizes, texel data, and the per-format texel decode that draws a texture.
- **Font glyph table:** width entries, code-map sections and code-to-character decoding.
- **Binary patches:** the four-byte header of compressed files, the module-parameter patch of a compressed ARM9 binary, and the pointer rewrite that redirects a moved string.

## How the model is built

- **Files as byte sequences.** Files are `seq<byte>`; a short read is an `Err(ShortRead(..))` result rather than an exception.
- **Fixed offsets.** Every module reads its fields at the offsets the source seeks to.
- **Writes into arrays.** Writes into a file being patched become writes into an `array<byte>`. Each writing method is proved equal to a pure description of the whole run: `Schedule` lists the tiles written, in order, and `Outcome` applies them.
- **Drawing.** Drawing goes into an `array2` indexed `[x, y]`.
- **Loops stay loops.** Loops of the source are `for` and `while` loops, with invariants tying them to a recursive function over the rest of the input.
- **Behaviour proved about the functions.** The properties the code promises are lemmas about those functions: layers, duplicates, round trips, bounds and "nothing else changes".
- **Helpers outside the source files become parameters:**

  | Helper | Parameter |
  |---|---|
  | `common.readPalette` | `colour` |
  | `common.getPaletteIndex` on the picture | an index image `(x, y) -> byte`, chosen per palette |
  | `common.sumColors` | `blend` |
  | Shift-JIS decoding | `sjis` |
  | LZ10/LZ11 codecs | `Codecs` |

Several points of the code differ from a plain reading of its intent. The model follows the code in each:

- **writeNSCR flipped entries:** a flipped map entry skips the cell without moving on to the next entry. Every later cell then reads the same entry and writes nothing (`Nscr.FlippedEntryStalls`).
- **writeNSCR palettes:** the palette lookup has no fallback to palette 0, so a missing id raises.
- **Format 6 (A5I3) alpha:** it goes through the widening meant for three bits. On five bits it reaches 1112, which is not an 8-bit alpha (`Texels.Alpha3OnFiveBits`).
- **Tile count:** a tile store holds `tilelen // 32` tiles at 4 bpp, so eight payload bytes hold none.
- **Cell shape 3:** it sets no size of its own. The cell takes the size of the cell read before it, even one in an earlier bank. Before any cell it is an error (`UnboundCellSize`).
- **Font chains:** `getFontGlyphs` loops forever when the chain of code-map sections comes back to an offset it has seen. The model stops there with `EndlessChain`.

## Model

| member | source | states |
|---|---|---|
| Cells.ShapeSize | hacktools/nitro.py:339-367 | Width and height of shapes 0-2 are in {8, 16, 32, 64}; shape 0 is square, shape 1 wider than tall, shape 2 taller than wide |
| Cells.LowSigned | hacktools/nitro.py:314-320 | The low bits read as two's complement: in `[-half, half)` and congruent to the word |
| Cells.DecodeCell | hacktools/nitro.py:310-368 | y sign-extended from 8 bits into [-128, 127], x from 9 bits into [-256, 255]; shape and size fields below 4; tile offset below 0x400, priority below 4, palette below 16; shapes 0-2 take the table size; shape 3 takes the previous cell's size, and is an error when there is none |
| Cells.IntersectSymmetric | hacktools/nitro.py:427-428 | cellIntersect is symmetric |
| Cells.IntersectSameRect | hacktools/nitro.py:427-428 | Two cells on the same non-empty rectangle intersect |
| Cells.BoxBounds | hacktools/nitro.py:371-377 | The box holds every cell; each side is the start value or the matching side of some cell |
| Cells.BoundingBox | hacktools/nitro.py:371-377 | The min/max loop computes the box of the cells |
| Cells.Insert | hacktools/nitro.py:386 | Inserting a cell adds exactly that cell to the multiset |
| Cells.InsertDescending | hacktools/nitro.py:386 | Insertion keeps the list in non-increasing (priority, numcell) order |
| Cells.SortDescending | hacktools/nitro.py:386 | The drawing sort is a permutation of the cells |
| Cells.SortDescendingSorted | hacktools/nitro.py:386 | The drawing sort is non-increasing in (priority, numcell) |
| Cells.AscendingView | hacktools/nitro.py:386-389 | With distinct cell numbers, the reversed drawing order is strictly increasing and holds the same cells, so it is the ascending sort |
| Cells.ReverseAscending | hacktools/nitro.py:389 | Reversing a non-increasing list with distinct numbers gives a strictly increasing one |
| Cells.Hit | hacktools/nitro.py:397-402 | The inner loop finds a hit exactly when another cell on the current layer intersects cell j |
| Cells.AssignLayers | hacktools/nitro.py:390-408 | The layer loop produces the greedy layering; layernum is the last cell's layer plus one, or 0 for an empty bank |
| Cells.HitOpens | hacktools/nitro.py:396-402 | Since later cells have no layer yet, a hit is an overlap with an earlier cell on the last layer |
| Cells.GreedyStep | hacktools/nitro.py:403-408 | Placing a cell on a new layer after a hit, or on the current layer otherwise, extends the greedy layering |
| Cells.GreedyMonotone | hacktools/nitro.py:390-408 | Layers never decrease along the ascending view and grow by at most one per cell |
| Cells.GreedyNoOverlap | hacktools/nitro.py:394-408 | No two cells on the same layer intersect, in either order |
| Cells.GreedyUnique | hacktools/nitro.py:389-408 | The greedy rule fixes every cell's layer: two greedy layerings agree |
| Cells.SameRectOpensLayer | hacktools/nitro.py:398-408 | A second cell on the first cell's non-empty rectangle goes on layer 1 |
| Placement.SourceOfTarget | hacktools/nitro.py:437-443 | In both addressings, the pixel a tile pixel lands on maps back to that tile pixel |
| Placement.TargetOfSource | hacktools/nitro.py:437-443 | Every image pixel some tile pixel maps to is where that tile pixel lands |
| Placement.Paint | hacktools/nitro.py:434-446 | A pixel is painted exactly when the tile and pixel exist, transparency does not skip index 0, and the palette holds `pali + index` |
| Placement.DrawPixel | hacktools/nitro.py:434-446 | One pixel: in linear addressing with width 0 it raises ZeroDivision; otherwise only the target pixel changes, to the painted colour |
| Placement.TileToPixels | hacktools/nitro.py:431-447 | The 64 pixels drawn in reading order give every image pixel its drawn value; ZeroDivision exactly when linear, width 0 and some pixel reaches the division |
| Ncgr.Nibble | hacktools/nitro.py:237 | A nibble of a byte is below 16 |
| Ncgr.Pixel | hacktools/nitro.py:235-239 | At 4 bpp every unpacked index is below 16 |
| Ncgr.TileCount | hacktools/nitro.py:232 | The tile count is the number of whole 32-byte (4 bpp) or 64-byte (8 bpp) tiles in tilelen |
| Ncgr.PayloadBound | hacktools/nitro.py:227-232 | That many whole tiles fit in the payload exactly when their pixels do |
| Ncgr.UnpackTiles | hacktools/nitro.py:232-241 | Tile t has 64 entries, and entry k is payload pixel 64t+k: the low nibble first at 4 bpp, one byte at 8 bpp |
| Ncgr.ReadNcgr | hacktools/nitro.py:212-243 | The header words: depth 8 when the word at 28 is 4 and 4 otherwise; lineal when the low byte of the word at 36 is not 0; tilelen is the word at 40; width and height are the words at 26 and 24, times 8 unless the width is 0xFFFF. As many tiles as tilelen holds whole, all within the payload; entry k of tile t is payload pixel 64t+k. A file shorter than the header fails; with the whole header present, the only error is the index error of tiles that overrun the payload |
| Ncgr.PackPair | hacktools/nitro.py:566-571 | writeNCGRData emits one byte at 4 bpp and two at 8 bpp; at 4 bpp it fails, with a value of 256 or more, exactly when index2 does not fit in a nibble |
| Ncgr.PackedNibbles | hacktools/nitro.py:568 | `(index2 << 4) \| index1` has index1's low nibble below `index2 \| (index1 >> 4)`, and fits in a byte exactly when index2 is below 16 |
| Ncgr.PackPairSpill | hacktools/nitro.py:568 | An index1 of 16 or more is not refused: the low pixel reads back as index1 % 16 and the high one as `index2 \| (index1 >> 4)` |
| Ncgr.PackPairRoundTrip | hacktools/nitro.py:566-571 | With both indices in a nibble at 4 bpp, the pair is written, and unpacking it by readNCGR's rule gives the first index, then the second |
| Ncgr.PackDecodedPair | hacktools/nitro.py:566-571 | Packing the two pixels decoded from a pair's bytes gives those bytes back |
| Ncgr.DecodeAppendedPair | hacktools/nitro.py:566-571 | A pair appended to a payload decodes to its two indices at the next two pixels |
| Ncgr.WriteData | hacktools/nitro.py:566-571 | Succeeds exactly when PackPair does; then the pair's bytes are written at the stream position and no other byte changes; on the error nothing is written |
| Ncgr.WriteTileRow | hacktools/nitro.py:576-579 | One tile row, two pixels at a time: the row's packed bytes are written at the position; nothing else changes |
| Ncgr.WriteTile | hacktools/nitro.py:574-579 | writeNCGRTile writes the encoded tile at the position and changes nothing else |
| Ncgr.EncodeTile | hacktools/nitro.py:574-579 | An encoded tile takes exactly one tile's bytes |
| Ncgr.DecodeRowAt | hacktools/nitro.py:576-579 | Decoding what a row wrote gives the window's index at each column written |
| Ncgr.DecodeTileAt | hacktools/nitro.py:575-579 | Decoding the first rows written gives the window's index at each of their pixels |
| Ncgr.DecodeEncodedTile | hacktools/nitro.py:574-579 | Round trip: pixel 8 i2 + j2 of a tile writeNCGRTile wrote is the index at column j2 and row i2 of the window |
| Ncgr.EncodeDecodedPair | hacktools/nitro.py:576-579 | Pair k of a row of a window holding a tile's decoded pixels packs to the bytes those pixels came from |
| Ncgr.EncodeDecodedRow | hacktools/nitro.py:576-579 | The pairs of such a row encode to the row's bytes, and its indices fit the depth |
| Ncgr.EncodeDecodedRows | hacktools/nitro.py:575-579 | The first n rows of such a window encode to the tile's first n rows of bytes |
| Ncgr.EncodeDecodedTile | hacktools/nitro.py:574-579 | Round trip the other way: re-encoding a window that holds the indices decoded from a tile gives back the tile's bytes |
| Ncgr.EncodePayloadTile | hacktools/nitro.py:232-241 | The same for tile t of a payload: a window holding pixels 64t + 8 i2 + j2 encodes to bytes t * tile size onwards of the payload |
| Nscr.DecodeEntry | hacktools/nitro.py:260-264 | Every decoded entry has a tile below 0x400 and a palette below 16 |
| Nscr.DecodeSigned | hacktools/nitro.py:260-264 | Reading the word as signed (`<h`) gives the same fields as reading it unsigned |
| Nscr.EntryRoundTrip | hacktools/nitro.py:261-264 | Decoding an entry's 16-bit word gives the entry back |
| Nscr.WordRoundTrip | hacktools/nitro.py:261-264 | Encoding a decoded word gives the word back: the four fields account for all 16 bits |
| Nscr.ReadNscr | hacktools/nitro.py:246-267 | Succeeds exactly when the header is present and the map data read has even length; width, height and maplen are the words at 24, 26 and 32; one decoded entry per 2 bytes of the maplen bytes read from 36 |
| Nscr.ScheduleWritesOnce | hacktools/nitro.py:604-616 | The donetiles rule: no tile is written twice, and none already done |
| Nscr.ScheduleFromMap | hacktools/nitro.py:606-617 | Every tile written is the tile of an unflipped map entry, with that entry's palette, at a cell of the grid |
| Nscr.FlippedEntryStalls | hacktools/nitro.py:608-617 | Once map entry x is flipped, every later cell reads entry x again and nothing more is written |
| Nscr.UnflippedRowInOrder | hacktools/nitro.py:606-617 | With no flips and enough entries, cell j is served by entry j, and no lookup runs past the map |
| Nscr.ScheduleReaches | hacktools/nitro.py:606-617 | Completeness: with no flipped entry up to the one serving cell (ci, cj), that entry's tile, if neither done nor the tile of an earlier entry, is written at that cell with its palette |
| Nscr.DefaultHeightWritesNothing | hacktools/nitro.py:596-606 | Called with its default height of -1, writeNSCR writes nothing |
| Nscr.WriteCell | hacktools/nitro.py:608-617 | One cell of the loop carries out the schedule from that cell on |
| Nscr.WriteNscr | hacktools/nitro.py:596-617 | The buffer after writeNSCR, and its error, are those of the schedule applied in order |
| Nclr.PalLen | hacktools/nitro.py:185-187 | A zero or oversized pallen falls back to the section length minus 0x18 |
| Nclr.ColorNum | hacktools/nitro.py:189-191 | 16 colours at 4 bpp and 256 at 8 bpp, capped at pallen // 2 |
| Nclr.PaletteCount | hacktools/nitro.py:195 | `pallen // (colornum * 2)` palettes, negative meaning none; division by zero when colornum is 0 |
| Nclr.Words | hacktools/nitro.py:197-198 | n words read in order: word k is the little-endian word at p + 2k; fails exactly when they run past the file |
| Nclr.Palettes | hacktools/nitro.py:195-199 | count palettes of colornum words each |
| Nclr.PalettesLayout | hacktools/nitro.py:194-199 | Palettes lie back to back: colour k of palette i is the word at p + 2 colornum i + 2k; reading stops right after the last |
| Nclr.PalettesOk | hacktools/nitro.py:194-199 | The palette reads succeed exactly when the whole block fits in the file |
| Nclr.IndexMap | hacktools/nitro.py:203-205 | The keys of the dictionary are exactly the ids read |
| Nclr.IndexMapSnoc | hacktools/nitro.py:205 | Storing one more (id, palette) pair updates the dictionary at that id |
| Nclr.IndexMapLastWins | hacktools/nitro.py:203-205 | An id is stored with the last palette that names it |
| Nclr.IndexMapSequential | hacktools/nitro.py:207 | Without an index, the ids are exactly 0 .. n-1, each with its own palette |
| Nclr.IndexMapContents | hacktools/nitro.py:203-205 | The ids read are the keys, and an id keeps the last palette that names it |
| Nclr.ReadHeader | hacktools/nitro.py:179-188 | The header reads succeed exactly when the file has 40 bytes; the depth is 4 or 8 |
| Nclr.ReadBank | hacktools/nitro.py:179-199 | A short file fails; colornum 0 fails with ZeroDivision |
| Nclr.NclrPalettes | hacktools/nitro.py:175-209 | A failing header or palette read is the error readNCLR raises |
| Nclr.BankLayout | hacktools/nitro.py:189-199 | The bank holds `pallen // (colornum * 2)` palettes of colornum colours, read back to back from 0x18 + offset |
| Nclr.BankFits | hacktools/nitro.py:194-199 | Reading the bank succeeds exactly when its palette data lies inside the file |
| Nclr.SequentialBank | hacktools/nitro.py:206-207 | Without an index section, palette i is stored under id i, and there are no other ids |
| Nclr.IndexedBank | hacktools/nitro.py:201-205 | With an index section, the ids are the words 16 bytes past the palettes: the read succeeds exactly when they can be read, they are the keys, and an id keeps the last palette naming it |
| Nclr.ReadPalette | hacktools/nitro.py:197-198 | The colour loop reads the palette's words and moves the stream on by 2 colornum |
| Nclr.ReadPalettes | hacktools/nitro.py:195-199 | The palette loop reads the palettes |
| Nclr.ReadIndex | hacktools/nitro.py:202-205 | The index loop builds the dictionary from the ids it reads |
| Nclr.NumberPalettes | hacktools/nitro.py:207 | The comprehension numbers the palettes 0 .. n-1 |
| Nclr.ReadNclr | hacktools/nitro.py:175-209 | readNCLR returns the palettes by id as the functions define them |
| Ncer.ReadHeader | hacktools/nitro.py:274-279 | The header fields come from offsets 24-40, blocksize keeping the low byte of its word; fails exactly when the file is shorter |
| Ncer.PartitionPairs | hacktools/nitro.py:290-292 | n (offset, size) word pairs read in order at p + 8k; fails exactly when they run past the file |
| Ncer.Partitions | hacktools/nitro.py:285-292 | One partition per bank; without a partition table, every bank keeps (0, 0) |
| Ncer.CellsAfterHeaders | hacktools/nitro.py:307-308 | The seek past the remaining bank headers puts every bank's cells at celloffset past the end of all headers |
| Ncer.ReadBankHeader | hacktools/nitro.py:297-306 | Cell count, info and offset at the header's position; when tbank is 1, the signed extent gives width xmax - xmin + 1 and height ymax - ymin + 1; a fresh bank otherwise |
| Ncer.DecodeCells | hacktools/nitro.py:309-369 | count cells numbered in order, on no layer yet, each size from the table |
| Ncer.CellAt | hacktools/nitro.py:310-368 | One cell, six bytes: fails exactly when the words run past the file, or on shape 3 with no earlier size |
| Ncer.ReadCell | hacktools/nitro.py:310-368 | One turn of the cell loop decodes that cell |
| Ncer.ReadCells | hacktools/nitro.py:309-369 | The cell loop reads the bank's cells |
| Ncer.RawBanks | hacktools/nitro.py:294-369 | One bank per count; each holds cellnum cells numbered in order |
| Ncer.ReadBanks | hacktools/nitro.py:295-369 | The bank loop reads every bank's header and cells |
| Ncer.ReadPartitions | hacktools/nitro.py:285-292 | The partition loop reads the table |
| Ncer.RawNcer | hacktools/nitro.py:270-369 | banknum banks, each as read; a file shorter than the header fails |
| Ncer.Placed | hacktools/nitro.py:371-383 | The size pass keeps the cell count |
| Ncer.PlacedBounds | hacktools/nitro.py:371-383 | After re-origin, every cell has x >= 0 and y >= 0 and some cell has x = 0 (likewise y); for tbank 0 every cell lies within the bank's width and height |
| Ncer.GreedyRelabel | hacktools/nitro.py:392-408 | Writing the layers onto the cells keeps the layering greedy |
| Ncer.LayeredBack | hacktools/nitro.py:389-408 | Layers computed on the ascending view and written back onto the drawing order keep that order; the first drawn cell holds the highest layer |
| Ncer.FinishBank | hacktools/nitro.py:370-408 | One bank: box, re-origin, the drawing sort, then greedy layers; the bank's cell count is kept |
| Ncer.LayerCells | hacktools/nitro.py:389-408 | The layer pass keeps the sorted cells and lays them out greedily; layernum is the highest layer plus one, or unchanged for an empty bank |
| Ncer.SameCells | hacktools/nitro.py:416-420 | The comparison is true exactly when both banks have the same (width, height, tileoffset) at every index |
| Ncer.FindDuplicates | hacktools/nitro.py:409-422 | Bank k is marked duplicate exactly when some earlier bank has as many cells and the same outlines at every index of its sorted list |
| Ncer.FinishBanks | hacktools/nitro.py:295-408 | Every bank is arranged from its raw form |
| Ncer.ReadNcer | hacktools/nitro.py:270-424 | readNCER succeeds exactly when the raw read does; the banks are arranged and then marked |
| Ncer.LayeredNoOverlap | hacktools/nitro.py:394-408 | No two distinct cells of a bank on one layer intersect |
| Ncer.LayeredRange | hacktools/nitro.py:390-408 | The last cell drawn (the first in ascending order) is on layer 0; every layer lies between 0 and the first drawn cell's layer |
| Ncer.ArrangedView | hacktools/nitro.py:386-389 | The cells are non-increasing in drawing order and strictly ascending reversed |
| NcerWrite.ScheduleWritesOnce | hacktools/nitro.py:669-671 | The donetiles rule: no tile is written twice, and none already done |
| NcerWrite.GridWritesOnce | hacktools/nitro.py:667-679 | The same, from any position of a cell's tile grid |
| NcerWrite.ScheduleFromJobs | hacktools/nitro.py:660-679 | Each tile written is tile `first + i * cols + j` of some job, taken from the job's image window at (i, j), with the job's palette |
| NcerWrite.GridFromJobs | hacktools/nitro.py:667-679 | The same, from any position of a job's grid |
| NcerWrite.GridReaches | hacktools/nitro.py:667-679 | Completeness within a job: every grid position at or after the current one whose tile is not done is written from its window against the job's palette |
| NcerWrite.GridDoneBound | hacktools/nitro.py:667-679 | A job's grid marks done only tiles from its counter up to its last position |
| NcerWrite.GridKeepsRest | hacktools/nitro.py:660-679 | The writes of the later jobs stay in the schedule after a job's grid |
| NcerWrite.ScheduleReaches | hacktools/nitro.py:660-679 | Completeness: with the palettes of job a and the jobs before it found, position (ii, jj) of job a is written from its window, unless its tile is done or inside an earlier job's tile range |
| NcerWrite.CellJobsFrom | hacktools/nitro.py:654-660 | Every job of a bank comes from an unmirrored cell, with first tile `partitionoffset // (32 * (bpp // 4)) + (tileoffset << (blocksize // (bpp // 4)))` |
| NcerWrite.BankJobsFrom | hacktools/nitro.py:632-680 | Every job comes from an unmirrored cell of a bank that is not empty or a duplicate, drawn at the running height of the banks before it |
| NcerWrite.WriteGridTile | hacktools/nitro.py:669-679 | One grid position does what the schedule says from there on |
| NcerWrite.WriteJob | hacktools/nitro.py:660-679 | One cell: palette pick, then its grid, as the schedule says |
| NcerWrite.WriteBank | hacktools/nitro.py:654-679 | The cells of one bank, as the schedule says |
| NcerWrite.WriteNcer | hacktools/nitro.py:620-680 | The buffer after writeNCER, and its error, are those of the schedule of all banks applied in order |
| Nsbmd.ReadHeader | hacktools/nitro.py:724-756 | No texture block when the offset word is MDL0's; otherwise every offset is absolute (stored value plus block offset) and the texture count is the byte at block offset + 61 |
| Nsbmd.DecodeParam | hacktools/nitro.py:765-767 | Format below 8; width and height are 8 << k, so at least 8 and multiples of 8 |
| Nsbmd.ParamFields | hacktools/nitro.py:765-767 | Format from bits 10-12, width exponent from 4-6, height exponent from 7-9, whatever the other bits hold |
| Nsbmd.Format5Counts | hacktools/nitro.py:811-822 | A format-5 texture reads (w/4)(h/4) data words and (w/4)(h/4) descriptors |
| Nsbmd.TexDef | hacktools/nitro.py:760-773 | A directory entry reads when its four bytes lie in the file |
| Nsbmd.TexDefs | hacktools/nitro.py:757-773 | n entries, 8 bytes apart; fails exactly when the last runs past the file |
| Nsbmd.ReadTexDefs | hacktools/nitro.py:757-773 | The directory loop reads the entries |
| Nsbmd.PalOffsets | hacktools/nitro.py:779-784 | Palette i starts at 8 times its directory word plus the palette data offset |
| Nsbmd.ReadPalOffsets | hacktools/nitro.py:779-784 | The palette directory loop reads those offsets |
| Nsbmd.NextOffset | hacktools/nitro.py:788-790 | The scan stops at the first later palette whose offset differs, or at the end |
| Nsbmd.PaletteSizes | hacktools/nitro.py:786-795 | The size loop, including the assignment after it, gives every palette's size |
| Nsbmd.LastPaletteSize | hacktools/nitro.py:786-795 | The last palette runs to the block limit, so the assignment after the loop changes nothing |
| Nsbmd.SharedOffsetSharedSize | hacktools/nitro.py:786-795 | Palettes at one offset get one size |
| Nsbmd.PalettesDoNotOverlap | hacktools/nitro.py:786-795 | With ascending offsets, every size is non-negative and a palette ends before any later offset |
| Nsbmd.PalData | hacktools/nitro.py:801-805 | Each palette holds size // 2 words from its offset |
| Nsbmd.ReadPalData | hacktools/nitro.py:801-805 | The palette data loop reads them |
| Nsbmd.Quads | hacktools/nitro.py:821-822 | n 32-bit words read in order at p + 4k; fails exactly when they run past the file |
| Nsbmd.ReadQuads | hacktools/nitro.py:821-822 | The word loop reads them |
| Nsbmd.FillTexture | hacktools/nitro.py:809-824 | Format 5 reads size // 4 words and size >> 1 bytes of descriptors, failing when either runs short; other formats read up to size bytes and never fail |
| Nsbmd.TexData | hacktools/nitro.py:807-824 | Every texture is filled with its data, in order |
| Nsbmd.FillStep | hacktools/nitro.py:809-816 | One texture, with the descriptor position moved on by size >> 1 for format 5 |
| Nsbmd.ReadTexData | hacktools/nitro.py:807-824 | The texture data loop fills the textures |
| Nsbmd.Block | hacktools/nitro.py:749-825 | The block parsed after its header has that header, its directory's textures filled, and the palettes of its palette section |
| Nsbmd.PalettesRead | hacktools/nitro.py:751-805 | What the palette loops read is the palette section: count from the byte at paldefoffset + 1, palette k from directory entry k, holding size_k // 2 words |
| Nsbmd.EntriesFromParts | hacktools/nitro.py:779-805 | Palettes read at the offsets of the directory loop, counted by the byte at paldefoffset + 1 and sized as the size loop says, are the palette section: palette k starts at 8 times the word at paldefoffset + 16 + 4 palnum + 4k, plus paldataoffset |
| Nsbmd.SizesFromParts | hacktools/nitro.py:785-796 | Palettes carrying the sizes of the size loop are sized as the directory says: each up to the next differing offset, the last one up to the block's end |
| Nsbmd.PalDataOffsets | hacktools/nitro.py:801-805 | The palettes the data loop reads start at the offsets it was given, carry the sizes it was given, and hold the words read from there |
| Nsbmd.Parse | hacktools/nitro.py:720-825 | No model exactly when the word at 20 is MDL0's; otherwise the header read from the file, the directory's textures with their data, and the palette section's palettes: as many as the byte at paldefoffset + 1, palette k at 8 times its directory word plus paldataoffset, with size_k // 2 words |
| Nsbmd.ReadNsbmd | hacktools/nitro.py:720-825 | The reader returns what Parse gives |
| Nsbmd.ReadBlock | hacktools/nitro.py:749-825 | The block reader returns what Block gives |
| Nsbmd.EntryTexture | hacktools/nitro.py:760-773 | A filled entry has the entry's format, width, height and size, and its offset from the texel or compressed-texel base |
| Nsbmd.DirectoryTexture | hacktools/nitro.py:757-773 | Texture k of a parsed block has the fields directory entry k gives |
| Nsbmd.DirectoryShape | hacktools/nitro.py:757-773 | Texture k of a parsed block has the format, width, height and size of a decoded directory parameter whose sides are multiples of 8, with data as the reader fills it: one word and one descriptor per 4x4 block in format 5, at most its size otherwise |
| Texels.Prepare | hacktools/nitro.py:829-836 | The texture's own palette, or palette 0 past the end; no palette for format 7; the canvas is 40 wider, and tall enough for the texture and the palette strip; an error when the texture or a needed palette is missing |
| Texels.Alpha3Range | hacktools/nitro.py:844-845 | The A3I5 alpha is a multiple of 8 up to 248, 0 for 0 and 248 for 7 |
| Texels.Alpha3OnFiveBits | hacktools/nitro.py:927-928 | The A5I3 alpha grows with its field and reaches 1112 at 31: the formula does not give an 8-bit value |
| Texels.DirectColourRoundTrip | hacktools/nitro.py:938-939 | Direct colour: each channel is a multiple of 8 up to 248, alpha is 0 or 255, and packing the colour gives the 16-bit word back |
| Texels.Texel | hacktools/nitro.py:839-939 | A texel errors exactly when the data index it needs is past the data |
| Texels.Compressed | hacktools/nitro.py:898-918 | Modes 0 and 2, and texels 0 and 1 of any mode, take palette entry `pali + texel`, except mode 0 texel 3 |
| Texels.BlockTexel | hacktools/nitro.py:882-920 | A block texel errors exactly when the block's data word or descriptor is missing |
| Texels.Pixel | hacktools/nitro.py:838-939 | Outside the drawn area nothing is drawn; inside it, a pixel errors exactly when its data is missing; compressed texels always draw |
| Texels.SoundIffComplete | hacktools/nitro.py:838-939 | A texture draws to the end exactly when its data holds what its size asks for |
| Texels.LinearReads | hacktools/nitro.py:839-878 | Every texel reads within the texture's size, and the last texel reads its last byte |
| Texels.BlockReads | hacktools/nitro.py:882-888 | Every block index is below the block count, and the last block reads the last |
| Texels.BlockPixel | hacktools/nitro.py:892-896 | Texel (r, c) of block (y, x) is pixel (4x + c, 4y + r) |
| Texels.ReadTextureDraws | hacktools/nitro.py:818-824 | A texture as readNSBMD leaves it draws to the end exactly when it is compressed or its read returned size bytes |
| Texels.DirectoryTextureDraws | hacktools/nitro.py:818-824 | The same for texture k of any filled directory |
| Texels.DecodedTextureDraws | hacktools/nitro.py:818-824 | The same for a texture shaped by its directory parameter |
| Texels.DrawBlock | hacktools/nitro.py:892-920 | One block sets its 16 pixels to their texels and changes nothing else |
| Texels.DrawBlocks | hacktools/nitro.py:881-920 | The block loop finishes exactly when no block's word or descriptor is missing, and then the canvas shows every texel |
| Texels.DrawTexels | hacktools/nitro.py:838-939 | The texel loop finishes exactly when no texel's data is missing, and then the canvas shows every texel |
| Texels.DrawNsbmd | hacktools/nitro.py:828-939 | drawNSBMD fails exactly when the frame cannot be prepared or a texel's data is missing; otherwise a fresh canvas of the frame's size shows the texture |
| Font.OneByteCodes | hacktools/nitro.py:69-75 | A code below 128 is that ASCII character; 128-255 give ""; two one-byte codes collide exactly when equal or both 128 or more |
| Font.Metrics | hacktools/nitro.py:37-42 | Width entry k is the signed start, width and length at p + 3k; fails exactly when they run past the file |
| Font.ReadMetrics | hacktools/nitro.py:37-42 | The width loop reads those entries |
| Font.Widths | hacktools/nitro.py:13-42 | The section offsets are the words at 32, 36 and 40; a glyph-section offset below 4 is a negative seek; the glyph count is (plgcsize - 0x10) // tilelength, with tilelength non-zero; width entry k is the signed start, width and length at hdwcoffset + 8 + 3k |
| Font.DirectOk | hacktools/nitro.py:52-56 | A type-0 section succeeds exactly when its last code still has a width entry |
| Font.DirectKeeps | hacktools/nitro.py:52-56 | A character no code of the section decodes to keeps its glyph, or its absence |
| Font.DirectGlyph | hacktools/nitro.py:52-56 | Code first + k gets width entry firstcode + k, unless a later code of the section decodes to the same character |
| Font.ApplyDirect | hacktools/nitro.py:52-56 | The type-0 loop does what the section function does |
| Font.TableOk | hacktools/nitro.py:57-63 | A type-1 section succeeds exactly when its whole table can be read |
| Font.TableKeeps | hacktools/nitro.py:57-63 | A character no mapped code decodes to is left as it was; 0xFFFF and out-of-range words are skipped |
| Font.TableGlyph | hacktools/nitro.py:57-63 | A mapped code gets the width entry its table word names, unless a later mapped code decodes to the same character |
| Font.ApplyTable | hacktools/nitro.py:57-63 | The type-1 loop does what the section function does |
| Font.ApplySection | hacktools/nitro.py:46-65 | A section is read by its type; an unknown type adds nothing |
| Font.SelfLinkedSection | hacktools/nitro.py:44-50 | A section that links to itself makes the loop endless |
| Font.DirectKeyed | hacktools/nitro.py:52-56 | Type-0 sections keep every glyph under the character of its own code |
| Font.TableKeyed | hacktools/nitro.py:57-63 | Type-1 sections keep every glyph under the character of its own code |
| Font.ChainKeyed | hacktools/nitro.py:44-66 | The whole section chain keeps every glyph under the character of its own code |
| Font.FontGlyphs | hacktools/nitro.py:11-66 | Every glyph's code is 16-bit and decodes to the character it is stored under |
| Font.ReadWidths | hacktools/nitro.py:13-42 | The header reads and the width loop |
| Font.GetFontGlyphs | hacktools/nitro.py:11-66 | getFontGlyphs returns the glyph table as the functions define it |
| NdsCompression.ValueInjective | hacktools/nds.py:174-181 | Distinct compression types have distinct type bytes |
| NdsCompression.Compress | hacktools/nds.py:201-216 | compress writes the type byte, the three low bytes of the length (low first), then the payload |
| NdsCompression.HeaderFields | hacktools/nds.py:185-187 | The header word splits into a type below 0x100 and a length below 2^24 that rebuild it |
| NdsCompression.Decompress | hacktools/nds.py:184-198 | decompress fails exactly when the four header bytes are missing |
| NdsCompression.HeaderRoundTrip | hacktools/nds.py:185-207 | Reading back compress's header gives the type and the length modulo 2^24 |
| NdsCompression.CompressRoundTrip | hacktools/nds.py:184-214 | decompress of what compress wrote gives the data back: unchanged for types without a codec, through the codec for LZ10 and LZ11 |
| NdsCompression.DecompressFileDropsTail | hacktools/nds.py:219-223 | decompressFile as written loses the last four bytes of what compressFile wrote, for a type without a codec and data of 4 bytes or more |
| NdsCompression.DecompressFileKeepsShort | hacktools/nds.py:186-190 | Data of fewer than 4 bytes survives decompressFile as written: the read count is negative, so the whole payload is read |
| NdsCompression.FileRoundTrip | hacktools/nds.py:219-230 | decompressFile with the whole file as the compressed length undoes compressFile |
| NdsBinary.WriteU32 | hacktools/nds.py:251 | pack_into writes the four little-endian bytes and nothing else |
| NdsBinary.SpliceReads | hacktools/nds.py:251 | The patched word reads back as the value written |
| NdsBinary.FirstMagic | hacktools/nds.py:246-249 | The search finds the first 4-aligned position below 0x8000 holding the magic bytes, and no earlier one holds them |
| NdsBinary.Patched | hacktools/nds.py:250-251 | The patch writes 0x02000000 + len at codeoffset + 0x14 only when codeoffset > 0 and changes no other byte; it fails only when that value overflows 32 bits |
| NdsBinary.FindCodeOffset | hacktools/nds.py:245-249 | The search loop gives the offset 0x1C before the magic, or 0 |
| NdsBinary.CompressBinary | hacktools/nds.py:245-251 | The search and the patch, in place; a failed pack leaves the data unchanged |
| NdsBinary.Find | hacktools/nds.py:159 | find gives the first occurrence from start on, or -1 when there is none |
| NdsBinary.Scan | hacktools/nds.py:156-165 | Every hit is an occurrence of the old pointer, each four bytes or more past the one before |
| NdsBinary.ScanCovers | hacktools/nds.py:156-165 | Every occurrence from the start index on is hit or overlaps a hit |
| NdsBinary.ScanFindsAll | hacktools/nds.py:156-165 | Every occurrence of the old pointer in the scanned bytes is hit or overlaps a hit |
| NdsBinary.RewriteAt | hacktools/nds.py:163-164 | With non-overlapping hits, a byte inside a hit holds the new bytes and any other byte is unchanged |
| NdsBinary.HitReads | hacktools/nds.py:154-165 | After the rewrite, every hit holds the new pointer's four bytes |
| NdsBinary.OthersKept | hacktools/nds.py:154-165 | The rewrite changes no byte outside the hits |
| NdsBinary.RewritePointer | hacktools/nds.py:154-165 | The loop writes the new pointer at every hit of the scan over the original bytes |

## Left out

- File and stream plumbing is left out: `common.Stream`, `os.path` checks, `Image.open`/`save`, `ImageOps` flips, PSD layers, the `magick` merge and logging. Files are byte sequences, pictures are index images, and outputs are arrays.
- readNitroGraphic, drawNCER and drawNCGR are not modelled. They only combine the readers with `tileToPixels` and image calls, which are modelled or out of reach.
- writeNCGR is not modelled beyond writeNCGRTile and writeNCGRData, which it only calls.
- The PSD path of writeNCER is left out. Only the path that reads a flat picture is modelled.
- `common.writeByte` is not part of this model. A value above 255 is taken to be refused, as `struct.pack` refuses it for a byte, before anything is written (Ncgr.PackPair).
- `common.readPalette`, `common.getPaletteIndex`, `common.sumColors` and `common.drawPalette` are not part of this model. The first three are parameters; the palette strip drawNSBMD adds is left out, and so is `img.save`.
- Palettes of NCLR banks are kept as raw 16-bit words, without the RGBA conversion.
- Texels.Alpha3OnFiveBits: what PIL does with an alpha above 255 in format 6 is out of reach. Only the integer expression is modelled.
- Texels.DrawNsbmd: the error is an index error. The warning messages and the exception text are not modelled.
- Names read with `readString` (textures and palettes of NSBMD) are left out. They only feed logging and file names.
- Shift-JIS decoding in codeToChar is a parameter, being a foreign codec.
- The font header's fontwidth, fontheight and the HDWC first and last codes are read but unused by the source, and are left out.
- Font.GetFontGlyphs: where the source loops forever on a section chain that comes back to an offset it has seen, the model stops with `EndlessChain`.
- The LZ10 and LZ11 codecs and ndspy's code compression are parameters (`Codecs`) or left out. Only the framing around them is modelled.
- NdsBinary.RewritePointer takes the old and new pointers as 32-bit values. The `struct.pack` error for a value past 32 bits is left out, and the output must be at least as long as the scanned bytes.
- The rest of repackBinaryStrings is left out: string detection, free ranges and the string writes. So are extractRom, repackRom, editBannerTitle and extractBinaryStrings.
- Ncgr.WriteData, Ncgr.WriteTileRow, Ncgr.WriteTile, Nscr.WriteNscr and NcerWrite.WriteNcer write into a fixed-size buffer. A write past its end is an index error, where the file would grow.
- Ncgr.WriteTileRow: requires the row's indices to fit in a nibble at 4 bpp (FitsRow), where writeNCGRTile passes no cap to getPaletteIndex. A larger index would stop the row part way with PackPair's error, or spill as PackPairSpill shows; that is modelled for one pair only.
- Ncgr.WriteTile: requires the same of the whole window (FitsWindow), for the same reason.
- Ncgr.EncodeTile: requires FitsWindow too, and so describes only tiles whose indices fit the depth.
- Nscr.WriteNscr: requires every index image to fit the depth (FitsImage), where writeNCGRTile passes no cap.
- NcerWrite.WriteNcer: requires the quantiser to fit the depth (Fits); writeNCER passes a cap of 16 at 4 bpp, whose effect inside getPaletteIndex is out of reach.
- Ncgr.WriteTile: the index image is a total function to bytes. Indices above 255 at 8 bpp are not modelled, and neither is PIL's IndexError for a window past the picture's edge.
- Nscr.ScheduleFromMap: states soundness only; completeness is stated by the two lemmas beside it. Nscr.ScheduleReaches covers every cell up to the first flipped entry. After that entry nothing more is written (Nscr.FlippedEntryStalls), because `continue` skips `x += 1` and every later cell reads the same flipped entry.
- Placement.TileToPixels requires a non-negative width. Python's negative indices of PIL pixel access are out of reach.
- Placement.Target: the linear row `int(math.floor(lineal / width))` (hacktools/nitro.py:440) is a float division in the source and an integer division here. The two agree while `lineal` stays far below 2^53, as it does for any image the files' 16- and 32-bit sizes describe. Only near that bound could the float quotient round up to the next integer.

## Findings

| source | as written | input that shows it | evidently intended | confidence | as-written member | corrected member |
|---|---|---|---|---|---|---|
| hacktools/nds.py:219-223 | decompressFile passes `insize - 4` as the compressed length, and decompress reads `complength - 4` payload bytes: eight bytes are taken off a file whose header takes four, so for a file of 8 bytes or more (data of 4 bytes or more) the last four bytes are lost | compressFile of the bytes `[1, 2, 3, 4]` with type RLE gives `[0x30, 4, 0, 0, 1, 2, 3, 4]`; decompressFile then returns `[]` | the compressed length is the whole file, so the payload is everything after the header | not executed | NdsCompression.DecompressFileAsWritten, NdsCompression.DecompressFileDropsTail | NdsCompression.DecompressFile, NdsCompression.FileRoundTrip |
