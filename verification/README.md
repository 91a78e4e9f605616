# The framebuffer pipeline and the player of the FPGA media demo

The firmware runs on a Nios II processor beside a VIP frame reader that puts a buffer in memory
on the screen.  This project models the part of it that computes:

* images exported from GIMP are converted between pixel formats (`gimp_bmp.c`) and blitted into
  a frame, perhaps with a transparent colour (`draw_gimps.c`);
* strings are laid out and printed with alpha-blended glyphs (`simple_text.c`), and sloped lines
  drawn with Bresenham's algorithm (`simple_graphics.c`);
* two frames are flipped, the background is copied from one to the other, with `memcpy` or a
  chain of DMA descriptors, and the device's registers mirror the driver's fields (`vip_fr.c`);
* two tasks of different priority run an audio player: one sends blocks of a song, the other
  changes flags when buttons are clicked (`hello_ucosii.c`).

Memory is an array of bytes, written in place by methods that have the loops, running pointers
and branches of the C code.  Each method is proved equal to a function of the old memory, and the
theorems are about those functions.  What each drawing operation, copy, register and block comes
to is also stated without them, byte by byte: in the source's own constants, array indices and
addresses.

| module | what it holds |
|---|---|
| `Arithmetic`, `Bytes`, `Bits` | products, little-endian words, stretches of memory, shifts and masks |
| `Raster` | the row-by-row, column-by-column loop all pixel routines share, and what it does to one cell |
| `Painter` | rectangles drawn one after another on a frame, seen pixel by pixel |
| `GimpBmp`, `DrawGimps`, `KeyedBlits`, `DisplayImage` | from the exported image to the screen |
| `Blending`, `SimpleText`, `TextLayout`, `TextPlacement`, `TextShown`, `TextInBytes` | from the string to the screen |
| `DrawFrame`, `SlopedLine` | the frame text and lines are drawn on, and lines from their end points to the screen |
| `Copying`, `FrameReader` | DMA, registers, double buffering |
| `Playback`, `Preemption`, `Listening` | the player's two tasks, alone and interleaved, and what is heard |

Some of the results differ from what one might expect of the code:

* The clips in `alpha_blending` never take effect, at any depth (`Blending.ClipsIdle`).
* `DispIMAGE_from_gimp` and `DispIMAGE_fit` draw an RGBA image with red and blue exchanged with
  respect to its RGB export (`DisplayImage.RgbaSwapsRedAndBlue` says for which pixels that shows).
* `w_fit` and `h_fit` are inclusive, so a fit of 0 draws one column (`DrawGimps.BlitClips`).
* Images are drawn on the frame on the screen, text on the other one.  `main` passes the same
  address for both frames, which makes them one; then drawing shows at once
  (`FrameReader.SteadyIffDisjoint`).
* The order in which `task2` writes the three flags does not matter: whatever mixture of old and
  new flags `task1` finds, it acts as before the click, as after it, or not at all
  (`Preemption.MixtureActsAsEither`).
* Playback goes round and round without gap or repeat, for all songs of a size, if and only if the
  size divides 1000 (`Playback.LoopsIff`, and over whole runs `Listening.HeardLoopsIff`).  The song's
  opening block is sent twice at each restart if and only if the size is a multiple of 1000 or divides
  it (`Playback.OpeningIsSentTwice`); `readbin.m` writes multiples of 44000, so that happens with
  every song it makes.  When the size neither is a multiple of 1000 nor divides it, some block reaches
  past the end of the song (`Playback.ReadsStayInside`).
* A newly chosen song need not start at its beginning (`Listening.HastySwitch`).  In any run the next
  block starts there exactly if the counter was 0 when the song was chosen, or `task1` has since
  iterated at a moment when the stop flag was up and the other two were down
  (`Listening.NextBlockStartsOverIff`).  It is enough that `task1` iterates between clicks
  (`Listening.ChosenSongStartsOver`).
* Lines of a bitmap wider than the frame overlap on it.  The blit with a transparent colour equals the
  one without, on every memory, if and only if each pixel of that colour is drawn over by a later one
  of another colour (`KeyedBlits.KeyMatters`).
* If the driver of the DMA controller takes the place to read as its third argument and the place to
  write as its fourth, `my_memcpy` copies the draw frame to the screen instead of the other way round
  (`Copying.DmaMemCpy`, `FrameReader.ReversedCopyShows`).  ENABLE_DMA is not defined in `vip_fr.c`.

Conventions: bytes are integers from 0 to 255 and 32-bit values integers that `ToU32` reduces;
bitmap dimensions are cut to a `short` as the C struct does.  The colour that
`vid_print_char_alpha` leaves uninitialised has an arbitrary top byte, called `stale`; results
about text speak of the red, green and blue channels.  A list of stamps is a list of rectangles,
each with a function from the row, the column and the present bytes of a pixel to its new bytes.

## Model

| member | source | states |
|---|---|---|
| `Raster.RowsCell` | src/software/dvc_code/graphic_lib/gimp_bmp.c:112-124 | after a strided loop nest every byte of every cell is what the cell function makes of the bytes that cell held before the loops began, so no cell is touched twice or read late |
| `Raster.RowsFrame` | src/software/dvc_code/graphic_lib/gimp_bmp.c:112-124 | a byte that lies in none of the rows keeps its value |
| `Raster.RowsClip` | src/software/dvc_code/graphic_lib/draw_gimps.c:57-59 | cells whose write is suppressed below or right of a rectangle may be left out of the loops |
| `GimpBmp.CopyPixMap` | src/software/dvc_code/graphic_lib/gimp_bmp.c:96-319 | the six routines, with their two running pointers per row, leave in the destination the reformatted pixel of each source row and column, at each line width |
| `GimpBmp.ConvertLine` | src/software/dvc_code/graphic_lib/gimp_bmp.c:304-315 | the inner loop's line pointers walk the cells of one row of either buffer |
| `GimpBmp.Pixel32To32` | src/software/dvc_code/graphic_lib/gimp_bmp.c:118-120 | one pixel copied whole, pointers advanced by 4 and 4 |
| `GimpBmp.Pixel32To24` | src/software/dvc_code/graphic_lib/gimp_bmp.c:150-158 | three bytes kept in order, the fourth skipped |
| `GimpBmp.Pixel32To16` | src/software/dvc_code/graphic_lib/gimp_bmp.c:190-198 | the leading bits of the first three bytes, packed 5-6-5 |
| `GimpBmp.Pixel24To32` | src/software/dvc_code/graphic_lib/gimp_bmp.c:228-238 | the three bytes in reverse order and 0xff on top |
| `GimpBmp.Pixel24To24` | src/software/dvc_code/graphic_lib/gimp_bmp.c:268-276 | the three bytes in order |
| `GimpBmp.Pixel24To16` | src/software/dvc_code/graphic_lib/gimp_bmp.c:306-314 | the leading bits of the three bytes, packed 5-6-5 |
| `GimpBmp.PackedWord` | src/software/dvc_code/graphic_lib/gimp_bmp.c:193-195 | the three fields that are cut out of a little-endian word are the leading bits of its first three bytes |
| `GimpBmp.ConvertedPixel` | src/software/dvc_code/graphic_lib/gimp_bmp.c:206-243 | each active destination pixel is the reformatted source pixel of its row and column |
| `GimpBmp.ConvertedBytes` | src/software/dvc_code/graphic_lib/gimp_bmp.c:96-319 | the same in bytes, for each of the six pairs: which source bytes the bytes at the destination's address come from, the 5-6-5 sums, and 0xff on top from 24 to 32 bits, whatever the two line widths |
| `GimpBmp.PaddingUntouched` | src/software/dvc_code/graphic_lib/gimp_bmp.c:128-163 | bytes outside the active part of every destination line are never written |
| `GimpBmp.SameConversion` | src/software/dvc_code/graphic_lib/gimp_bmp.c:206-243 | conversions that agree on every active pixel fill any destination alike |
| `GimpBmp.Compose` | src/software/dvc_code/graphic_lib/gimp_bmp.c:128-163 | two conversions in a row, through a buffer of any line width, equal the one whose pixels are composed |
| `GimpBmp.Via24To16` | src/software/dvc_code/graphic_lib/gimp_bmp.c:166-203 | 32 to 24 and then 24 to 16 gives the same buffer as 32 to 16 |
| `GimpBmp.ThereAndBackReverses` | src/software/dvc_code/graphic_lib/gimp_bmp.c:128-243 | 24 to 32 and back reverses the channels of every pixel |
| `GimpBmp.TwiceThereAndBackCopies` | src/software/dvc_code/graphic_lib/gimp_bmp.c:128-281 | doing that twice is the plain 24 to 24 copy, as whole buffers |
| `GimpBmp.LoadGimpBmp` | src/software/dvc_code/graphic_lib/gimp_bmp.c:10-94 | the bitmap's width and height are the image's if those are below 0x8000, and in any case within -0x8000 to 0x7fff and a multiple of 0x10000 away; it gets a buffer of the image's size, and, for the six supported pairs of depths, at ((r * width + c) * bits / 8) the bytes of pixel r * width + c in the new format, with 0xff on top where 24 bits become 32 |
| `Bits.PackIsSum` | src/software/dvc_code/graphic_lib/gimp_bmp.c:306-310 | the masks, shifts and ors of the 24 to 16 packing give the sum of quotients used in the model |
| `Bits.MergeIsSum` | src/software/dvc_code/graphic_lib/simple_text.c:132 | the same for merging channels |
| `Bits.FieldsAreRemainders` | src/software/dvc_code/graphic_lib/simple_text.c:90-92 | the same for taking a word apart |
| `Bits.BytesOfWord` | src/software/dvc_code/graphic_lib/simple_text.c:88-134 | the same for the bytes of a word |
| `Bits.LongPackIsSum` | src/software/dvc_code/graphic_lib/gimp_bmp.c:193-195 | the same for the 32 to 16 packing, on 32-bit words |
| `Bits.ColourIsSum` | src/software/dvc_code/graphic_lib/draw_gimps.c:55 | the same for the colour the blitters put together |
| `Bits.BytesOfLongWord` | src/software/dvc_code/graphic_lib/simple_text.c:176-179 | the same for the bytes of a 32-bit word |
| `DrawGimps.CopyImageToBuffer` | src/software/dvc_code/graphic_lib/draw_gimps.c:32-105 | the two blitters with their running source pointer: every frame word of the fit gets 0x00RRGGBB of the bitmap pixel of that row and column unless it equals the transparent value, and the rest of memory is as before |
| `DrawGimps.BlitInBytes` | src/software/dvc_code/graphic_lib/draw_gimps.c:32-105 | in bytes, on a frame no narrower than the bitmap: at dest + ((y + r) * width + x + c) * 4 are the blue, green and red byte of the bitmap's pixel r * srcWidth + c and 0, if that is in the fit and its colour differs from the transparent value modulo 2^32, and otherwise what was there |
| `DrawGimps.BlitLine` | src/software/dvc_code/graphic_lib/draw_gimps.c:82-100 | one line of it; the source pointer ends at the next line whether or not pixels were drawn |
| `DrawGimps.BlitPixel` | src/software/dvc_code/graphic_lib/draw_gimps.c:83-97 | one pixel of it: four bytes consumed, at most one word written |
| `DrawGimps.KeyOfTransparent` | src/software/dvc_code/graphic_lib/draw_gimps.c:94 | comparing with the transparent value converted to unsigned is comparing the bytes of the two words |
| `DrawGimps.CopyImageRows` | src/software/dvc_code/graphic_lib/draw_gimps.c:14-30 | copying line by line equals copying every pixel of the bitmap to its place in the frame |
| `DrawGimps.LineCopy` | src/software/dvc_code/graphic_lib/draw_gimps.c:23 | one `memcpy` of a line is the copy of its pixels |
| `DrawGimps.BlitClips` | src/software/dvc_code/graphic_lib/draw_gimps.c:57 | a blit writes exactly min(width, w_fit + 1) by min(height, h_fit + 1) pixels, and none if a bound is below 0 |
| `KeyedBlits.RowsByte` | src/software/dvc_code/graphic_lib/draw_gimps.c:80-102 | on frames and bitmaps of any widths, every byte after a blit is that of the last word drawn over it |
| `KeyedBlits.KeyAbsent` | src/software/dvc_code/graphic_lib/draw_gimps.c:68-105 | if no pixel of the fit has the transparent colour, the blit equals the one without such a colour, for bitmaps and frames of any widths |
| `KeyedBlits.HiddenSame` | src/software/dvc_code/graphic_lib/draw_gimps.c:68-105 | the same if each pixel of that colour is drawn over by a later one of another colour |
| `KeyedBlits.KeyMatters` | src/software/dvc_code/graphic_lib/draw_gimps.c:68-105 | for bitmaps and frames of any widths the two blits are equal on every memory if and, where the fit lies in memory, only if each pixel of the transparent colour is drawn over so |
| `KeyedBlits.NarrowKeyMatters` | src/software/dvc_code/graphic_lib/draw_gimps.c:68-105 | for a bitmap no wider than the frame that is the case if and only if the colour does not occur in the fit |
| `KeyedBlits.OverlapHidesKey` | src/software/dvc_code/graphic_lib/draw_gimps.c:68-105 | for a family of bitmaps one pixel wider than the frame they are equal although the colour occurs |
| `KeyedBlits.WideKeyDrawsAll` | src/software/dvc_code/graphic_lib/draw_gimps.c:32-105 | with a transparent value beyond 24 bits the two blitters agree for all inputs |
| `DrawGimps.RowCopyAgrees` | src/software/dvc_code/graphic_lib/draw_gimps.c:14-65 | at the corner and with full fit, the row copy and the blit show the same 24 bits in every pixel; the blit clears the top byte, the copy keeps it |
| `DisplayImage.DispImageFromGimp` | src/software/dvc_code/graphic_lib/draw_gimps.c:191-231 | on any memory the call presses the image's stamp on the frame on the screen; for an image below 0x8000 in size and no wider than the frame, at base + ((y + r) * width + x + c) * 4 is the word 0x00RRGGBB of image pixel r * image.width + c, for every r and c of the image, unless its colour is the transparent one modulo 2^32, and all bytes off the image's lines are as before; for other image depths the call still changes nothing off the rectangle |
| `DisplayImage.DispImageFit` | src/software/dvc_code/graphic_lib/draw_gimps.c:149-189 | the call draws the image's colours on the clipped rectangle, and nothing else; in bytes, image pixel r * image.width + c at base + ((y + r) * width + x + c) * 4 for r up to h and c up to w |
| `DisplayImage.DispImage` | src/software/dvc_code/graphic_lib/draw_gimps.c:109-147 | the call puts the converted image at the frame's corner, whatever position was asked for; in bytes, image pixel r * image.width + c in the 32-bit format at base + (r * width + c) * 4, and nothing off the image's lines changes |
| `DisplayImage.LoadedColour` | src/software/dvc_code/graphic_lib/gimp_bmp.c:206-243 | the blitter's colour of a loaded pixel is the colour of the image pixel, the channel swap of the conversion included |
| `DisplayImage.ImageBytesAreTheColour` | src/software/dvc_code/graphic_lib/draw_gimps.c:88-91 | the bytes drawn are those of the word 0x00RRGGBB |
| `DisplayImage.DrawnPixel` | src/software/dvc_code/graphic_lib/draw_gimps.c:191-231 | after a draw each frame pixel is the image's colour where the image covers it and is not transparent, and otherwise what it was |
| `DisplayImage.PaintsInBytes` | src/software/dvc_code/graphic_lib/draw_gimps.c:80-102 | a draw covers the image's width and height from its corner on, and its colour there is made of the three bytes of image pixel (py - y) * image.width + px - x; it colours the pixel exactly if these are not the transparent value's |
| `DisplayImage.RgbaSwapsRedAndBlue` | src/software/dvc_code/graphic_lib/gimp_bmp.c:96-125 | an RGBA pixel is drawn in the colour of its RGB export if and only if its red equals its blue |
| `DisplayImage.LastDrawWins` | src/software/dvc_code/graphic_lib/draw_gimps.c:80-102 | after any list of draws a pixel has the colour of the last draw that covers it with an opaque pixel |
| `DisplayImage.UnpaintedKept` | src/software/dvc_code/graphic_lib/draw_gimps.c:80-102 | and its first value if there is none |
| `DisplayImage.RedrawChangesNothing` | src/software/dvc_code/graphic_lib/draw_gimps.c:80-102 | drawing the same image again leaves all memory as it is |
| `Painter.InsideFits` | src/software/dvc_code/graphic_lib/draw_gimps.c:93-97 | a rectangle inside a frame in memory is written only to memory, as the drawing calls demand |
| `DisplayImage.InsideMayBeShown` | src/software/dvc_code/graphic_lib/draw_gimps.c:191-231 | so an image inside the screen meets the condition of the call that draws it |
| `Painter.PressPixel` | src/software/dvc_code/graphic_lib/draw_gimps.c:80-102 | one rectangle rewrites exactly its pixels, each by its own cell function |
| `Painter.PressAllPixel` | src/software/dvc_code/graphic_lib/draw_gimps.c:80-102 | any list of rectangles acts on each pixel separately |
| `Painter.PressAllOutside` | src/software/dvc_code/graphic_lib/draw_gimps.c:80-102 | and leaves all memory outside the frame alone |
| `Painter.OrderIrrelevant` | src/software/dvc_code/graphic_lib/draw_gimps.c:80-102 | draws on disjoint rectangles commute: any permutation gives the same memory |
| `Blending.BlendBetween` | src/software/dvc_code/graphic_lib/simple_text.c:236-238 | a blended channel lies between its inputs, is the background at alpha 0 and the foreground at 255, and is the exact mix rounded down |
| `Blending.BlendMonotone` | src/software/dvc_code/graphic_lib/simple_text.c:236-238 | it moves towards the foreground as alpha grows |
| `Blending.BlendSelf` | src/software/dvc_code/graphic_lib/simple_text.c:236-238 | a channel blended with itself is itself |
| `Blending.ClipsIdle` | src/software/dvc_code/graphic_lib/simple_text.c:241-258 | the clips never fire, at any depth |
| `Blending.SeparateAfterMerge` | src/software/dvc_code/graphic_lib/simple_text.c:81-152 | channels in range survive merging and separating at depths 16, 24 and 32, whatever the stale bytes |
| `Blending.MergeAfterSeparate` | src/software/dvc_code/graphic_lib/simple_text.c:81-152 | a pixel survives separating and merging, but for the top byte at depth 32 |
| `Blending.ImagesShareTheLayout` | src/software/dvc_code/graphic_lib/gimp_bmp.c:306-313 | text code takes a 16-bit image pixel apart into R/8, G/4, B/8 |
| `SimpleText.ReadFromFrame` | src/software/dvc_code/graphic_lib/simple_text.c:167-208 | the channels of the draw frame's pixel, at each depth |
| `SimpleText.SetPixel` | src/software/dvc_code/graphic_lib/simple_graphics.c:299-325 | the low bytes of the colour, as many as the depth has, replace that pixel and nothing else |
| `SimpleText.AlphaBlending` | src/software/dvc_code/graphic_lib/simple_text.c:219-261 | the blend with the given background, or with the pixel in the frame if the background is clear |
| `SimpleText.PrintPixel` | src/software/dvc_code/graphic_lib/simple_text.c:290-301 | the body of the glyph loop replaces one pixel by the ink on what it held |
| `SimpleText.PrintCharLine` | src/software/dvc_code/graphic_lib/simple_text.c:289-304 | one row of a glyph; the running alpha pointer ends at the next row's first alpha |
| `SimpleText.AlphaIndex` | src/software/dvc_code/graphic_lib/simple_text.c:283-303 | the running alpha pointer stays inside the glyph's map |
| `SimpleText.PrintCharAlpha` | src/software/dvc_code/graphic_lib/simple_text.c:273-308 | a glyph drawn on the draw frame is a pointwise blend of the frame as it was with alpha[row * width + column], and nothing else changes |
| `TextLayout.PrintStringAlpha` | src/software/dvc_code/graphic_lib/simple_text.c:18-63 | printing a string leaves the frame as the string's layout, a list of glyph stamps, leaves it |
| `TextLayout.PrintNext` | src/software/dvc_code/graphic_lib/simple_text.c:29-60 | one turn of the printing loop: the cursor, the glyph count and the frame move on by one character |
| `TextLayout.PrintBlanks` | src/software/dvc_code/graphic_lib/simple_text.c:46-53 | the loop for a tab: that many blanks side by side |
| `TextPlacement.CursorLaw` | src/software/dvc_code/graphic_lib/simple_text.c:24-61 | before character n the cursor is at the start column plus the widths since the last line feed, and the start row plus one '&#124;' height per line feed |
| `TextPlacement.GlyphLands` | src/software/dvc_code/graphic_lib/simple_text.c:57 | each printed character's stamp is at that place |
| `TextPlacement.BlankLands` | src/software/dvc_code/graphic_lib/simple_text.c:36-54 | on an opaque background so is the '-' cell of each space, and those of each tab, side by side |
| `TextPlacement.LayoutApart` | src/software/dvc_code/graphic_lib/simple_text.c:18-63 | if no glyph is taller than '&#124;', all cells of a string are disjoint |
| `TextPlacement.StringOrderIrrelevant` | src/software/dvc_code/graphic_lib/simple_text.c:18-63 | so the final frame does not depend on the order in which they are drawn |
| `TextPlacement.StringPixelLength` | src/software/dvc_code/graphic_lib/simple_text.c:318-337 | the measured length is the sum of the characters' widths |
| `TextPlacement.MeasureAgreesWithDrawing` | src/software/dvc_code/graphic_lib/simple_text.c:18-63 | it is how far printing a string without line feeds moves the cursor |
| `TextPlacement.WidthAdds` | src/software/dvc_code/graphic_lib/simple_text.c:318-337 | it is additive under concatenation |
| `TextShown.InkShows` | src/software/dvc_code/graphic_lib/simple_text.c:295-301 | the stored pixel's channels are the blend; packing loses nothing |
| `TextShown.AlphaEnds` | src/software/dvc_code/graphic_lib/simple_text.c:226-238 | alpha 0 gives the background colour's channels, or on a clear background leaves the pixel's own, and alpha 255 gives the text's |
| `TextShown.CharacterShows` | src/software/dvc_code/graphic_lib/simple_text.c:288-305 | in the final frame every pixel of every printed character is its ink, at alpha[row * width + column], on what the pixel held before the whole string was printed |
| `TextShown.TextShows` | src/software/dvc_code/graphic_lib/simple_text.c:18-63 | its channels are the blend of the text's colour with the background there: for each of them 0 <= f * alpha + b * (255 - alpha) - 255 * shown < 255, b being the pixel's own channel only if the background is clear |
| `TextShown.SpaceIsABox` | src/software/dvc_code/graphic_lib/simple_text.c:36-54 | on an opaque background every pixel of a space's cell, and of a tab's cells, shows the background colour, whatever the alphas of '-' |
| `TextShown.BesideTheText` | src/software/dvc_code/graphic_lib/simple_text.c:18-63 | a pixel in no cell of the string keeps its value |
| `TextShown.InsideMayBePrinted` | src/software/dvc_code/graphic_lib/simple_text.c:18-63 | a layout inside a frame in memory meets the condition of the call that prints it |
| `TextShown.LayoutSuits` | src/software/dvc_code/graphic_lib/simple_text.c:18-63 | a layout inside a frame of the text's depth meets the conditions of these results |
| `TextInBytes.PlaceMoves` | src/software/dvc_code/graphic_lib/simple_text.c:32-58 | from character to character the place moves by the width of font[text[i] - 33], for a space by that of font[12], for a tab by twice that, and a line feed takes it to the start of the line and down by the height of font[91] |
| `TextInBytes.CursorMoves` | src/software/dvc_code/graphic_lib/simple_text.c:32-58 | the cursor of the printing loop moves by the same amounts |
| `TextInBytes.WidthMoves` | src/software/dvc_code/graphic_lib/simple_text.c:318-337 | the measured length grows by the same widths, from 0 on |
| `TextInBytes.StampOfCharacter` | src/software/dvc_code/graphic_lib/simple_text.c:283-305 | the layout has a stamp for each printed character, at its place, with the height, width and alphas of font[text[i] - 33], row by row |
| `TextInBytes.MayBePrinted` | src/software/dvc_code/graphic_lib/simple_text.c:18-63 | a text whose cells lie inside a frame in memory meets the conditions of the printing call and of the results about layouts |
| `TextInBytes.GlyphInBytes` | src/software/dvc_code/graphic_lib/simple_text.c:283-305 | after a string has been printed, the bytes at base + (py * width + px) * depth / 8, base being the frame not on the screen, are for every pixel of every printed character the mix, within 1 / 255 per channel, of the text's colour and the background, or of what those bytes were if that is clear, by alpha[r * width + c] of font[text[i] - 33]; at depths 16, 24 and 32 |
| `TextInBytes.BlankInBytes` | src/software/dvc_code/graphic_lib/simple_text.c:36-54 | on an opaque background the bytes of each pixel of a space's cell and of a tab's two, all of the size of font[12], are the background's colour |
| `TextInBytes.UntouchedInBytes` | src/software/dvc_code/graphic_lib/simple_text.c:18-63 | the bytes of a pixel of the frame that is in no printed cell are as before |
| `TextInBytes.OutsideInBytes` | src/software/dvc_code/graphic_lib/simple_text.c:18-63 | and so are all bytes outside the frame |
| `TextInBytes.CharInBytes` | src/software/dvc_code/graphic_lib/simple_text.c:272-309 | one character printed alone: the bytes of each pixel of the frame are the mix by font[ch - 33] inside its cell, and as before outside |
| `SlopedLine.DrawSlopedLine` | src/software/dvc_code/graphic_lib/simple_graphics.c:596-655 | the frame ends as the line's pixels, set one after another, leave it; the 16-bit coordinates do not wrap within the line; for a line inside a frame in memory, the depth / 8 bytes at base + (py * width + px) * depth / 8, base being the frame not on the screen, are the colour's low bytes if the pixel lies on the line and otherwise as before, for every px below the width and py below the height, and no memory outside the frame changes |
| `SlopedLine.DrawFlat` | src/software/dvc_code/graphic_lib/simple_graphics.c:615-633 | the loop along the horizontal axis, with its error term |
| `SlopedLine.DrawSteep` | src/software/dvc_code/graphic_lib/simple_graphics.c:635-654 | the loop along the vertical axis |
| `SlopedLine.SidewaysIsClose` | src/software/dvc_code/graphic_lib/simple_graphics.c:615-633 | the steps taken across are at each point within half a pixel of the exact line |
| `SlopedLine.SidewaysEnds` | src/software/dvc_code/graphic_lib/simple_graphics.c:615-633 | after the last step the line has reached its end point |
| `SlopedLine.OnLineIsPoint` | src/software/dvc_code/graphic_lib/simple_graphics.c:596-655 | the pixels within half a pixel of the exact line, measured across it, are exactly those of the steps |
| `SlopedLine.EndsOnLine` | src/software/dvc_code/graphic_lib/simple_graphics.c:596-655 | both end points are drawn |
| `SlopedLine.InsideMayBeDrawn` | src/software/dvc_code/graphic_lib/simple_graphics.c:596-655 | a line between two pixels of a frame in memory meets the condition of the call that draws it |
| `SlopedLine.LinePixel` | src/software/dvc_code/graphic_lib/simple_graphics.c:596-655 | a pixel of the frame gets the colour if and only if it lies between the end points and no more than half a pixel across from the exact line; all others keep their value |
| `Copying.BuildDescriptors` | src/software/dvc_code/vip_fr.c:161-178 | the loop ends, fills exactly ceil(n / 32768) descriptors, and never writes past them, whichever place the driver takes first |
| `Copying.BlocksTile` | src/software/dvc_code/vip_fr.c:168-178 | the blocks have 1 to 32768 bytes, tile source and destination without gap or overlap, and only the last link is null |
| `Copying.ChainIsCopy` | src/software/dvc_code/vip_fr.c:146-185 | following the chain leaves the memory one copy of the whole region leaves |
| `Copying.CopyMoves` | src/software/dvc_code/vip_fr.c:139 | a copy leaves at `to` the bytes that were at `from`, and all others as before |
| `Copying.SyncTransfer` | src/software/dvc_code/vip_fr.c:181 | the controller's walk along a chain |
| `Copying.DmaMemCpy` | src/software/dvc_code/vip_fr.c:146-185 | the DMA copy has the result of `memcpy` if the driver takes the place to write first, and of the opposite `memcpy` if it takes the place to read first |
| `Copying.MemCpy` | src/software/dvc_code/vip_fr.c:139 | `memcpy` on regions that are apart or the same |
| `FrameReader.VipFrameReader.constructor` | src/software/dvc_code/vip_fr.c:21-44 | the fields and registers after initialisation, whatever the device held: depth 32, 4 bytes to a pixel, interlace 0, frame 0 selected |
| `FrameReader.VipFrameReader.SetSize` | src/software/dvc_code/vip_fr.c:51-65 | new size in the fields and in both frames' registers |
| `FrameReader.VipFrameReader.VipGo` | src/software/dvc_code/vip_fr.c:67-69 | register 0 starts or stops the reader |
| `FrameReader.VipFrameReader.Activate` | src/software/dvc_code/vip_fr.c:76-80 | the other frame is selected, in the field and in the device |
| `FrameReader.VipFrameReader.GetDrawFrame` | src/software/dvc_code/vip_fr.c:71-75 | the base of the frame that is not on the screen |
| `FrameReader.VipFrameReader.ReserveBackground` | src/software/dvc_code/vip_fr.c:122-141 | the width * height * bytesPerPixel bytes of the shown frame are copied to the draw frame, and nothing else changes; with DMA and a driver that takes the place to read first, those of the draw frame to the shown one |
| `FrameReader.InitialMirrors` | src/software/dvc_code/vip_fr.c:21-44 | the device mirrors the driver after initialisation, and runs; depth 32, 4 bytes to a pixel, interlace 0, and the frames, width and height given |
| `FrameReader.MirrorsInNumbers` | src/software/dvc_code/vip_fr.c:51-115 | mirroring, register by register: 3 is the selected frame, 4 and 11 the frames' addresses, 5, 6, 12 and 13 width * height, 8 and 15 the width, 9 and 16 the height, 10 and 17 the interlace field, each modulo 2^32 |
| `FrameReader.SizedMirrors` | src/software/dvc_code/vip_fr.c:91-107 | setting the size makes registers 4-6, 8-10, 11-13 and 15-17 agree with the fields and touches no others |
| `FrameReader.MirrorsAfterAnyRun` | src/software/dvc_code/vip_fr.c:51-115 | after any operations the registers mirror the fields, the selected frame has the parity of the flips, the geometry is the last one set, the draw frame is the other one, and addresses, depth, bytes per pixel and interlace are unchanged |
| `FrameReader.RoundShows` | src/software/dvc_code/vip_fr.c:71-141 | one round of reserve, draw and flip shows the old picture with the writes applied |
| `FrameReader.DoubleBufferRefinesSingle` | src/software/dvc_code/vip_fr.c:71-141 | after any number of rounds the screen shows what a single buffer that received all writes would hold |
| `FrameReader.RoundsInBytes` | src/software/dvc_code/vip_fr.c:71-141 | in bytes: after n rounds the frame of the other parity is selected if n is odd, and byte `at` of it is the value last written at that offset in any round, or, if none was, the byte the screen showed at first |
| `FrameReader.ShownBytes` | src/software/dvc_code/vip_fr.c:71-80 | the picture is the width * height * bytesPerPixel bytes at the selected frame's address |
| `FrameReader.SteadyIffDisjoint` | src/software/dvc_code/vip_fr.c:71-80 | drawing never changes the shown picture before a flip if and only if the two frames share no byte |
| `FrameReader.ReserveKeepsShown` | src/software/dvc_code/vip_fr.c:122-141 | copying the background leaves the shown picture alone, after each byte copied |
| `FrameReader.ReversedCopyShows` | src/software/dvc_code/vip_fr.c:146-185 | after the opposite copy the screen shows the draw frame's picture, so it stays as it was if and only if both frames held the same |
| `FrameReader.RoundSteadyIffDisjoint` | src/software/dvc_code/vip_fr.c:71-141 | reserving and then drawing never change the shown picture before the flip if and only if the two frames share no byte |
| `FrameReader.ShownUntilFlip` | src/software/dvc_code/vip_fr.c:71-141 | on disjoint frames, after each byte drawn in any round of any run, the screen shows the picture of the flip before, which is the single buffer's |
| `Playback.Player.constructor` | src/software/dvc_code/hello_ucosii.c:182-193 | the initial values |
| `Playback.Player.SendAudioFifo` | src/software/dvc_code/hello_ucosii.c:177 | 1000 samples from the counter's position on are appended to the FIFO |
| `Playback.Player.Task1Iteration` | src/software/dvc_code/hello_ucosii.c:197-217 | with the play flag 1, 1000 samples are sent, the i-th of them whichSong's at counter % size + i % size, and the counter goes up by 1000, or to 0 if it was not below the size; else with the pause flag 1 nothing happens; else with the stop flag 1 the counter becomes 0 |
| `Playback.Player.Task2Click` | src/software/dvc_code/hello_ucosii.c:337-445 | the assignments of a click, in their order, when nothing comes between: Play, Pause and Stop set their flag and clear the others, Next and Previous do as Stop and move the song by one within 0 to 2, Back and Forward take 100 from the frequency or add it, down to 100 and up to 88000; nothing else changes |
| `Playback.CounterStep` | src/software/dvc_code/hello_ucosii.c:207-212 | one more block takes the counter from 1000 (n mod m) to 1000 ((n + 1) mod m), m being ceil(size / 1000) + 1 |
| `Playback.BlockOf` | src/software/dvc_code/hello_ucosii.c:177-212 | sample i of the n-th block after a reset is the tape's at (1000 (n mod (ceil(size / 1000) + 1))) % size + i % size |
| `Playback.WholeBlock` | src/software/dvc_code/hello_ucosii.c:177 | while whole blocks remain, block n holds samples 1000n to 1000n + 999 |
| `Playback.ReadsStayInside` | src/software/dvc_code/hello_ucosii.c:177-212 | every sample ever read lies in the song if and only if the size is a multiple of 1000 or divides 1000 |
| `Playback.OpeningIsSentTwice` | src/software/dvc_code/hello_ucosii.c:197-212 | the block after the counter's return to 0 is the song's opening; for all songs of a size the block before it is the opening too if and only if the size is a multiple of 1000 or divides 1000 |
| `Playback.LoopsIff` | src/software/dvc_code/hello_ucosii.c:177-212 | for all songs of a size every block continues the song round and round, its sample i being sample (1000 n + i) mod size, if and only if the size divides 1000 |
| `Preemption.MixtureActsAsEither` | src/software/dvc_code/hello_ucosii.c:197-216 | flags taken singly from two settled states make the first task act as in one of them or do nothing |
| `Preemption.StartIs` | src/software/dvc_code/hello_ucosii.c:182-193 | the run starts with all flags and the counter 0, song 0, and the frequency 44000 |
| `Preemption.IterationIs` | src/software/dvc_code/hello_ucosii.c:197-217 | an iteration of the first task, wherever the second one is in a click: the block sent, the song recorded and the counter, by the flags it finds |
| `Preemption.ClickInSteps` | src/software/dvc_code/hello_ucosii.c:337-445 | a click, assignment by assignment: after k of them which flags have changed, in the order play, pause, stop, and what the song and the frequency are; the fourth moves the song, the second bounds the frequency |
| `Preemption.FlagsAfterWrites` | src/software/dvc_code/hello_ucosii.c:337-421 | the flags at each point within a click |
| `Preemption.InvInEveryRun` | src/software/dvc_code/hello_ucosii.c:197-445 | in every interleaving one of the three songs is chosen, the counter follows from the blocks sent since the last reset, the frequency is within its bounds, and the flags are one button's or on the way to it |
| `Preemption.NoSpuriousAction` | src/software/dvc_code/hello_ucosii.c:197-421 | in every interleaving the first task acts as before the current click, as after it, or not at all |
| `Preemption.SongChangesOnlyWhenStopped` | src/software/dvc_code/hello_ucosii.c:419-444 | the chosen song stays within 0 to 2 and changes only by an assignment made while just the stop flag is 1 |
| `Preemption.CounterLaw` | src/software/dvc_code/hello_ucosii.c:197-217 | in every run, with pauses anywhere, the counter is 1000 (k mod (ceil(size / 1000) + 1)) after k blocks since the last reset |
| `Listening.HeardIsTheStream` | src/software/dvc_code/hello_ucosii.c:197-217 | in every run the samples sent since the last reset are the blocks of the songs chosen at each, one after another, each at the position the law gives |
| `Listening.HeardSample` | src/software/dvc_code/hello_ucosii.c:177-217 | in every run sample i of the j-th block since a reset is read from the song chosen when the block was sent, and is its sample 1000 j + i for every j below size / 1000 |
| `Listening.HeardIsTheOpening` | src/software/dvc_code/hello_ucosii.c:197-217 | if those blocks are of one song, however the run went, the k blocks sent since a reset are its first 1000 k samples, in order, for every k up to size / 1000 |
| `Listening.HeardLoopsIff` | src/software/dvc_code/hello_ucosii.c:177-217 | in every run, for all songs of a size, everything heard since a reset is the chosen songs played round and round, if and only if the size divides 1000 |
| `Listening.UnchangedSongAlone` | src/software/dvc_code/hello_ucosii.c:337-421 | they are of one song in every run without Next and Previous, with pauses however short |
| `Listening.PatientPlaysOneSong` | src/software/dvc_code/hello_ucosii.c:213-444 | and in every run in which the first task iterates between clicks |
| `Listening.NewSongStartsOver` | src/software/dvc_code/hello_ucosii.c:213-444 | in such runs a song other than the one last sent starts at position 0 |
| `Listening.CounterUntilSent` | src/software/dvc_code/hello_ucosii.c:197-445 | from any state, over any events during which no block is sent, the counter ends at 0 if the first task iterated when just stop was up, and otherwise where it was |
| `Listening.NextBlockStartsOverIff` | src/software/dvc_code/hello_ucosii.c:197-445 | in every run, from any point on, the next block starts at 0 if and only if the counter was 0 there or such an iteration came since |
| `Listening.ChosenSongStartsOver` | src/software/dvc_code/hello_ucosii.c:419-444 | if the first task iterates between clicks, whatever song Next or Previous chose, the same one included, starts at 0 |
| `Listening.FirstBlockAfterChange` | src/software/dvc_code/hello_ucosii.c:419-444 | from any state, after a click on Next or Previous with m iterations before its last assignment and n behind it, and then Play, the song starts at 0 if and only if m > 0, n > 0 or the counter was 0 |
| `Listening.HastySwitch` | src/software/dvc_code/hello_ucosii.c:419-425 | a run from the start in which the second song begins past its beginning |

## Left out

- The user interface: mouse polling, hit tests, button pictures and redraws.  A click is the list of assignments it makes.
- The other functions of `simple_graphics.c` (boxes, circles, triangles, scrolling text, screen clearing, colour conversion, and the choice between horizontal and sloped lines), and the unused `DRAW_EraseScreen`.
- SlopedLine.DrawSlopedLine: lines that leave memory are not modelled; the C code does not clip either.
- `malloc` failing and `free`, `printf`, cache flushes, interrupts, and the hardware's own timing; a full FIFO is waited for and its contents are modelled as the list of samples sent.
- Overflow of `int` in sizes and offsets, and of `address_counter` for songs close to 2^31 samples: these are unbounded integers here.  Addresses, sizes and colours written to registers or memory are reduced as the C types do.
- Playback.Player.Task1Iteration: what lies in memory behind a song is not modelled, so samples that are read past its end are whatever the tape function gives.
- GimpBmp.CopyPixMap: source and destination are separate, the source being a value; a conversion in place is not modelled.
- GimpBmp.LoadGimpBmp: for depths or image formats other than the six pairs the new buffer's contents are arbitrary, as in C.
- DisplayImage.DispImageFromGimp: for images with other than 3 or 4 bytes to a pixel the colours drawn are arbitrary; only what stays unchanged is stated.
- Copying.DmaMemCpy: the declaration of `alt_avalon_sgdma_construct_mem_to_mem_desc` is not part of this model, nor of the repository; which of its third and fourth arguments is the place to write is a parameter.  A controller that cannot be opened, when nothing is copied, is not modelled.
- Copying.MemCpy: regions that overlap without being the same are excluded, as `memcpy` leaves them undefined.
- SimpleText.PrintCharAlpha: characters without a glyph (other than space, tab and line feed) index outside the font in C and are excluded; strings are given without their final NUL.
- The bodies of nested loops are methods of their own, for one pixel, one line or one character, where the C code has them in place.
- The six copy routines share one method for their two loops, with a parameter for the routine; their pixel steps are separate methods.
