# AfterStep image import and Wharf dock, modelled in Dafny

This project models two parts of AfterStep.

**libAfterImage's file import (`import.c`).** `file2ASImage` looks an image name up on a list of
search paths. It tries the plain name, then the name with `.gz` and `.Z`, then, when the name
ends in `.` and digits, the name without that sub-image suffix. It sniffs the format of the file
it finds from the name and the first 16 bytes (`check_image_type`) and hands it to the loader
for that format. The model covers these loaders:

- PPM (P5, P6 and P8 raw bitmaps);
- Windows BMP (`read_bmp_image` for 1-, 4-, 8-, 16-, 24- and 32-bit rows);
- ICO and CUR icons (a BMP body plus an AND mask);
- the row handling of the GIF, TIFF and PNG loaders, over what their libraries deliver;
- `raw2scanline`, which unpacks packed bytes into an `ASScanline`.

Files are byte sequences read through a stream (bytes and position) with short reads. An
`ASImage` is a value of channel lines. An `ASScanline` is a class of four arrays that the
decoders fill in place. The image pointer that `tiff2ASImage` keeps in a static variable
is the field of a class.

**The Wharf module's dock (`Wharf.c`).** It models:

- how a folder's buttons are placed in columns or rows (`place_wharf_buttons`);
- one step of a folder's open/close animation and the clamping of the animation rectangle;
- the strip the folder shape loses outside its boundary;
- the merging of a parsed configuration into the current one and the defaults
  `CheckConfigSanity` fills in;
- the two passes of `build_wharf_folder` over the configured button list;
- pressing and releasing a dock button.

Folders (`ASWharfFolder`) are a class whose buttons are an array of button values. The
configuration (`WharfConfig`) and the pressed-button state (`WharfState`) are classes whose
methods update their fields. Each method is proved equal to a pure specification function, and
the lemmas are stated about those functions.

Modules:

- `Common`: bytes, words, streams.
- `CString`: C strings, `atoi`, printing of numbers.
- `Sniffer`: `check_image_type`.
- `Locator`: `locate_image_file`, `file2ASImage`.
- `Images`: `ASImage` lines.
- `Scanlines`: `ASScanline`, `raw2scanline`.
- `Ppm`, `Bmp`, `Ico`, `Gif`, `Tiff`, `Png`: the loaders.
- `WharfFolders`: buttons, folders, `create_wharf_folder`.
- `WharfLayout`, `WharfAnimation`, `WharfConfigs`, `WharfBuild`, `WharfPress`: the dock.

## Model

| member | source | states |
|---|---|---|
| Common.Signed32 | libAfterImage/import.c:1044-1047 | the `(long)` view of a 32-bit word is negative exactly when its top bit is set, and lies in the signed 32-bit range |
| Common.ReadWords32 | libAfterImage/import.c:941-961 | bmp_read32 returns only whole words, never more than asked; all of them when 4*count bytes remain, and the stream advances by 4*count |
| Common.ReadWords16 | libAfterImage/import.c:964-984 | bmp_read16 returns only whole words, never more than asked; all of them when 2*count bytes remain, and the stream advances by 2*count |
| CString.CStr | libAfterImage/import.c:266-276 | the C string of a buffer is the prefix before its first NUL: no NUL inside, and a NUL right after it when it is shorter than the buffer |
| CString.StrNEqLiteral | libAfterImage/import.c:299-305 | strncmp against a literal without NUL matches exactly when the first n bytes are the literal's |
| CString.DigitsValueOfDecimal | libAfterImage/import.c:886-893 | the digits printed for n, read back by atoi's digit loop, give n |
| CString.AtoiDecimal | libAfterImage/import.c:886-893 | atoi of a printed number followed by anything that is not a digit returns the number |
| CString.CStrAppend | libAfterImage/import.c:276 | bytes that are not NUL in front of a buffer are in front of its C string |
| Sniffer.HeadBuffer | libAfterImage/import.c:256-267 | the header buffer is 16 bytes ending in NUL and holds the bytes read in its first 15 places |
| Sniffer.HeadOfLongFile | libAfterImage/import.c:266-267 | with 16 or more bytes the header is the first 15 bytes and a NUL, and its C string is that of the first 15 bytes |
| Sniffer.CompressedXpmNamesNeverMatch | libAfterImage/import.c:260-263 | as written, neither compressed-XPM name test can ever match, since it compares 6 (or 5) characters from 3 before the end |
| Sniffer.JpegWinsFirst | libAfterImage/import.c:272-275 | more than 3 bytes starting FF D8 FF are JPEG whatever else the header or name says |
| Sniffer.ShortFileIsUnknown | libAfterImage/import.c:264-308 | a file that cannot be opened, or gives 3 bytes or fewer, is Unknown |
| Sniffer.LongFormatsNeedNineBytes | libAfterImage/import.c:297-306 | XCF, Targa and XBM are reported only when more than 8 bytes were read |
| Sniffer.XpmIffTagInFirst15 | libAfterImage/import.c:276-277 | (when the earlier JPEG test fails) the type is XPM exactly when "XPM" occurs in the NUL-terminated first 15 bytes |
| Sniffer.PnmByDigit | libAfterImage/import.c:284-285 | 'P' and a digit give PPM for '5' or '6' and PNM for any other digit |
| Sniffer.IconAndCursor | libAfterImage/import.c:290-295 | a header starting with 0 is an icon exactly when byte 2 is 1 and the name ends in .ICO, a cursor exactly when byte 2 is 2 and it ends in .CUR or .ICO |
| Sniffer.ZeroHeaderIsUnknown | libAfterImage/import.c:272-308 | a header of sixteen zero bytes is Unknown whatever the name |
| Locator.PathAt | libAfterImage/import.c:111-114 | entry i of the path list exists exactly when i is below the number of paths kept |
| Locator.LocateImageFile | libAfterImage/import.c:224-240 | the do-while over the paths returns the name itself when CheckFile accepts it, else the answer of find_file for the terminating NULL entry: the loop overwrites the earlier answers |
| Locator.FindSubimageDot | libAfterImage/import.c:135-139 | the backward scan finds the sub-image dot when there is one (a '.' after position 0 followed only by digits, at least one) and finds none otherwise |
| Locator.DigitsAfterDot | libAfterImage/import.c:135-139 | everything after a sub-image dot is a digit |
| Locator.SubimageDotUnique | libAfterImage/import.c:135-139 | a name has at most one sub-image dot |
| Locator.DotIsWhereScanStops | libAfterImage/import.c:135-139 | the sub-image dot is where the scan for the last non-digit stops |
| Locator.SubimageSplit | libAfterImage/import.c:138-143 | the name has a base and index exactly when it has a sub-image dot |
| Locator.SplitAtDot | libAfterImage/import.c:141-143 | the base is the name before the dot and the index is atoi of the digits after it |
| Locator.Candidates | libAfterImage/import.c:117-156 | the names tried are three or six, the plain name (without sub-image index) first |
| Locator.FirstFound | libAfterImage/import.c:117-156 | the result is the located path and index of a candidate; None exactly when no candidate is located |
| Locator.FirstFoundCons | libAfterImage/import.c:123-127 | the search takes the first candidate when it is located and searches the rest otherwise |
| Locator.FirstFoundAppend | libAfterImage/import.c:133-156 | a later group of names is searched only when every earlier one failed |
| Locator.LocateWithSuffixes | libAfterImage/import.c:118-131 | the three calls (name, name.gz, name.Z) return the first of them found, with the given sub-image index |
| Locator.UnsupportedFormats | libAfterImage/import.c:73-91 | the loader table is empty exactly for XBM, Targa and PCX |
| Locator.Dispatch | libAfterImage/import.c:159-167 | a found file leads to an unknown-format error, a not-implemented error, or a load of that path with the sub-image index of the search |
| Locator.File2ASImage | libAfterImage/import.c:94-173 | file2ASImage up to the loader call equals the search-then-dispatch specification; no file name gives no request |
| Locator.ExactNameWins | libAfterImage/import.c:117-118 | a name CheckFile accepts is loaded as it is, with index -1 |
| Locator.FoundIndex | libAfterImage/import.c:144-154 | a candidate found among one group of names carries that group's index |
| Locator.SubimageIndexFromSuffix | libAfterImage/import.c:133-156 | a sub-image index reaches the loader only when the name, name.gz and name.Z are all missing; it is the value of the digits after the name's sub-image dot |
| Locator.SearchWithIndex | libAfterImage/import.c:133-156 | a found candidate with an index lies past the three plain names, and the index is the suffix's value |
| Locator.NotImplementedFormats | libAfterImage/import.c:164-167 | a file that is found but has no loader is XBM, Targa or PCX |
| Scanlines.Scanline.constructor | libAfterImage/import.c:911 | prepare_scanline gives four fresh zeroed channels of the image width |
| Scanlines.PixelSize | libAfterImage/import.c:312-368 | a packed pixel takes 1 to 4 bytes: grey or RGB, plus one for alpha |
| Scanlines.Raw2Scanline | libAfterImage/import.c:312-368 | the first width pixels get each channel from its byte of the packed row, through the gamma table when there is one; alpha is written only when the row has it; the rest of the scanline is unchanged |
| Scanlines.PackRgbAt | libAfterImage/import.c:312-368 | byte c of pixel x of a packed RGB(A) row is that pixel's component |
| Scanlines.PackGrayAt | libAfterImage/import.c:312-368 | byte c of pixel x of a packed grey row is its grey level or its alpha |
| Scanlines.UnpackRgb | libAfterImage/import.c:312-368 | raw2scanline without gamma is the inverse of RGB packing: every pixel's red, green, blue (and alpha) come back |
| Scanlines.UnpackGray | libAfterImage/import.c:312-368 | a grey row unpacks to the grey level in all three colour channels and its alpha in alpha |
| Scanlines.IdentityGamma | libAfterImage/import.c:312-368 | the identity gamma table gives the same samples as no table |
| Scanlines.AddColourLines | libAfterImage/import.c:921-923 | red, green and blue of row y become the scanline's first width samples; nothing else changes |
| Scanlines.AddAlphaIfTranslucent | libAfterImage/import.c:561-567 | the alpha line of row y is stored exactly when some alpha sample differs from 0xFF; nothing else changes |
| Ppm.Kind | libAfterImage/import.c:866-876 | the magic line gives 5, 6 or 8, and 0 for any other |
| Ppm.ReadPpmHeader | libAfterImage/import.c:866-897 | the fgets loop with its comment skipping and size scans gives the header the ReadHeader specification describes |
| Ppm.CommentSkipped | libAfterImage/import.c:879-881 | a comment line of at most 70 bytes is passed over as if absent |
| Ppm.LongCommentSplit | libAfterImage/import.c:879-881 | a comment longer than 70 bytes is cut by fgets, and its tail is then read as a size line |
| Ppm.SizeLineRoundTrip | libAfterImage/import.c:889-893 | the line "width height" scans back to both numbers |
| Ppm.HeaderRoundTrip | libAfterImage/import.c:866-897 | a header written as magic, size and count lines reads back to its fields, and the rows start right after it |
| Ppm.ReadRows | libAfterImage/import.c:912-926 | line y of every channel is the decoded row y when that row is complete, absent once a row is short; alpha only for P8 |
| Ppm.AddRow | libAfterImage/import.c:919-925 | one pass stores the decoded row in red, green and blue, and in alpha when the row has it; no other line changes |
| Ppm.NoLinesPastShortRow | libAfterImage/import.c:914-917 | once a row is incomplete it and every later row are absent |
| Ppm.Ppm2ASImage | libAfterImage/import.c:849-936 | an image exactly when the magic is accepted, colours are at most 255 and 0 < width, height < MAX; its lines are those of the complete rows after the header |
| Ppm.PpmRoundTrip | libAfterImage/import.c:849-936 | a P5, P6 or P8 file written from pixels decodes, without gamma, back to those pixels, alpha only for P8 |
| Bmp.ReadInfoSucceeds | libAfterImage/import.c:1019-1036 | the info header is read successfully exactly when it is all in the file: 40 bytes for biSize 40, 12 otherwise |
| Bmp.LongInfoFields | libAfterImage/import.c:1021-1026 | a 40-byte header gives the little-endian fields at their offsets |
| Bmp.CoreInfoFields | libAfterImage/import.c:1027-1035 | a 12-byte header gives 16-bit width, height, planes and bit count, with compression 0 |
| Bmp.WordsAt32 | libAfterImage/import.c:941-961 | whole 32-bit words read from p are the little-endian words there |
| Bmp.WordsAt16 | libAfterImage/import.c:964-984 | whole 16-bit words read from p are the little-endian words there |
| Bmp.ImageHeight | libAfterImage/import.c:1044-1047 | the height is the caller's or the magnitude of biHeight, and fits 32 bits |
| Bmp.RowSizeIsAligned | libAfterImage/import.c:1072-1077 | the row size is a multiple of 4, at least 4, at least the whole bytes of a row and less than 4 more |
| Bmp.RowSizeDropsPartialByte | libAfterImage/import.c:1072 | a trailing partial byte is dropped before alignment: 33 one-bit pixels give a 4-byte row |
| Bmp.PaletteIndexInRange | libAfterImage/import.c:1094-1124 | a 1-, 4- or 8-bit index is below the 2^bpp palette entries |
| Bmp.RowsRead | libAfterImage/import.c:1087-1091 | the loop reads every row up to the first short one and stops there |
| Bmp.DecodeRow | libAfterImage/import.c:1092-1137 | the switch on bit count decodes every pixel below the width as Sample says, and alpha only for 32-bit rows |
| Bmp.DecodePalette | libAfterImage/import.c:1094-1124 | the palette loops give each pixel below biWidth the colour of its index |
| Bmp.Decode16 | libAfterImage/import.c:1125-1134 | the 16-bit loop writes only odd pixels, from bytes x-1 and x |
| Bmp.ReadBmpRows | libAfterImage/import.c:1085-1142 | rows are read top-down or bottom-up, one per line, until a short read; every line is the decoded row or absent; the stream stops after the rows read |
| Bmp.StoreRow | libAfterImage/import.c:1092-1141 | one pass decodes row r into the scanline and stores it as line y, keeping every earlier row's line |
| Bmp.LinesAfterRow | libAfterImage/import.c:1138-1141 | storing row r as line y extends the lines of rows before r by one |
| Bmp.NoRowsPastShortRow | libAfterImage/import.c:1090-1091 | every line from a short row on is absent |
| Bmp.AddRgbLines | libAfterImage/import.c:1138-1140 | the three add_line calls store red (xc3), green and blue (xc1) of the decoded row as line y |
| Bmp.ReadBmpImage | libAfterImage/import.c:1006-1147 | an image exactly when the header is read, uncompressed and not over MAX; then its lines are the decoded rows, the palette read after the header, rows at data_offset (past the palette when asked) |
| Bmp.FileHeaderFields | libAfterImage/import.c:1166-1169 | the file header is accepted exactly when the file starts "BM" and has 14 bytes; bfOffBits is the word at 10 |
| Bmp.Bmp2ASImage | libAfterImage/import.c:1150-1186 | no image without the file header; otherwise read_bmp_image at bfOffBits with the size from the header |
| Bmp.PackPaletteAt | libAfterImage/import.c:1057-1066 | a stored palette holds blue, green, red (and a reserved byte) of each entry at its offset |
| Bmp.PaletteRoundTrip | libAfterImage/import.c:1094-1124 | a palette row decodes to the red, green and blue of the entry each index names |
| Bmp.RawRoundTrip | libAfterImage/import.c:1125-1137 | 24- and 32-bit rows stored blue first decode to their pixels, and 32-bit rows leave alpha in the scanline |
| Bmp.Rgb555RoundTrip | libAfterImage/import.c:1125-1134 | a 5-5-5 word decodes to its red, green and blue fields |
| Bmp.OneBitLeastSignificantFirst | libAfterImage/import.c:1094-1102 | pixel 0 of a 1-bit row is the lowest bit of the first byte, pixel 7 the highest |
| Bmp.FourBitLowNibbleFirst | libAfterImage/import.c:1103-1115 | pixel 0 of a 4-bit row is the low nibble, pixel 1 the high |
| Bmp.SixteenBitOddColumns | libAfterImage/import.c:1125-1134 | in a 16-bit row even pixels stay 0 and pixel 2p+1 comes from bytes 2p and 2p+1 |
| Ico.DirectoryFields | libAfterImage/import.c:1224-1231 | the directory is accepted exactly when the file holds 22 bytes and idType is 1 or 2; width, height and colour count are bytes 6, 7 and 8, the offset the word at 18 |
| Ico.MaskLine | libAfterImage/import.c:1254-1255 | a mask row gives one alpha sample per pixel of the width |
| Ico.MaskMostSignificantFirst | libAfterImage/import.c:1255 | the first pixel is the top bit of the first byte: set means alpha 0 |
| Ico.MaskTailOpaque | libAfterImage/import.c:1246-1255 | pixels past the mask bytes read (the width mod 8 tail, and all from 64 on) are opaque |
| Ico.MaskRow | libAfterImage/import.c:1254-1255 | the pixel loop sets alpha 0 for a set AND bit and 0xFF otherwise for each of the width pixels |
| Ico.StoreMaskRow | libAfterImage/import.c:1252-1256 | one pass reads the mask row and stores its alpha as line y |
| Ico.ReadMask | libAfterImage/import.c:1246-1257 | from the bottom line up, each complete mask row becomes that line's alpha; the loop stops at a short read |
| Ico.ShortMaskRow | libAfterImage/import.c:1252-1253 | after a short mask read no line from there up gets a mask alpha |
| Ico.Layout | libAfterImage/import.c:1233-1234 | read_bmp_image is asked for the entry's size with rows past the header and palette |
| Ico.MaskedImage | libAfterImage/import.c:1244-1258 | the mask loop over the decoded DIB gives the icon's lines |
| Ico.Ico2ASImage | libAfterImage/import.c:1192-1269 | no image without an accepted directory; otherwise an image exactly when read_bmp_image accepts, with the DIB's colour lines and the AND mask's alpha |
| Gif.PassOf | libAfterImage/import.c:1319-1322 | each row belongs to a pass whose offset is not past it |
| Gif.InPass | libAfterImage/import.c:1322 | step j of a pass is inside the image exactly when j is below the pass length |
| Gif.PassOfVisit | libAfterImage/import.c:1319-1322 | step j of a pass is a row of that pass, and it is that pass's step j |
| Gif.PassesCover | libAfterImage/import.c:1319-1322 | the four passes together read as many rows as the height |
| Gif.InterlaceVisitsEachRowOnce | libAfterImage/import.c:1316-1327 | the interlaced passes read every row exactly once |
| Gif.PositionInjective | libAfterImage/import.c:1319-1322 | no two rows are read at the same position |
| Gif.ReadLines | libAfterImage/import.c:1311-1331 | the row loop succeeds exactly when there are enough lines, and then row y holds the line read at y's position (sequential or interlaced) |
| Gif.ReadPass | libAfterImage/import.c:1321-1327 | one interlace pass fills its rows in order, or fails only when the lines run out |
| Gif.Transparency | libAfterImage/import.c:1337-1345 | a set transparent index stays; a new one is a byte value |
| Gif.FirstMarkingBlock | libAfterImage/import.c:1338-1345 | an unset index becomes ext[4] of the first block marking transparency, and stays unset when no block does |
| Gif.ReadExtension | libAfterImage/import.c:1332-1346 | the extension loop computes Transparency over the blocks returned |
| Gif.ReadRecords | libAfterImage/import.c:1291-1351 | the record loop computes the ScanAll specification, in which a second image descriptor ends the loop with an error |
| Gif.ScanTakesFirstImage | libAfterImage/import.c:1297-1306 | the image the loop holds when it ends is the first image record's; whether the loop ends with GIF_OK is SingleImageOnly's subject |
| Gif.SingleImageOnly | libAfterImage/import.c:1297-1352 | the loop ends with GIF_OK and an image only when the first image record is followed by extensions alone up to the terminator: a file with a second image gives no image |
| Gif.IntendedLoadsAnimation | libAfterImage/import.c:1297-1352 | with later images read past, a file of extensions, a readable first image, then extensions and readable images up to the terminator loads the first image |
| Gif.TwoFramesLoadNothing | libAfterImage/import.c:1297-1352 | a GIF of two readable 1x1 frames gives no image as written, and the first frame with later images read past |
| Gif.LargeImageRejected | libAfterImage/import.c:1305-1306 | a first image MAX or more wide or high leaves no image |
| Gif.FrameRows | libAfterImage/import.c:1308-1315 | the image read has one row per line of its height |
| Gif.Samples | libAfterImage/import.c:1369-1382 | the line has width samples, each the pixel's sample |
| Gif.MapRow | libAfterImage/import.c:1369-1382 | each pixel gets its colour map colour (the background's for the transparent index), alpha 0 for transparent and 0xFF otherwise; the result says whether any pixel was transparent |
| Gif.AddRow | libAfterImage/import.c:1367-1387 | one row stores its colour lines, and its alpha line only when a pixel is transparent |
| Gif.MapRows | libAfterImage/import.c:1365-1388 | the mapping loop decodes every row of the image read |
| Gif.Gif2ASImage | libAfterImage/import.c:1274-1398 | an image exactly when the loop ends with GIF_OK after reading an image (by SingleImageOnly, never for a file with a second image); its lines are that image's mapped rows, with the image's own colour map when it has one |
| Gif.TransparentPixels | libAfterImage/import.c:1369-1387 | a row has an alpha line exactly when a pixel has the transparent index; such pixels have alpha 0 and the background colour, others 0xFF and their own colour |
| Gif.OpaqueWithoutTransparency | libAfterImage/import.c:1386-1387 | without a graphic-control block marking transparency the image has no alpha |
| Tiff.UnpackPack | libAfterImage/import.c:1446-1453 | unpacking a packed ABGR pixel gives back its components |
| Tiff.PackUnpack | libAfterImage/import.c:1446-1453 | every 32-bit pixel is the packing of its unpacked components |
| Tiff.RowInRaster | libAfterImage/import.c:1441-1463 | image row y is raster row height-1-y, inside the raster |
| Tiff.UnpackRow | libAfterImage/import.c:1444-1452 | the inner loop spreads each raster pixel over red, green, blue and alpha |
| Tiff.AddRow | libAfterImage/import.c:1444-1462 | one pass stores the row's colour lines, and alpha only when it is not all opaque |
| Tiff.Decode | libAfterImage/import.c:1433-1467 | the image built inside the size guard has the file's size, no lines when the raster cannot be read, else the raster's rows bottom row last |
| Tiff.TiffImporter.Tiff2ASImage | libAfterImage/import.c:1410-1473 | no image when the file cannot be opened; a built image, stored in the never-reset static, when both sizes are below MAX and the raster is allocated; otherwise the static as an earlier call left it |
| Tiff.StaleImageAfterRejection | libAfterImage/import.c:1414-1472 | after a 1x1 file has loaded, a file too wide for the guard returns the 1x1 image again, where the loader without the static returns none |
| Tiff.FreshTiff2ASImage | libAfterImage/import.c:1410-1473 | with `im` a local: an image exactly when the file opens, both sizes are below MAX and the raster is allocated, holding what Decode builds |
| Tiff.OpaqueRowsHaveNoAlpha | libAfterImage/import.c:1457-1462 | a row gets no alpha line exactly when all its pixels have alpha 0xFF |
| Png.Transformed | libAfterImage/import.c:494-515 | after the transformations the colour type is grey, RGB, grey+alpha or RGB+alpha |
| Png.LayoutMatchesRows | libAfterImage/import.c:537-538 | with the intended grayscale flag, the layout raw2scanline reads is the one libpng delivers for every colour type |
| Png.GrayWithoutTrnsOverreads | libAfterImage/import.c:538-557 | as written, a grey image without tRNS is read 3 bytes per pixel from 1-byte-per-pixel rows |
| Png.GrayscaleFlagsAgree | libAfterImage/import.c:538 | the as-written flag differs from the intended one only for grey without tRNS |
| Png.AddRow | libAfterImage/import.c:550-568 | one pass stores the row's colour lines, and alpha only when the type has alpha and a sample is not 0xFF |
| Png.Png2ASImage | libAfterImage/import.c:438-583 | no image exactly when the file cannot be opened; otherwise every row decoded into an image of the file's size |
| Png.OpaqueTypesHaveNoAlpha | libAfterImage/import.c:505-515 | types without alpha after transformation (grey or RGB without tRNS) get no alpha |
| Png.TranslucentRowsHaveAlpha | libAfterImage/import.c:561-567 | a row's alpha line is present exactly when one of its alpha samples is not 0xFF, and it is those samples |
| WharfFolders.Folder.constructor | src/Wharf/Wharf.c:878-886 | a zeroed folder with count zeroed buttons |
| WharfFolders.CreateWharfFolder | src/Wharf/Wharf.c:872-890 | no folder exactly when the count is 0 or less; otherwise a fresh folder of that many blank buttons with no flags |
| WharfLayout.CrossMaxIsMaximum | src/Wharf/Wharf.c:1312-1391 | a group's cross size bounds every button of it and is one of theirs (0 for none) |
| WharfLayout.MainMaxIsMaximum | src/Wharf/Wharf.c:1312-1391 | a group's main size bounds every button that is not MaxSwallow and is 0 or one of theirs |
| WharfLayout.PerGroup | src/Wharf/Wharf.c:1298 | buttons per group is ceil(n / groups) |
| WharfLayout.Order | src/Wharf/Wharf.c:1289-1302 | the i-th visited button is a slot of the array |
| WharfLayout.OrderInvolution | src/Wharf/Wharf.c:1289-1302 | visiting twice in the same direction returns to the first slot |
| WharfLayout.ArrangeVisit | src/Wharf/Wharf.c:1300-1302 | writing the visited results back to their slots undoes the visiting order |
| WharfLayout.GroupMaxima | src/Wharf/Wharf.c:1305-1393 | the backward rescan at a group's first button gives the group's cross and main maxima |
| WharfLayout.PlaceButton | src/Wharf/Wharf.c:1322-1420 | a button's box is its slot, or, when shaped to contents, its own size aligned in the slot, marked ragged when narrower than the group |
| WharfLayout.PlaceAll | src/Wharf/Wharf.c:1300-1432 | the loop places every button as Layout says, and ends with the cursor after the last button |
| WharfLayout.SweepSums | src/Wharf/Wharf.c:1350-1431 | the totals the loop keeps are the groups' cross sizes summed and the longest group |
| WharfLayout.LastGroupOpen | src/Wharf/Wharf.c:1350-1423 | the last group is left open exactly when the group size does not divide the buttons left |
| WharfLayout.LastGroupFull | src/Wharf/Wharf.c:1350-1358 | when it divides them, every group is closed and the main offset is back at 0 |
| WharfLayout.SweepsGroupwise | src/Wharf/Wharf.c:1300-1359 | group by group, the loop ends with the sweep's totals and sets needs_shaping when a later group is ragged |
| WharfLayout.PlacesGroupwise | src/Wharf/Wharf.c:1300-1359 | group by group, the loop stores the buttons LayoutFrom places |
| WharfLayout.TotalsAsIntended | src/Wharf/Wharf.c:1360-1438 | the as-written totals are the intended ones unless the groups are all full but fewer than configured |
| WharfLayout.LastGroupCountedTwice | src/Wharf/Wharf.c:1360-1438 | in that case the last group's cross size is added a second time |
| WharfLayout.FourButtonsInThreeColumns | src/Wharf/Wharf.c:1297-1365 | four 48x48 buttons in three columns need 96 pixels of width; the code asks for 144 |
| WharfLayout.IntendedTotalsAreSums | src/Wharf/Wharf.c:1349-1358 | the intended totals are the sum of the groups' cross sizes and the longest group |
| WharfLayout.PlaceWharfButtons | src/Wharf/Wharf.c:1281-1448 | every button gets the place and size Layout gives; the totals are the as-written Totals, equal to the intended ones except when fewer full groups are used; NeedsShaping is set exactly when a shaped button is narrower than its group |
| WharfAnimation.CollapseSize | src/Wharf/Wharf.c:1533-1550 | a collapse step gives 0 on the last step, else a size that always shrinks, by at most about a steps-th plus one |
| WharfAnimation.CollapseBounds | src/Wharf/Wharf.c:1537-1539 | cur*(steps-1)/steps lies between cur - cur/steps - 1 and cur, and equals cur only for 0 |
| WharfAnimation.ExpandApproaches | src/Wharf/Wharf.c:1558-1575 | while the window is no larger than the total, an expanding step never overshoots, never shrinks, moves by at least one pixel, and reaches the total on the last step |
| WharfAnimation.ExpandPastTotalWraps | src/Wharf/Wharf.c:1562-1572 | past the total the unsigned difference wraps: 10 towards 5 in two steps gives -2147483641 |
| WharfAnimation.AnimateWharf | src/Wharf/Wharf.c:1523-1582 | the step counter goes down by one; collapsing shrinks only the animated axis, expanding sets the other axis to the total and moves the animated one towards it |
| WharfAnimation.ClampAnimationRect | src/Wharf/Wharf.c:1451-1473 | only the animated axis changes; its offset never ends negative, and a positive offset keeps the rectangle's size |
| WharfAnimation.ClampAnchorsFarEdge | src/Wharf/Wharf.c:1454-1472 | a folder anchored at the far edge has the rectangle end at the larger of the two sizes when it fits, else cover the target size from 0 |
| WharfAnimation.ShapeCutBesideBoundary | src/Wharf/Wharf.c:1129-1141 | on an axis where the boundary is narrower than the window, the cut strip sits next to the boundary inside the window |
| WharfAnimation.NoCutWhenCovered | src/Wharf/Wharf.c:1121-1163 | nothing is cut when the boundary covers the window on both axes |
| WharfConfigs.MergeFlags | src/Wharf/Wharf.c:437 | every option the parsed configuration set takes its parsed value, every other option keeps its current one |
| WharfConfigs.MergeNothing | src/Wharf/Wharf.c:437 | a configuration that sets nothing changes nothing |
| WharfConfigs.MergeIdempotent | src/Wharf/Wharf.c:437 | merging the same configuration twice is merging it once |
| WharfConfigs.MergeSequence | src/Wharf/Wharf.c:437-438 | merging a then b is merging, in one step, b over a with the union of what they set: the later file wins |
| WharfConfigs.WharfConfig.LayoutOptions | src/Wharf/Wharf.c:1287-1297 | the layout reads rows, columns and the fit-contents option of the configuration |
| WharfConfigs.WharfConfig.GetOptions | src/Wharf/Wharf.c:437-493 | the options and scalars merge as MergeScalars says; the buttons are appended and the parsed list emptied; the balloon configuration is taken over |
| WharfConfigs.WharfConfig.MergeScalars | src/Wharf/Wharf.c:437-473 | flags as MergeFlags, set options as MergeSetFlags, and rows, columns, the plain settings and the composition method taken when set; the forced size merged by merge_geometry when set |
| WharfConfigs.MergeSetFlags | src/Wharf/Wharf.c:438-470 | set options accumulate, except that setting the bevel without no-border clears no-border's set mark |
| WharfConfigs.MergeSettings | src/Wharf/Wharf.c:455-464 | each plain setting the parsed configuration set is taken over, every other one kept |
| WharfConfigs.MergeSettingsIdempotent | src/Wharf/Wharf.c:455-464 | merging nothing changes nothing, and a second merge of the same settings is a no-op |
| WharfConfigs.WharfConfig.MergeWharfFolders | src/Wharf/Wharf.c:415-422 | the other list is appended to this one and the other's head cleared |
| WharfConfigs.WharfConfig.CheckConfigSanity | src/Wharf/Wharf.c:341-401 | afterwards rows or columns is positive (one row when neither was); the forced size is ForcedSize's; composition method and balloon style get their defaults when unset; nothing else changes |
| WharfConfigs.ForcedSize | src/Wharf/Wharf.c:354-375 | a configured forced size has its zero sides made 64; without one, unless fitting contents, the back icon's size or 64x64; else 0x0 |
| WharfConfigs.SaneRootHasGroups | src/Wharf/Wharf.c:1297-1298 | once sane, the root folder has at least one column or row, so the layout never divides by zero |
| WharfConfigs.InsaneRootHasNoGroups | src/Wharf/Wharf.c:1369-1370 | without sanity, a horizontal root folder with no rows has no groups |
| WharfBuild.FirstUsable | src/Wharf/Wharf.c:906-926 | the first usable content at or after i: every content before it is unusable |
| WharfBuild.MarkEntry | src/Wharf/Wharf.c:898-939 | an entry is marked Disabled exactly when it was or is not usable; a non-transient entry with a usable content selects the first one; nothing else changes |
| WharfBuild.MarkEntries | src/Wharf/Wharf.c:896-943 | the first pass marks every entry as MarkTop says and counts the usable ones |
| WharfBuild.OrientedFlags | src/Wharf/Wharf.c:949-952 | a zeroed folder is vertical exactly when asked |
| WharfBuild.ButtonFlags | src/Wharf/Wharf.c:973-997 | a button is a swallow target exactly for a swallow function, MaxSwallow for the max-swallow kinds, transient for a transient entry, and fixed on a side exactly for a sized entry with that side positive |
| WharfBuild.DesiredSize | src/Wharf/Wharf.c:992-1023 | a side is the configured size, else the forced size, else the bar's size for a non-swallowing button, else 64; never 0 |
| WharfBuild.ButtonFor | src/Wharf/Wharf.c:965-1023 | a new button has positive sizes, the entry's title and selected function, and nothing swallowed |
| WharfBuild.MarkTopWellFormed | src/Wharf/Wharf.c:923 | the first pass keeps each selected content in range |
| WharfBuild.KeptWithinCount | src/Wharf/Wharf.c:931-963 | the second pass never makes more buttons than the first counted |
| WharfBuild.FreshListFillsAll | src/Wharf/Wharf.c:940-963 | on a list no earlier build marked, the folder gets one button per usable entry |
| WharfBuild.StaleMarkLeavesBlank | src/Wharf/Wharf.c:931-963 | a Disabled mark from an earlier build is kept on an entry that has become usable: it is counted but gets no button |
| WharfBuild.NothingEnabled | src/Wharf/Wharf.c:945 | with nothing usable no folder is built and the list is only marked |
| WharfBuild.MakeButton | src/Wharf/Wharf.c:965-1026 | a kept entry's button is ButtonFor of the marked entry, with a sub-folder built the other way round that has one button per usable sub-entry |
| WharfBuild.AddButton | src/Wharf/Wharf.c:965-1028 | the entry's button becomes button k after those made so far, and the rest stay blank |
| WharfBuild.MarkedPrefixIsTree | src/Wharf/Wharf.c:954-1030 | the entries handled one at a time give the prefix of the marked tree |
| WharfBuild.FilledSkip | src/Wharf/Wharf.c:959-963 | an entry marked Disabled is passed over without a button |
| WharfBuild.FilledAdd | src/Wharf/Wharf.c:965-1029 | an entry not marked Disabled gets the next button |
| WharfBuild.FilledAll | src/Wharf/Wharf.c:954-1030 | at the end of the list every kept entry has its button, in order, and the rest are blank |
| WharfBuild.FillStep | src/Wharf/Wharf.c:955-1029 | one entry of the second pass keeps the filling invariant |
| WharfBuild.FillButtons | src/Wharf/Wharf.c:954-1030 | the second pass makes the first buttons from the kept entries, in order, and leaves the rest blank; the list comes out marked |
| WharfBuild.BuildWharfFolder | src/Wharf/Wharf.c:893-1034 | no folder when nothing is usable; otherwise a fresh folder of one button per usable entry, oriented as asked, whose first buttons are those of the kept entries in order and the rest blank |
| WharfPress.Members | src/Wharf/Wharf.c:2484-2495 | the set holds the button exactly when there is one |
| WharfPress.Press | src/Wharf/Wharf.c:2481-2497 | the pressed button becomes b; the state is taken only for a new button; the old button is undrawn and the new one drawn |
| WharfPress.Release | src/Wharf/Wharf.c:2535-2536 | nothing stays pressed, the pressed button is undrawn, and the state is kept |
| WharfPress.PressConsistent | src/Wharf/Wharf.c:2481-2497 | pressing keeps the drawn bars exactly those of the pressed button |
| WharfPress.ReleaseConsistent | src/Wharf/Wharf.c:2499-2537 | releasing leaves nothing drawn pressed |
| WharfPress.PressTwice | src/Wharf/Wharf.c:2484-2491 | pressing the pressed button again changes nothing, not even the state |
| WharfPress.PressNothingReleases | src/Wharf/Wharf.c:2484-2489 | a press with no button forgets the pressed one as a release does |
| WharfPress.PressThenRelease | src/Wharf/Wharf.c:2481-2537 | press then release leaves nothing pressed or drawn |
| WharfPress.ReleaseEffect | src/Wharf/Wharf.c:2506-2533 | a button with a sub-folder closes it when shown and opens it when hidden; otherwise its function is sent exactly when it has one and is not a swallow target holding its window |
| WharfPress.WharfState.PressWharfButton | src/Wharf/Wharf.c:2481-2497 | the new state is Press of the old |
| WharfPress.WharfState.ReleasePressure | src/Wharf/Wharf.c:2499-2537 | the new state is Release of the old, and the effect is the pressed button's ReleaseEffect (none when nothing was pressed) |

## Left out

- `GetOptions`, `CheckConfigSanity` and `build_wharf_folder` call library, X and style code (`ParseWharfOptions`, `mystyle_*`, canvases, title bars, balloons, `ProcessMyStyleDefinitions`). These are not part of this model. Their results are parameters: the back icon's size, the bar sizes, whether a command is in the PATH, and the default composition method.
- WharfConfigs.WharfConfig.GetOptions: the window geometry merge and the sound names are not modelled. `merge_geometry` is not part of this model: the forced size it produces is a function parameter.
- WharfConfigs.WharfConfig.CheckConfigSanity: creating a configuration when there is none, and the `shaped_style` detection, are not modelled (they depend on style textures).
- Option bit values: `WHARF_*` are in a header that is not part of this model. Options are sets of bit positions, and only their distinctness matters.
- WharfConfigs.WharfConfig.MergeWharfFolders: the walk along the `next` links is modelled as appending sequences.
- WharfBuild.BuildWharfFolder: each button's sub-folder shape (Built) is stated by MakeButton only. The folder's own per-button contract states the button without its sub-folder.
- WharfBuild: `register_swallow_target`, `dup_func_data`, canvases and `XMapSubwindows` are not modelled. The function kinds are reduced to swallow, max-swallow, exec and other.
- WharfPress.WharfState.ReleasePressure: the walk that withdraws parent folders after a command is sent (Wharf.c:2522-2532) is left out, because the model keeps no parent links. Withdrawing, displaying and `SendCommand` are returned as an effect value instead of being performed. `set_astbar_pressed` is modelled as the set of buttons drawn pressed.
- WharfAnimation: `animate_wharf_loop` (timers, X calls) and the X shape calls of `update_wharf_folder_shape` are not modelled. Only the size arithmetic, the rectangle clamp and the cut strip are.
- WharfAnimation.CollapseSize: the `int` overflow of `cur * (steps - 1)` for step counts near 2^31 is not modelled. Canvas sizes are 16-bit unsigned.
- WharfLayout.PlaceWharfButtons: `moveresize_canvas`, `ASSync` and `buttons_render_pending` are not modelled.
- Image import: the libpng, libungif, libtiff, libjpeg, XPM and XCF decoders are not modelled. GIF, TIFF and PNG start from what their libraries deliver (records and lines, a raster, rows and colour type).
- `MAX_IMPORT_IMAGE_SIZE` is a parameter (its header is not part of this model).
- `XCF_SIGNATURE` is taken to be the 8 bytes "gimp xcf".
- Reads of memory the C code never filled (past a short `fread`, past `and_mask`, past a BMP row) read as 0. The C behaviour there is undefined.
- `CheckFile` and `find_file` are a file-system parameter. Clock, `show_error` and debug output are left out.
- Png.Png2ASImage: uses the intended grayscale flag (see Findings). Gamma and sRGB handling is done inside libpng and is not modelled. `png_read_image` errors (`longjmp`) are not modelled.
- Tiff.TiffImporter.Tiff2ASImage: `TIFFSetDirectory` for a sub-image is not modelled. Whether `_TIFFmalloc` succeeds is a parameter.
- Gif.ScanFrom: a later image descriptor whose first byte (the low byte of its left position) happens to be ',', '!' or ';' is read by giflib as a record of that type, and the bytes after it are misparsed. The model treats every later descriptor as the error that any other first byte gives.
- Gif.Lookup: an index past the end of the colour map reads as black. The C code reads `cmap->Colors[c]` out of bounds there, which is undefined.
- Gif.Palette: a file with neither a global nor an image colour map gets an empty map, so every pixel is black. The C code dereferences the NULL `SColorMap`, which crashes.
- Bmp.DecodeRow: stores for pixels at or past the scanline's width are dropped. The C loops run to `biWidth`, so a DIB wider than the width the caller passes (an ICO directory entry narrower than its DIB header) writes past the scanline's buffers, which is undefined.
- Bmp.DecodePalette: the same bound as DecodeRow; the C code writes up to `biWidth`.
- Bmp.Decode16: the same bound as DecodeRow; the C code writes up to `biWidth`.
- Common.Signed32: reads `(long)` of a 32-bit word as a host with a 32-bit `long` does. On an LP64 host that cast is never negative, so a top-down BMP (negative `biHeight`) is taken as bottom-up with a height of 2^32 minus its magnitude, which the MAX guard rejects. Bmp.TopDown and Bmp.ImageHeight follow the 32-bit view.
- CString.Atoi: the value is exact. C's `atoi` overflows `int` for numbers past 2^31 - 1, which is undefined.
- Sniffer.HasSuffix4: a name shorter than 4 characters never matches. The C code reads 4 bytes before the end of the name, which starts before the string there and is undefined.
- Sniffer: the as-written compressed-XPM name tests are kept (they can never match). The XPM loaders they would pick are not modelled, so no corrected version is given.

## Findings

| source | as written | input that shows it | evidently intended | confidence | as-written member | corrected member |
|---|---|---|---|---|---|---|
| libAfterImage/import.c:538-557 | `grayscale` is true only for grey+alpha, so a grey image without tRNS is handed to raw2scanline as RGB | a 1-pixel-wide grey PNG without tRNS: libpng delivers 1 byte per pixel, raw2scanline reads 3 | grayscale for both grey and grey+alpha | not executed | Png.GrayWithoutTrnsOverreads | Png.LayoutMatchesRows |
| src/Wharf/Wharf.c:1360-1438 | after the loop the last group's cross size is added whenever groups * perGroup exceeds n, even when that group was already closed | four 48x48 buttons in a vertical root folder of three columns: width 144 instead of 96 | add the last group only when it was left open | not executed | WharfLayout.LastGroupCountedTwice | WharfLayout.IntendedTotalsAreSums |
| libAfterImage/import.c:1414-1472 | `im` is a static that is never reset, so a call whose size guard or `_TIFFmalloc` fails returns the image of an earlier call | a 1x1 TIFF loaded, then a TIFF 200 pixels wide with MAX 100: the second call returns the 1x1 image again | no image for a rejected file | not executed | Tiff.StaleImageAfterRejection | Tiff.FreshTiff2ASImage |
| libAfterImage/import.c:1297-1352 | a second image descriptor is neither read nor skipped, so the next DGifGetRecordType reads its first byte as a record type and fails, and no image is returned | a GIF of two 1x1 frames, the second at left position 0 | read past later images and return the first | not executed | Gif.TwoFramesLoadNothing | Gif.IntendedLoadsAnimation |
