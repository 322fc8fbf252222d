# iSubRip core in Dafny

This project models the core of iSubRip, a tool that downloads subtitles from
iTunes and Apple TV. The modelled parts are:

- **The subtitle model.** Subtitles objects made of blocks. The WebVTT blocks are
  caption, comment, style and region; SubRip has a caption block.
  - Python `==` on blocks, and the text form of each block.
  - Right-to-left fixing of caption payloads.
  - Adding blocks, appending another object, `polish` (right-to-left fixing and
    removal of duplicate neighbours), and `dump`/`dumps` with raw-data passthrough.
  - Conversion to SubRip, the WebVTT writer and reader, and the SubRip writer.
- **The legacy subtitle model** (`isubrip/subtitles.py`, `isubrip/webvtt.py`). It
  fixes and removes duplicates when a block is appended, and writes WebVTT or
  SubRip.
- **The pure helpers of `isubrip/utils.py`:**
  - release names and title standardisation;
  - subtitle descriptions and dictionary merging;
  - URL parameters, first-valid selection and config-name normalisation;
  - timestamp splitting and non-conflicting paths.
- **Rendition selection of the HLS scraper.** The subtitles type of an
  `#EXT-X-MEDIA` entry, and the case-insensitive attribute filters.
- **The scraper factory.** Its instance cache and re-entrancy guard, and the
  lookup of a scraper by class, id or URL.
- **The older iTunes scraper** (`isubrip/scraper.py`) and the original script
  `iSubRip.py`. Their subtitle selection and their title and file names.

Each source function is a Dafny function or method. The errors the code raises
on purpose (bad timestamps, unsupported reading, missing scrapers) become
`Result` values; the `AttributeError`s of the base classes are not modelled and
are listed under "Left out". Class state becomes values passed in and returned.
Where the code is evidently wrong, the model keeps the code as written next to
a corrected version, and "Findings" names both.

The project verifies in Dafny 4.11. Its contracts and lemmas state the promises
the code makes, including the following.

**WebVTT round trip.** Every storable block list reads back unchanged under the
corrected writer and reader. Under the pair as written, this holds for captions
and comments only.

**Timings.** Cue timings read back to the millisecond.

**SubRip numbering.** SubRip documents number their captions 1 to K in block
order, with no gaps.

**Fixes.** Right-to-left fixing is idempotent and keeps the number of lines.
The corrected `polish` leaves no equal neighbours.

**Helpers and scrapers.**
- Dictionary merging collects the values of each key in argument order.
- URL parameters round-trip.
- Attribute filters select exactly the entries that pass every filter.
- A cached scraper is returned unchanged.
- A scraper that asks for itself while it is being built gets `ScraperError`.

## Model

| member | source | states |
|---|---|---|
| Rtl.Fix | isubrip/subtitle_formats/subtitles.py:75-84 | a fixed payload is never empty and starts with the right-to-left mark |
| Rtl.MarkEach | isubrip/subtitle_formats/subtitles.py:84 | one output line per input line, each being the mark followed by that line |
| Rtl.FixLines | isubrip/subtitle_formats/subtitles.py:79-84 | the lines of a fixed payload are the lines of the cleaned payload, each with the mark in front |
| Rtl.FixLineCount | isubrip/subtitle_formats/subtitles.py:79-84 | fixing keeps the number of lines of a payload |
| Rtl.SplitCount | isubrip/subtitle_formats/subtitles.py:84 | splitting on a character gives one more part than the text has occurrences of it |
| Rtl.WithoutIdempotent | isubrip/subtitle_formats/subtitles.py:80-81 | removing the control characters twice is removing them once |
| Rtl.FixIdempotent | isubrip/subtitle_formats/subtitles.py:75-87 | fixing an already fixed payload gives the same payload, since the mark is itself a removed control character |
| Rtl.ConstantsFit | isubrip/subtitle_formats/webvtt.py:266-267 | the mark is one of the seven control characters, and neither is a newline |
| Blocks.SameIsEquivalence | isubrip/subtitle_formats/webvtt.py:44-46 | block equality is reflexive, symmetric and transitive |
| Blocks.KeyOf | isubrip/subtitle_formats/webvtt.py:44-46 | what `==` compares: the class, and the timings and payload of a caption, the payload and inline flag of a comment, or the payload of another block |
| Blocks.Same | isubrip/subtitle_formats/webvtt.py:44-46 | two blocks are equal iff their keys agree; identifier, settings and `modified` take no part |
| Blocks.Str | isubrip/subtitle_formats/webvtt.py:48-64 | `str` of a caption: the identifier line when there is one, the timing line with the settings after a space when there are any, then the payload; what it promises is stated by `WebVtt.CaptionHeadOfCueLine` and `WebVtt.LoadsDumps` |
| Blocks.SameIgnoresCueExtras | isubrip/subtitle_formats/webvtt.py:44-46 | two captions are equal iff their start, end and payload agree, whatever their identifiers and settings |
| Blocks.FixRtl | isubrip/subtitle_formats/subtitles.py:75-87 | timings, settings and identifier are kept; the payload is re-marked; `modified` is set iff it was set or the payload changed |
| Blocks.FixRtlIdempotent | isubrip/subtitle_formats/subtitles.py:75-87 | a second fix changes nothing, and a set `modified` is never cleared |
| Blocks.FixRtlLines | isubrip/subtitle_formats/subtitles.py:84 | after a fix the payload has as many lines as before, and every line starts with the mark |
| Blocks.ToSrt | isubrip/subtitle_formats/subrip.py:22-23 | a SubRip caption converts to itself |
| Timing.TruncateToMillis | isubrip/subtitle_formats/webvtt.py:56 | keeps hours, minutes and seconds, and rounds the microseconds down to a whole millisecond |
| Timing.Millis | isubrip/subtitle_formats/webvtt.py:56 | milliseconds since midnight stay below one day |
| Timing.FormatTime | isubrip/subtitle_formats/webvtt.py:56 | the rendered time is 12 characters, with `:` at 2 and 5 and the separator at 8 |
| Timing.ParseIsoTime | isubrip/utils.py:640 | accepts exactly the `HH:MM:SS.fff` texts with hours below 24 and minutes and seconds below 60, read field by field, and the hour-less `AA:BB.fff` texts with `AA` below 24 and `BB` below 60, read as `AA` hours and `BB` minutes with no seconds; every accepted time is a whole number of milliseconds |
| Timing.ParseFormatTime | isubrip/utils.py:640 | reading a rendered time gives back the time cut to milliseconds |
| Timing.FormatParseIsoTime | isubrip/utils.py:640 | every accepted text has one of the two shapes; a text with hours renders back to itself, and an hour-less `AA:BB.fff` renders as `AA:BB:00.fff` |
| Timing.SplitShortTimestamp | isubrip/utils.py:626-640 | a timing line of two hour-less times is accepted iff both times are, and then reads each as `fromisoformat` does, as hours and minutes |
| Timing.ShortCueTimeAsWritten | isubrip/utils.py:640 | `00:01.000` is read as one minute, where the cue-time reading gives one second |
| Timing.ParseCueTime | isubrip/subtitle_formats/webvtt.py:242-243 | the corrected cue-time reader: a text with hours is read as `fromisoformat` reads it; an hour-less `MM:SS.fff` is read as `00:MM:SS.fff`; any other text is refused |
| Timing.FormatParseCueTime | isubrip/subtitle_formats/webvtt.py:242-243 | under the corrected reading, an accepted text with hours renders back to itself, and an hour-less one to itself behind `00:` |
| Timing.SplitTimestamp | isubrip/utils.py:626-640 | both halves of an accepted timestamp are whole milliseconds |
| Timing.ReplaceCommaInTime | isubrip/utils.py:637 | replacing `,` by `.` turns a SubRip time into the WebVTT time |
| Timing.SplitFormattedTimestamp | isubrip/utils.py:626-640 | a rendered timing line, with either separator, reads back as the two millisecond-truncated times |
| VttSyntax.TimestampLength | isubrip/subtitle_formats/webvtt.py:242-243 | the timestamp match is 12 characters iff the long form is at the start, 9 iff the short form is, and 0 otherwise |
| VttSyntax.BlankRun | isubrip/subtitle_formats/webvtt.py:259 | the run is all blanks, and it ends at the end of the text or before a non-blank |
| VttSyntax.DigitRun | isubrip/subtitle_formats/webvtt.py:246 | the run is all digits, and it ends at the end of the text or before a non-digit |
| VttSyntax.WordLength | isubrip/subtitle_formats/webvtt.py:245 | a non-zero length is the length of one of the alternatives that the text starts with |
| VttSyntax.PercentageLength | isubrip/subtitle_formats/webvtt.py:241 | a percentage match starts with a digit and ends in `%` |
| VttSyntax.RegionIdLength | isubrip/subtitle_formats/webvtt.py:248 | a region id takes no white space |
| VttSyntax.CaptionHead | isubrip/subtitle_formats/webvtt.py:262 | a match starts with a timestamp, and group 1 is a prefix of the line |
| VttSyntax.CueTimingsLength | isubrip/subtitle_formats/webvtt.py:242-243 | the cue timings are found only where a timestamp starts the line |
| VttSyntax.UpToNewline | isubrip/subtitle_formats/webvtt.py:263 | `.+` takes the text up to the first newline or the end |
| VttSyntax.CommentHead | isubrip/subtitle_formats/webvtt.py:263 | a match starts with `NOTE`, and a group 1 is non-empty text of the line |
| VttSyntax.TimestampShapes | isubrip/subtitle_formats/webvtt.py:242-243 | both shapes are accepted with either separator, and out-of-range or short fields are refused |
| VttSyntax.CommentHeadShapes | isubrip/subtitle_formats/webvtt.py:263 | `NOTE text` and `NOTE\ttext` carry the text; `NOTE` and `NOTE ` carry none; `NOTES` is no comment |
| VttScan.TakeBody | isubrip/subtitle_formats/webvtt.py:180-185 | a body is the non-empty lines up to the first empty line, which is consumed; failing that, everything up to the end |
| VttScan.Scan | isubrip/subtitle_formats/webvtt.py:164-236 | the line loop yields at most one block per line, and none when no line opens a block |
| VttScan.ScanPlain | isubrip/subtitle_formats/webvtt.py:236 | a line that opens nothing becomes the previous line and adds no block |
| VttScan.ScanEmptyLine | isubrip/subtitle_formats/webvtt.py:170-174 | an empty line clears the previous line, so a caption right after it has no identifier |
| VttScan.ScanTrimEmpty | isubrip/subtitle_formats/webvtt.py:164-166 | trailing empty lines do not change what is read |
| VttScan.PayloadJoins | isubrip/subtitle_formats/webvtt.py:185-187 | the payload of a block is its lines joined by newlines |
| WebVtt.Dumps | isubrip/subtitle_formats/webvtt.py:137-149 | a document starts with `WEBVTT` and does not end in a newline |
| WebVtt.DumpsFixed | isubrip/subtitle_formats/webvtt.py:137-149 | the corrected writer's document starts with `WEBVTT` |
| WebVtt.LoadsFixed | isubrip/subtitle_formats/webvtt.py:152-237 | the corrected reader builds no SubRip caption and no modified block |
| WebVtt.DumpsEmpty | isubrip/subtitle_formats/webvtt.py:144-149 | a document with no blocks is exactly `WEBVTT` |
| WebVtt.ToBlock | isubrip/subtitle_formats/webvtt.py:188-234 | the reader never builds a Style, a SubRip caption or a modified block |
| WebVtt.Loads | isubrip/subtitle_formats/webvtt.py:152-237 | every block read is an unmodified WebVTT block other than Style |
| WebVtt.LoadsIsLoadsFixedWithRegions | isubrip/subtitle_formats/webvtt.py:224-234 | the reader as written succeeds iff the corrected one does, and gives its blocks with every Style read as Region |
| WebVtt.CaptionHeadOfCueLine | isubrip/subtitle_formats/webvtt.py:262 | the caption expression recognises a written cue line, and its groups are the timings and the settings |
| WebVtt.ScanCaption | isubrip/subtitle_formats/webvtt.py:166-193 | the lines of a storable caption read back as that caption's entry |
| WebVtt.ScanComment | isubrip/subtitle_formats/webvtt.py:195-210 | the lines of a storable comment read back as that comment's entry, inline flag included |
| WebVtt.ScanHeader | isubrip/subtitle_formats/webvtt.py:212-234 | a style or region block with its header on a line of its own reads back as its entry |
| WebVtt.EntriesRoundTrip | isubrip/subtitle_formats/webvtt.py:188-234 | building blocks from the entries of storable blocks gives those blocks back |
| WebVtt.LoadsDumpsFixed | isubrip/subtitle_formats/webvtt.py:137-237 | every list of storable blocks, of any kind, reads back unchanged under the corrected pair |
| WebVtt.LoadsDumps | isubrip/subtitle_formats/webvtt.py:137-237 | under the pair as written, a list of storable captions and comments reads back unchanged |
| WebVtt.HeaderBlockDroppedAsWritten | isubrip/subtitle_formats/webvtt.py:109-110 | a style or region block with a one-line payload is written as `STYLE payload` and reads back as nothing |
| WebVtt.StyleBecomesRegionAsWritten | isubrip/subtitle_formats/webvtt.py:224-234 | an empty style block reads back as a region block |
| WebVtt.HeaderBlockFixed | isubrip/subtitle_formats/webvtt.py:93-130 | the corrected pair keeps every style and region block |
| SubRip.Numbered | isubrip/subtitle_formats/subrip.py:35 | one numbered text per text |
| SubRip.Render | isubrip/subtitle_formats/subrip.py:30-38 | the numbered paragraphs with trailing newlines stripped; stated by `SubRip.RenderJoins` and `SubRip.RenderEmpty` |
| SubRip.Loads | isubrip/subtitle_formats/subrip.py:40-42 | reading SubRip always fails with not-implemented |
| SubRip.Dumps | isubrip/subtitle_formats/subrip.py:30-38 | the document is the numbered block texts with trailing newlines stripped; no blocks give the empty text |
| SubRip.RenderJoins | isubrip/subtitle_formats/subrip.py:30-38 | when the last block text does not end in a newline, the document is the texts numbered 1 to K and separated by blank lines, and it starts with `1` |
| SubRip.RenderEmpty | isubrip/subtitle_formats/subrip.py:38 | no blocks render as the empty document |
| SubRip.SubRipBlockText | isubrip/subtitle_formats/subrip.py:9-16 | a SubRip block is a 29-character timing line, a newline and the payload, and its timing line reads back as its times |
| Subtitles.Read | isubrip/subtitle_formats/subtitles.py:189-197 | WebVTT data are read by `loads` as written, and the blocks read are never modified; SubRip data cannot be read |
| Subtitles.Render | isubrip/subtitle_formats/webvtt.py:137-149 | a WebVTT rendering starts with `WEBVTT`; the SubRip branch is `SubRip.Render` over the block texts (isubrip/subtitle_formats/subrip.py:30-38), so a SubRip object without blocks renders as the empty text |
| Subtitles.Modified | isubrip/subtitle_formats/subtitles.py:320-327 | an object is modified iff its own flag is set or one of its blocks is modified |
| Subtitles.New | isubrip/subtitle_formats/subtitles.py:114-133 | empty or absent data give an empty object without raw data; otherwise the raw data are kept; a new object is never modified |
| Subtitles.Dump | isubrip/subtitle_formats/subtitles.py:209-221 | the raw bytes verbatim while there are raw data and nothing is modified, and the encoded rendering otherwise |
| Subtitles.Dumps | isubrip/subtitle_formats/subtitles.py:223-235 | the decoded raw data while there are raw data and nothing is modified, and the rendering otherwise |
| Subtitles.DumpOfNew | isubrip/subtitle_formats/subtitles.py:114-133 | an object freshly read from data dumps exactly that data |
| Subtitles.AddBlocks | isubrip/subtitle_formats/subtitles.py:237-263 | an empty list changes nothing; otherwise the blocks are appended and the flag becomes flag or set_modified; the other fields are kept |
| Subtitles.AddBlock | isubrip/subtitle_formats/subtitles.py:257-261 | a single block is always appended |
| Subtitles.AddBlocksModified | isubrip/subtitle_formats/subtitles.py:237-263 | after a non-empty addition, the object is modified iff it was, the caller asked, or an added block is |
| Subtitles.AddBlocksCompose | isubrip/subtitle_formats/subtitles.py:251-261 | two additions with the same flag are one addition of both lists |
| Subtitles.AppendSubtitles | isubrip/subtitle_formats/subtitles.py:265-282 | nothing happens when the other object has no blocks; otherwise its blocks are appended and the target is modified |
| Subtitles.AppendSubtitlesIsAddBlocks | isubrip/subtitle_formats/subtitles.py:276-280 | the extra modified test is redundant: appending is adding the other object's blocks with the flag set |
| Subtitles.Add | isubrip/subtitle_formats/subtitles.py:135-154 | a block is appended; an object of the same format has its blocks appended; anything else changes nothing |
| Subtitles.AddedBlocksAreRendered | isubrip/subtitle_formats/subtitles.py:223-235 | after blocks are added, `dumps` renders all blocks instead of returning the raw data |
| Subtitles.Copy | isubrip/subtitle_formats/subtitles.py:156-162 | a copy has the same raw data, language and encoding, one block per block, each equal to the original and modified iff it is; it is modified iff the original is, and its flag is set to that |
| Subtitles.CopyBlock | isubrip/subtitle_formats/subtitles.py:70-73 | a copied caption equals the original and keeps `modified`, but has no identifier and no settings; other blocks are kept |
| Subtitles.CopyDumps | isubrip/subtitle_formats/subtitles.py:156-162 | a copy dumps to the same text and bytes as its original while the raw data are passed through, or when no caption has an identifier or settings |
| Subtitles.CopyDropsIdentifierAsWritten | isubrip/subtitle_formats/subtitles.py:70-73 | a WebVTT caption with an identifier, without raw data, is dumped differently by its copy |
| Subtitles.CopyKeepingCues | isubrip/subtitle_formats/subtitles.py:156-162 | the corrected copy keeps every block whole and sets its flag to `modified()` |
| Subtitles.CopyKeepingCuesDumps | isubrip/subtitle_formats/subtitles.py:156-162 | the corrected copy always dumps to the same text and bytes as its original |
| Subtitles.SameBlocksPointwise | isubrip/subtitle_formats/subtitles.py:164-165 | list equality is equal length with pairwise equal blocks |
| Subtitles.Equal | isubrip/subtitle_formats/subtitles.py:164-165 | two objects are equal iff they have the same format class and equal block lists; language, encoding, raw data and flags take no part |
| Subtitles.CopyEqual | isubrip/subtitle_formats/subtitles.py:164-165 | a copy equals its original, both ways |
| Subtitles.ToSrt | isubrip/subtitle_formats/subtitles.py:329-346 | the result is a SubRip object with the same language and encoding and no raw data, modified iff it has blocks |
| Subtitles.SrtBlocksConcat | isubrip/subtitle_formats/subtitles.py:343 | conversion goes block by block, so it distributes over concatenation |
| Subtitles.SrtBlocksOfCaptions | isubrip/subtitle_formats/subtitles.py:343 | one converted block per caption block, in order, the i-th being the conversion of the i-th caption |
| Subtitles.SrtBlocksOfSubRip | isubrip/subtitle_formats/subtitles.py:343 | a list of SubRip captions converts to itself |
| Subtitles.FixIfCaption | isubrip/subtitle_formats/subtitles.py:309-310 | the block stays equal iff it is not a caption or the payload is kept |
| Subtitles.RemoveFirst | isubrip/subtitle_formats/subtitles.py:313 | one block fewer when an equal block is present, and no change otherwise; which block goes is stated by `Subtitles.RemoveFirstIsFirst` |
| Subtitles.RemoveFirstIsFirst | isubrip/subtitle_formats/subtitles.py:313 | the first block equal to the removed one is taken out, and the blocks before and after it keep their order |
| Subtitles.WalkAsWritten | isubrip/subtitle_formats/subtitles.py:306-316 | the loop as written, stepping by index over a list it shrinks; its bounds are stated by `Subtitles.WalkAsWrittenBounds` |
| Subtitles.PolishAsWritten | isubrip/subtitle_formats/subtitles.py:284-318 | `polish` as written; its bounds are stated by `Subtitles.PolishAsWrittenBounds` |
| Subtitles.WalkAsWrittenBounds | isubrip/subtitle_formats/subtitles.py:306-316 | the loop as written never adds blocks, and sets the flag when it removes one |
| Subtitles.PolishAsWrittenBounds | isubrip/subtitle_formats/subtitles.py:284-318 | `polish` as written never adds blocks, flags removals, keeps a set flag, and does nothing when both fixes are off |
| Subtitles.ThreeDuplicatesKeepTwoAsWritten | isubrip/subtitle_formats/subtitles.py:308-316 | three equal captions in a row keep two under the loop as written |
| Subtitles.SkippedBlockNotFixedAsWritten | isubrip/subtitle_formats/subtitles.py:308-316 | the block after a removed duplicate is passed over and stays unfixed |
| Subtitles.EarlierBlockRemovedAsWritten | isubrip/subtitle_formats/subtitles.py:312-313 | an earlier equal block is removed instead of the neighbour, leaving two equal neighbours |
| Subtitles.Collapse | isubrip/subtitle_formats/subtitles.py:312-316 | the corrected duplicate removal, collapsing each run of equal neighbours to its last block: it never grows the list and keeps the last block |
| Subtitles.CollapseNoAdjacentSame | isubrip/subtitle_formats/subtitles.py:312-316 | after the corrected collapse, no block equals its neighbour |
| Subtitles.CollapseKeeps | isubrip/subtitle_formats/subtitles.py:312-316 | the corrected collapse changes nothing iff there are no equal neighbours |
| Subtitles.CollapseIsSubsequence | isubrip/subtitle_formats/subtitles.py:312-316 | under the corrected collapse, the kept blocks are the original blocks with some left out, in order |
| Subtitles.ThreeDuplicatesKeepOne | isubrip/subtitle_formats/subtitles.py:308-316 | the corrected polish reduces three equal captions to one |
| Subtitles.FixAllFixed | isubrip/subtitle_formats/subtitles.py:309-310 | every caption of a fixed list is left alone by a further fix |
| Subtitles.CollapseSnoc | isubrip/subtitle_formats/subtitles.py:312-316 | under the corrected collapse, one more block is one turn of the corrected loop: it replaces the last kept block when the two are equal, and is appended otherwise |
| Subtitles.PolishBlocks | isubrip/subtitle_formats/subtitles.py:308-316 | the corrected loop, not the loop as written (see Findings), leaves the fixed blocks with each run of equal neighbours reduced to its last block, and sets the flag iff it was set or a block was removed |
| Subtitles.Polish | isubrip/subtitle_formats/subtitles.py:284-318 | the corrected `polish`: the blocks are the fixed blocks with runs of equal neighbours collapsed when asked; the flag is set iff it was or a block was removed; other fields are kept |
| Subtitles.PolishIntended | isubrip/subtitle_formats/subtitles.py:284-318 | the corrected result has no equal neighbours, keeps order, holds only fixed captions when fixing, and equals the input when there was nothing to remove |
| Legacy.ToString | isubrip/webvtt.py:53-80 | the SubRip form is the comma timing line, a newline and the payload |
| Legacy.Same | isubrip/webvtt.py:46-48 | captions are equal iff their timings and payload agree; comments compare their payload and inline flag; styles and regions compare their payload; different classes are never equal |
| Legacy.SameAgainstCurrent | isubrip/webvtt.py:46-48 | legacy block equality is the current model's block equality on the same blocks |
| Legacy.Str | isubrip/webvtt.py:50-51 | `str(block)`: a caption's WebVTT form, and the `NOTE`, `STYLE` and `REGION` forms of the other blocks |
| Legacy.StrAgainstCurrent | isubrip/webvtt.py:50-80 | every block renders as its current counterpart, except a caption without settings, which renders differently |
| Legacy.CaptionTextAgainstCurrent | isubrip/webvtt.py:53-80 | the legacy WebVTT caption text equals the current one when there are settings, and has a trailing space otherwise |
| Legacy.SrtTextAgainstCurrent | isubrip/webvtt.py:65-78 | the legacy SubRip caption text is the current SubRip block's text |
| Legacy.FixRtl | isubrip/webvtt.py:82-89 | timings, identifier and settings are kept, and the payload starts with the mark |
| Legacy.Prepared | isubrip/subtitles.py:85-86 | a block is unchanged unless it is a caption and fixing applies |
| Legacy.AddBlockAsWritten | isubrip/subtitles.py:75-88 | a block equal to the last one is skipped when duplicates are removed; otherwise it is appended, fixed when fixing applies |
| Legacy.AddBlock | isubrip/subtitles.py:75-88 | the existing blocks stay as a prefix, and at most one block is added: the fixed block, added iff it is not equal to the last block |
| Legacy.AddBlockAgrees | isubrip/subtitles.py:83-88 | without right-to-left fixing, the code as written and the corrected version agree |
| Legacy.AddBlockKeepsNoAdjacentSame | isubrip/subtitles.py:82-88 | with duplicates removed, appending never creates two equal neighbours |
| Legacy.RtlDuplicateKeptAsWritten | isubrip/subtitles.py:83-88 | with fixing on, an equal caption (a distinct object) appended after a caption is kept too, as an equal neighbour |
| Legacy.RtlDuplicateSkipped | isubrip/subtitles.py:83-88 | the corrected version keeps the same caption once |
| Legacy.AddAllPrefix | isubrip/subtitles.py:90-98 | the corrected appending keeps the existing blocks as a prefix and adds at most one block per given block |
| Legacy.AppendKeepsNoAdjacentSame | isubrip/subtitles.py:90-98 | with duplicates removed, the corrected appending creates no equal neighbours, the seam between the two objects included |
| Legacy.AddAll | isubrip/subtitles.py:90-98 | the corrected `add_block` over each block in turn keeps the language code |
| Legacy.AppendSubtitles | isubrip/subtitles.py:90-98 | the corrected `append_subtitles` keeps the language code |
| Legacy.Add | isubrip/subtitles.py:23-25 | the corrected `__add__` adds at most one block |
| Legacy.AddAllAsWritten | isubrip/subtitles.py:90-98 | `add_block` as written over each block in turn keeps the language code |
| Legacy.AppendSubtitlesAsWritten | isubrip/subtitles.py:90-98 | `append_subtitles` as written keeps the language code |
| Legacy.AddAsWritten | isubrip/subtitles.py:23-25 | `__add__` as written skips the block iff duplicates are removed and it equals the last block unfixed; otherwise it appends the block, fixed when fixing applies |
| Legacy.AddAllAsWrittenPrefix | isubrip/subtitles.py:90-98 | appending as written keeps the existing blocks as a prefix and adds at most one block per given block |
| Legacy.AddAllAgrees | isubrip/subtitles.py:90-98 | without right-to-left fixing, appending as written and the corrected appending give the same object |
| Legacy.AppendAsWrittenKeepsNoAdjacentSame | isubrip/subtitles.py:90-98 | without right-to-left fixing, appending as written with duplicates removed creates no equal neighbours |
| Legacy.AppendRtlDuplicateKeptAsWritten | isubrip/subtitles.py:90-98 | with fixing on, appending an object holding two equal captions to an empty right-to-left object keeps both, side by side |
| Legacy.AddAllWithoutDedupe | isubrip/subtitles.py:90-98 | without duplicate removal, every given block is appended, prepared, in order |
| Legacy.ToBlock | isubrip/subtitles.py:176-186 | the reader never builds a Style block |
| Legacy.Loads | isubrip/subtitles.py:100-189 | a read object has no language code |
| Legacy.LoadsProperties | isubrip/subtitles.py:100-189 | reading never fixes right to left, and with duplicates removed it never gives equal neighbours |
| Legacy.DumpsVtt | isubrip/subtitles.py:27-39 | the WebVTT document starts with `WEBVTT`; `Legacy.DumpsVttAgainstCurrent` relates it to the current writer |
| Legacy.DumpsVttAgainstCurrent | isubrip/subtitles.py:27-39 | when every caption has settings, the legacy WebVTT document is the current writer's document for the same blocks |
| Legacy.DumpsSrt | isubrip/subtitles.py:41-56 | only the captions are written, as SubRip paragraphs numbered 1 to K in block order with no gaps |
| Legacy.Dumps | isubrip/subtitles.py:191-205 | the WebVTT format gives the WebVTT writer's document, and SubRip gives the numbered captions |
| Legacy.SrtCaptionsOnly | isubrip/subtitles.py:51-54 | a caption-only document numbers every block, and one without captions is empty |
| Utils.CollapseDots | isubrip/utils.py:659 | the result has no `..`, never grows, and keeps the first and last characters |
| Utils.CollapseDotsKeepsText | isubrip/utils.py:659 | only dots are removed: the other characters stay, in order |
| Utils.CollapseDotsIdentity | isubrip/utils.py:659 | a text without `..` is unchanged |
| Utils.StandardizeTitle | isubrip/utils.py:644-672 | off Windows the title has no `..`; with no replacements it also has no space at either end |
| Utils.Pad2Int | isubrip/utils.py:317 | at least two characters |
| Utils.TitlePart | isubrip/utils.py:305 | the title part never ends in a dot |
| Utils.EpisodeTag | isubrip/utils.py:316-317 | the tag is present iff both season and episode are given, and it starts with `S` and the padded season |
| Utils.ExtendAllJoins | isubrip/utils.py:307-346 | appending the given parts one by one, each after a dot, is joining all of them with dots |
| Utils.FormatReleaseName | isubrip/utils.py:275-346 | the name is the title part and every given component, in the fixed order, joined by dots |
| Utils.FormatReleaseNameTitleOnly | isubrip/utils.py:305-346 | with every optional argument absent, the name is the title part alone |
| Utils.FormatSubtitlesDescription | isubrip/utils.py:349-360 | `name (code)` for a non-empty name and the bare code otherwise, followed by ` [type]` when a type is given |
| Utils.DescriptionRoundTrip | isubrip/utils.py:349-360 | for a code not ending in `]`, the type and the non-empty name read back from the description: the suffix appears iff a type is given, the name iff a non-empty one is |
| Utils.Combine | isubrip/utils.py:493-503 | a repeated key always becomes a list, holding the earlier items and then the new ones |
| Utils.MergeInto | isubrip/utils.py:491-505 | the keys after a merge step are the union of both dictionaries' keys |
| Utils.NonEmpty | isubrip/utils.py:481 | every kept dictionary is non-empty |
| Utils.MergeDictValues | isubrip/utils.py:462-507 | no non-empty dictionary gives `{}`; one gives that dictionary; more are merged by the loop |
| Utils.MergeAllOne | isubrip/utils.py:486-487 | the one-dictionary shortcut agrees with the loop |
| Utils.MergeAllValues | isubrip/utils.py:462-507 | a key is in the result iff some dictionary holds it; its items are all its items in argument order; it becomes a list iff two or more dictionaries hold it |
| Utils.MergeAllSingle | isubrip/utils.py:504-505 | a key held by one dictionary only keeps that value as it is |
| Utils.MergeAllAbsent | isubrip/utils.py:491-505 | a key held by no dictionary is absent |
| Utils.MergeDictValuesExample | isubrip/utils.py:468 | the documented example merges to `{'a': [1, 2], 'b': [3, 4]}` |
| Utils.MergeDictValuesSecondExampleAsWritten | isubrip/utils.py:469 | the second documented example merges to `{'a': [1, 1], 'b': [2, 2, 3]}`, not to the documented `{'a': 1, 'b': [2, 3]}` |
| Utils.CombineDistinct | isubrip/utils.py:469 | a key found again keeps its items first, holds exactly the items of both values, and is unchanged when nothing new is added |
| Utils.MergeDictValuesDistinct | isubrip/utils.py:462-487 | the merge without repeats takes the same shortcuts for no and for one non-empty dictionary |
| Utils.MergeAllDistinctValues | isubrip/utils.py:462-507 | the merge without repeats keeps every key of every dictionary, each holding exactly the items collected for it |
| Utils.MergeDictValuesDistinctExamples | isubrip/utils.py:468-469 | both documented examples hold for the merge without repeats |
| Utils.MergeDictValuesDistinctAgrees | isubrip/utils.py:462-507 | the two merges have the same keys, and each key holds the same items, repeats aside |
| Utils.BuildParams | isubrip/utils.py:570 | parsing succeeds iff every parameter splits on `=` into exactly two parts |
| Utils.ParseUrlParams | isubrip/utils.py:553-570 | a lone parameter without `=` gives `{}`; otherwise it fails iff some parameter is not `key=value` |
| Utils.BuildParamsValues | isubrip/utils.py:570 | each key maps to the value of its last occurrence |
| Utils.BuildParamsKeys | isubrip/utils.py:570 | the keys are exactly the parameters' keys |
| Utils.ParseEncoded | isubrip/utils.py:553-570 | parsing the query of `base?k1=v1&…` gives back every pair, for distinct keys free of `=`, `&` and `?` |
| Utils.SplitOfJoin | isubrip/utils.py:563-564 | splitting a join of separator-free parts gives the parts back |
| Utils.ReturnFirstValid | isubrip/utils.py:583-604 | the first non-None value; none at all raises iff raise_error is set, and gives None otherwise |
| Utils.SingleStringToList | isubrip/utils.py:606-623 | None gives `[]`, a string `[s]` and a list itself |
| Utils.SingleStringToListStable | isubrip/utils.py:606-623 | feeding a result back in as a list gives it back unchanged |
| Utils.NormalizeConfigName | isubrip/utils.py:510-520 | same length, with no `_` and no upper-case letter |
| Utils.NormalizeConfigNameIdempotent | isubrip/utils.py:510-520 | normalising twice is normalising once |
| Utils.Stem | isubrip/utils.py:434 | the stem followed by the suffix is the whole name |
| Utils.CandidateLeavesDirectoryAsWritten | isubrip/utils.py:436-437 | without an extension, relative `out/movie` is retried as `out/out/movie-1` |
| Utils.CandidateAsWritten | isubrip/utils.py:433-437 | the candidate as written: `stem-i` plus the extension beside the path, or the whole path with `-i` appended; stated through `Utils.CandidateAgrees` and `Utils.CandidateLeavesDirectoryAsWritten` |
| Utils.Candidate | isubrip/utils.py:433-437 | a corrected candidate stays in the path's own directory |
| Utils.CandidateAgrees | isubrip/utils.py:433-437 | with an extension, or for an absolute path, the corrected candidate is the one the code builds |
| Utils.CandidateInjective | isubrip/utils.py:431-442 | different attempts give different candidates |
| Utils.AttemptsBounded | isubrip/utils.py:431-442 | n existing candidates need at least n existing paths, so the loop ends |
| Utils.GenerateNonConflictingPath | isubrip/utils.py:413-442 | the corrected search, over the corrected `Candidate`: the result does not exist; it is the path itself when that does not exist, and otherwise the first free numbered sibling counting from 1 |
| Hls.AttributeNamed | isubrip/scrapers/scraper.py:263-280 | a found attribute has that config name, and a missing one means no attribute has it |
| Hls.AttributeNamedConfigName | isubrip/scrapers/scraper.py:263-280 | every attribute is found again by its config name |
| Hls.DetectSubtitlesType | isubrip/scrapers/scraper.py:374-390 | forced iff `FORCED=YES`; otherwise closed captions iff the characteristics contain `public.accessibility`; otherwise none |
| Hls.CheckFilters | isubrip/scrapers/scraper.py:416-433 | an entry is valid iff every filter names an attribute the entry has with a value matching the filter, ignoring case |
| Hls.GetMediaPlaylists | isubrip/scrapers/scraper.py:392-438 | with no merged filters every entry, otherwise exactly the entries that pass every merged filter, in playlist order |
| Hls.DistinctMergeSelectsAlike | isubrip/scrapers/scraper.py:407-409 | the repeats `merge_dict_values` leaves in the merged filters make no difference: the merge without repeats selects the same entries |
| Hls.FilterMedia | isubrip/scrapers/scraper.py:411-436 | the entries kept are the ones that pass, in order |
| Hls.NoFiltersKeepAll | isubrip/scrapers/scraper.py:412-414 | with no filters every entry is returned |
| Hls.SelectedIff | isubrip/scrapers/scraper.py:411-436 | with filters, an entry is returned iff it is in the playlist and passes every filter |
| Hls.SelectedIsSubsequence | isubrip/scrapers/scraper.py:411-438 | the result is the playlist with some entries left out, in order |
| Hls.UnknownNameExcludesAll | isubrip/scrapers/scraper.py:432-433 | a filter under a name that is not an attribute excludes every entry |
| Hls.MissingAttributeExcludes | isubrip/scrapers/scraper.py:423 | an entry without the filtered attribute is excluded |
| Hls.FilterIgnoresCase | isubrip/scrapers/scraper.py:427 | filter values equal up to case select the same entries |
| Hls.ListFilterIsAnyOf | isubrip/scrapers/scraper.py:424-425 | a list filter passes iff one of its values passes on its own |
| ITunes.FindMatchingSubtitles | isubrip/scraper.py:126-160 | every yielded tuple belongs to a selected iTunes subtitles rendition, and every such rendition is yielded |
| ITunes.FindMatchingIsMapOfFilter | isubrip/scraper.py:139-160 | the yielded tuples are the selected renditions' tuples, in playlist order |
| ITunes.TypeOfAgrees | isubrip/scraper.py:154-158 | the legacy type agrees with `detect_subtitles_type`, normal being no special type |
| ITunes.EmptyFilterKeepsAll | isubrip/scraper.py:150 | an empty filter yields every iTunes subtitles rendition |
| ITunes.IsPlaylistValid | isubrip/scraper.py:178-191 | valid iff the first title entry carries exactly the movie title |
| ITunes.FirstTitleDecides | isubrip/scraper.py:189-191 | later title entries are never consulted |
| Script.FormatTitle | iSubRip.py:140-141 | a formatted title has no space and no parenthesis |
| Script.FormatTitleIdentity | iSubRip.py:140-141 | a title without spaces, parentheses or `&` is already formatted |
| Script.FormatZipName | iSubRip.py:148-149 | the archive name starts with the formatted title |
| Script.FormatFileName | iSubRip.py:144-145 | the file name is the archive name, the language, `.forced` for forced subtitles, then `.vtt` |
| Script.LowerFilter | iSubRip.py:29 | lowercasing keeps the number of filter entries |
| Script.IsWanted | iSubRip.py:106 | raises iff a `subtitles_ak` rendition is tested by name and has no name; true iff the rendition is `subtitles_ak` subtitles and the filter is empty, holds its language, or holds its lowercased name |
| Script.RenditionOf | iSubRip.py:107-108 | forced iff `FORCED=YES` |
| Script.SubtitlesPlaylists | iSubRip.py:105-108 | fails iff some rendition's test raises; otherwise it keeps exactly the wanted renditions |
| Script.EmptyFilterNeverFails | iSubRip.py:106 | an empty filter never raises and keeps every `subtitles_ak` subtitles rendition |
| Script.NameIgnoresCase | iSubRip.py:29 | a configured name selects a rendition whatever the case of either side |
| Script.WantedIsITunesSubtitles | iSubRip.py:106 | what the script keeps is also an iTunes subtitles rendition for the later scraper |
| Factory.ExtractConfig | isubrip/scrapers/scraper.py:512-521 | absent or empty config gives None; otherwise exactly the truthy sections of the scraper and the scrapers it uses, with their values |
| Factory.RemoveFirst | isubrip/scrapers/scraper.py:524 | one occurrence fewer of the removed class, and nothing else changes |
| Factory.GetInstance | isubrip/scrapers/scraper.py:485-529 | a cached class returns its instance and changes nothing; a class being initialised raises and changes nothing; a success is cached |
| Factory.CachedOnRepeat | isubrip/scrapers/scraper.py:503-529 | a repeated request returns the first instance and changes nothing, whatever its config |
| Factory.SelfRequestRaises | isubrip/scrapers/scraper.py:506-510 | a constructor that asks for its own class gets `ScraperError` |
| Factory.FailedConstructionBlocksRetry | isubrip/scrapers/scraper.py:510-524 | a constructor that raises leaves its class marked, so every later request raises `ScraperError` |
| Factory.SuccessfulConstructionUnmarks | isubrip/scrapers/scraper.py:510-524 | a successful construction caches the instance and restores the initialising list |
| Factory.FindById | isubrip/scrapers/scraper.py:590-595 | the first class with the id, or none iff no class has it |
| Factory.FindByUrl | isubrip/scrapers/scraper.py:597-602 | the first class whose pattern matches the URL, or none iff none matches |
| Factory.GetScraperInstance | isubrip/scrapers/scraper.py:561-610 | neither id nor URL raises; no match raises or gives None according to raise_error; None is never returned when raising is asked for |
| Factory.IdBeforeUrl | isubrip/scrapers/scraper.py:590-602 | with an id given, the URL plays no part |
| Factory.CachedById | isubrip/scrapers/scraper.py:590-595 | a request by id for a built scraper returns the cached instance of the first class with that id |

## Left out

- **Input and output.** Reading and writing files, the network, `httpx`, `m3u8` loading, ffmpeg calls and temporary folders are not modelled. Playlists are sequences of media records.
- **Text encoding.** `bytes.decode` and `str.encode` are the parameter `Subtitles.Codec`.
- **Object identity and aliasing.** The model has values only, so it leaves out the following:
  - mutation of blocks shared between objects;
  - `merge_dict_values` extending the caller's own lists;
  - `deepcopy`.
- **`modified` and `fix_rtl` on non-caption blocks.** The comment, style and region constructors skip the base initialiser, so those blocks never carry `modified`, and they have no `fix_rtl`. In Python, `modified()` raises `AttributeError` on an object holding one of them (isubrip/subtitle_formats/subtitles.py:327), and so does `polish` with right-to-left fixing on (isubrip/subtitle_formats/subtitles.py:310). The model does not raise there: it treats those blocks as unmodified and leaves them unfixed.
- **Defects that stop the code from running at all.** The model does not reproduce these. `Subtitles.Read` and `Subtitles.Render` are the bodies of the format classes' `loads` and `dumps`, as written, and they are used where the base class calls `_loads` and `_dumps`:
  - `Caption` does not define `to_srt`;
  - the non-caption blocks do not define `__copy__`, so `Subtitles.Copy` keeps them as they are;
  - the format classes define `dumps`/`loads` while the base class declares `_dumps`/`_loads`;
  - `WebVTTSubtitles.loads` builds `WebVTTSubtitles()` without the required `data` and `language_code` (isubrip/subtitle_formats/webvtt.py:162);
  - it calls `add_block`, which the base class does not define; only `add_blocks` exists (isubrip/subtitle_formats/webvtt.py:188, 210, 222, 234). `WebVtt.Loads` reads those calls as plain appends.
- **Subtitles.CopyDumps**: a copy dumps what its original dumps only while the raw data are passed through, or when no caption has an identifier or cue settings. `__copy__` rebuilds captions without them (see "Findings"); `Subtitles.CopyKeepingCuesDumps` states the unconditional promise for the corrected copy.
- **`Blocks.ToSrt`.** Conversion of a WebVTT caption to SubRip is a parameter: the caption class has no `to_srt` body to model.
- **Time.** `datetime.time` is modelled down to the microsecond. Time zones and `fold` are not modelled.
- **`Timing.ParseIsoTime`.** Models the C implementation of `time.fromisoformat` on the two shapes the timing expression lets through. It reads an hour-less `AA:BB.fff` as hours and minutes (see "Findings"). Other texts that `fromisoformat` accepts, such as `HH` or `HH:MM`, never reach it and are refused. The pure-Python fallback, which rejects the hour-less shape, is not modelled.
- **`WebVtt.LoadsFixed`.** It corrects the header defects only, and reads cue times as `fromisoformat` does. The corrected `Timing.ParseCueTime` agrees with that reading on every time with hours, which is every time the writers produce.
- **Regular expressions.** These are recognisers written for these patterns only:
  - `\d` means the ASCII digits;
  - `casefold`, `lower` and `upper` are ASCII only.
- **`Utils.StandardizeTitle`.** The stripped-ends property is stated only for an empty replacement table. `TITLE_REPLACEMENT_STRINGS`, the platform test and `WINDOWS_RESERVED_FILE_NAMES` come from a constants module that is not part of this model, so they are parameters.
- **`lru_cache`** on `standardize_title` is left out. It does not change results.
- **Filter values.** `Hls.GetMediaPlaylists` takes filter values that are a string or a list of strings. The source does not test any other value type: both `isinstance` tests fail, so an entry that has the attribute passes such a filter. Only a list holding non-strings raises, at `casefold`, and the `except` turns that into a failed filter. Neither case is modelled.
- **Config loading.** `config.get` and its validation are not modelled. Config filters are an argument.
- **`Factory.GetScraperInstance`.** The scraper classes are a parameter. `get_scraper_classes` discovers them by importing modules, which is not modelled. `match_url` is a parameter predicate.
- **`Factory.GetInstance`.** Keyword arguments other than `config_data` are not modelled. The constructor is a parameter function of the factory state.
- **`Utils.GenerateNonConflictingPath`.** The `str` to `Path` conversion is not modelled. File existence is a set of paths.
- **The rest of the repository.** The following are outside the modelled core:
  - the CLI, configuration and logging;
  - the Apple TV and iTunes scraper classes;
  - playlist downloading;
  - `format_media_description`, `generate_media_folder_name` and `convert_epoch_to_datetime`.

## Findings

| source | as written | input that shows it | evidently intended | confidence | as-written member | corrected member |
|---|---|---|---|---|---|---|
| isubrip/subtitle_formats/subtitles.py:306-316 | `polish` removes a block from the list it iterates over, so the iterator skips the next block | three equal captions keep two; in `[a, a, c]` with right-to-left fixing, `c` is not fixed | every caption fixed, and each run of equal neighbours reduced to one block | not executed | Subtitles.ThreeDuplicatesKeepTwoAsWritten | Subtitles.Polish |
| isubrip/subtitles.py:83-88 | `add_block` compares the incoming caption with the last block before fixing it, but the last block was stored fixed | an equal caption (a distinct object) appended after a caption to an RTL-language object with fixing and duplicate removal on is kept as well | compare the fixed block, so duplicates are skipped | not executed | Legacy.RtlDuplicateKeptAsWritten | Legacy.AddBlock |
| isubrip/subtitle_formats/webvtt.py:109-110 | `Style` and `Region` render `HEADER payload` on one line, which `loads` does not recognise as a header | `Style("x")` written and read back gives no blocks | the header on a line of its own, then the payload | not executed | WebVtt.HeaderBlockDroppedAsWritten | WebVtt.HeaderBlockFixed |
| isubrip/subtitle_formats/webvtt.py:224-234 | a `STYLE` header builds a `Region` block | `Style("")` written and read back gives `Region("")` | build a `Style` block | not executed | WebVtt.StyleBecomesRegionAsWritten | WebVtt.LoadsDumpsFixed |
| isubrip/utils.py:436-437 | without an extension the candidate is `parent / f"{path}-{i}"`, which nests a relative path under its parent a second time | relative `out/movie` is retried as `out/out/movie-1` | `parent / f"{name}-{i}"`, a sibling of the path; the defect is latent, since both callers without an extension (isubrip/utils.py:457, isubrip/__main__.py:472) pass a path under the absolute temporary folder (isubrip/constants.py:21), where `Utils.CandidateAgrees` shows the code is right | not executed | Utils.CandidateLeavesDirectoryAsWritten | Utils.GenerateNonConflictingPath |
| isubrip/subtitle_formats/subtitles.py:70-73 | a caption's `__copy__` rebuilds it from its times and payload only, so a WebVTT caption's identifier and cue settings are lost | a caption with identifier `x`, without raw data: the copy's document starts its cue with the timing line instead of `x` | a copy that keeps every field, so it dumps like its original | not executed | Subtitles.CopyDropsIdentifierAsWritten | Subtitles.CopyKeepingCuesDumps |
| isubrip/utils.py:469 | the second docstring example of `merge_dict_values` promises `{'a': 1, 'b': [2, 3]}`, but the loop repeats the items both dictionaries hold | `{'a': 1, 'b': 2}` and `{'a': 1, 'b': [2, 3]}` merge to `{'a': [1, 1], 'b': [2, 2, 3]}` | a merge that adds only items not yet held, matching both examples | not executed | Utils.MergeDictValuesSecondExampleAsWritten | Utils.MergeDictValuesDistinctExamples |
| isubrip/utils.py:640 | the cue times matched by the timing expression, whose hours are optional (isubrip/subtitle_formats/webvtt.py:242-243), are read by `time.fromisoformat`, which reads an hour-less `MM:SS.fff` as hours and minutes | the cue time `00:01.000` is read as one minute | read the hour-less shape as minutes and seconds, as the WebVTT cue-timings syntax defines it | not executed | Timing.ShortCueTimeAsWritten | Timing.ParseCueTime |
