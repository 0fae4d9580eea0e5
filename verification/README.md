# A Dafny model of slap and its support library

slap prints text on Seiko label printers: it lays text out in a bitmap font, turns the bitmap into
the head motions and print data of one of two printer families, and reads the status bytes that
come back. MJSulib, the library underneath, has a regular-expression compiler and matcher, bitmaps,
two hash functions and an option parser. This project models those parts and proves what they
promise, for all inputs.

Each file is one module (Bytes.dfy has three small shared ones):

| file | what it models |
|---|---|
| RegexpCode.dfy | encoded patterns and what they mean |
| RegexpSearch.dfy | which parse a backtracking search settles on |
| RegexpMatch.dfy | the matcher, on the encoded pattern |
| RegexpTags.dfy | what the recorded tags are |
| RegexpCompile.dfy | the compiler, which writes and shifts the pattern array in place |
| RegexpCompiled.dfy | what every compiled pattern is like; compiler and matcher together |
| RegexpSize.dfy | how much room a compiled pattern takes |
| RegexpNotation.dfy | the notation of expressions, spelling by spelling |
| Mbm.dfy | in-core bitmaps |
| SlPlus.dfy, SlPlusSense.dfy | the SLP-1x00 driver: print stream and status |
| SlPro.dfy, SlProSense.dfy | the SLP-100/200/Pro driver: print stream and status |
| Render.dfy, RenderPlaces.dfy, RenderPage.dfy | text layout, where it puts each character, and the renderer that draws it |
| Lines.dfy | reading a text by lines into a limited buffer |
| HashMap.dfy, Hash.dfy | the table-walk hashes |
| FontFile.dfy | font and bitmap files |
| FontUse.dfy | loaded fonts as the renderer uses them |
| GlyphText.dfy | glyph bitmaps as text |
| GetFlags.dfy | the option parser |

A loop or an in-place update of the original is a method over arrays or object fields here, proved
against a function or a relation that says what it should come to; the properties are lemmas about
that function or relation. Printers are modelled by what they do with each byte they take, so that
"the label is printed" is a statement about the dots on the paper.

What the proofs show about the code, where it is not what one would expect:

- A closure whose run reaches the end of the text, or a negated class that meets a newline, leaves
  the pattern on the closed element, so the rest is only tried after one more character of it. The
  manual's remedy, text that ends in a newline, helps exactly the closures over an element that
  neither matches newline nor is a negated class (`ClosureIsMeantIffSafe`); and it need not be the
  end: any newline at or after the place where the match starts does, and nothing else
  (`MeansWhatItSaysIffLineEnds`). Patterns may match a newline after their last closure.
- The parentheses of `\(` and `\)` are left in the expression and compiled as characters, so that a tagged
  part is only found where it stands in parentheses (`TagMatchesParens`, `TaggedNeedsParens`), the first of
  which is recorded with it; the manual says that tagging has no effect on what is matched. It also allows
  escape letters in upper case, which stand for themselves (`UpperCaseIsNoEscape`).
- The manual bounds the pattern array by twice the length of the expression. Two elements a character
  and six more are always enough; `PatternSize` counts what each construct takes less, and the bound
  holds exactly when that is four at least (`ManualBoundHoldsIff`), which it is for no plain word.
- The SLP-1x00 driver means to complete the final pair of bands, but adds one to an odd last band
  instead of to an even one. When the dot looked at last is in an even row, the odd rows of its pair
  are lost (`OddRowLost`); when it is in an odd row of the last pair, the driver reads past the end of
  its map, though no dot need be missing (`WholeButOverran`): so it does for every label with a box
  (`BottomCornerOverruns`). It also leaves out a band that has dots in column 0 only.
  `PrintsWholeLabelIff` says exactly which labels are printed whole and without that overrun.
- The same driver forgets an acknowledgement when another read follows in the same call
  (`AckLost`); the SLP-100/200/Pro driver's status does not depend on how the bytes were split.
- The renderer's test for the right edge counts the left bearing twice. It keeps a glyph on the page
  exactly when that bearing is not negative or the glyph is never drawn (`TestsKeepOnPageIff`), and
  draws it wherever it fits, as its description says, exactly when the bearing is 0 and the ascent not
  negative (`DrawnWhereItFitsIff`): a positive bearing makes it discard glyphs that fit next to the edge
  (`PositiveBearingIsDropped`).
- A glyph with a negative ascent, which the font format allows, is drawn only from a baseline above the
  page, where unsigned arithmetic wraps (`NegativeAscentIff`). Only a font of negative ascent has such
  baselines: its glyphs are drawn in the first lines of a label and dropped from then on
  (`FirstLineOnly`); in other fonts they are never drawn (`NegativeAscentIsDropped`).
- A tab does not go to a tab stop but to where the line already is within a space, as many columns
  past the stop (`TabStopIsNext`, `TabMissesStop`); it meets the stop exactly when it is a whole number
  of spaces in (`TabStopIsOnGridIff`).
- A line that would end exactly at the bottom of a label is moved to the next one (`ExactLineIsMoved`), the
  left bearing of a glyph moves all glyphs after it (`ColumnIsWidths`), and a blank line that is squeezed out
  does not go back to the first column (`SqueezedNewlineStays`).
- The box round a label has no side dots in its second row, unless that is the last
  (`BoxIsOutlineIff`).
- Bits are stored least significant first, although the header file says the opposite
  (mjsulib/mjsu.h:75, mjsulib/mbmsetb.c:30); the model follows the code.
- A font is read back as it was written exactly when its name has no newline, no NUL and at most 126
  bytes, although the name field has room for 128.
- A glyph dump is read back exactly when each row fits the line buffer with its newline, or the glyph
  has one row that fills the buffer.
- The manual's order of option names lets every single name be understood, but flags run together can
  be taken for another (`RunTogetherMistaken`). What is run together is taken apart as it was put
  together exactly when nowhere a longer name that goes on from one of its names is spelled there
  (`TakenStepwiseIffClear`); for slap's options, exactly when it is not a value after `p` that spells
  `portrait` (`SlapWordsAreClearIff`). That never happens, whatever follows a name, exactly when no
  name is a beginning of another (`StandsOutIffPrefixCode`).

## Model

| member | source | states |
|---|---|---|
| RegexpCode.EncodeHolds | mjsulib/regexp.c:172-210 | reading a pattern array in place, opcode by opcode, is reading the encoding of a list of elements |
| RegexpCode.DecodingIsUnique | mjsulib/regexp.c:89-210 | an encoded pattern can be read as one list of elements only |
| RegexpSearch.BestIsSound | mjsulib/regexp.c:172-210 | whatever the search settles on is a parse, closures that get stuck on their element included, for any text and pattern |
| RegexpSearch.BestIsGreatest | mjsulib/regexp.c:182-203 | if there is any parse the search finds one, and its closure counts are lexicographically the greatest |
| RegexpSearch.SearchDecides | mjsulib/regexp.c:172-210 | the search succeeds exactly when some parse of the coded meaning exists |
| RegexpSearch.SbolDerivesIff | mjsulib/pattern.ro:90-93 | a leading `^` holds at the start of the text only |
| RegexpSearch.SeolDerivesIff | mjsulib/pattern.ro:148-151 | a final `$` holds before a newline and at the end of the text |
| RegexpSearch.CharDerivesIff | mjsulib/pattern.ro:57-60 | an element takes one character that it accepts |
| RegexpSearch.ClosureDerivesIff | mjsulib/pattern.ro:95-101 | a closure takes any number of them |
| RegexpSearch.MeansWhatItSays | mjsulib/amatch.ro:91-93 | when a newline stands at or after the start, for patterns that keep to the line, success means what the manual says, and the parse is the greedy one |
| RegexpSearch.MeansWhatItSaysIffLineEnds | mjsulib/amatch.ro:91-93 | success means what the manual says, for all patterns that keep to the line, exactly when a newline stands at or after the start |
| RegexpSearch.ClosureIsMeantIffSafe | mjsulib/regexp.c:182-186 | a newline at or after the start makes the closures over an element work, in all texts and before all patterns that keep to the line, exactly when the element rejects newline and is not a negated class |
| RegexpSearch.UnsafeClosureFails | mjsulib/regexp.c:127-134 | a one-character text on which any other closure fails although a parse exists |
| RegexpMatch.OutcomeIsBest | mjsulib/regexp.c:172-210 | the end of the match and the tags recorded are those of the greedy parse |
| RegexpMatch.OutcomeForgets | mjsulib/regexp.c:135-149 | what abandoned attempts wrote into the tags makes no difference to what a later attempt comes to |
| RegexpMatch.MatchClass | mjsulib/regexp.c:58-85 | says whether a character is in an encoded class, and how long the class is |
| RegexpMatch.MatchOne | mjsulib/regexp.c:89-167 | one element against one character: when it passes, what is consumed, exactly where the pattern stands after success and after failure, which tag changes |
| RegexpMatch.RunClosed | mjsulib/regexp.c:182-186 | the run is the longest, and the pattern is left on the closed element exactly when the run is stuck |
| RegexpMatch.TryShorter | mjsulib/regexp.c:191-203 | trying from the longest run down comes to the first attempt that succeeds |
| RegexpMatch.AnchoredMatch | mjsulib/regexp.c:172-210 | terminates on every readable pattern; says yes exactly when a parse is found, gives its end, and leaves its tags |
| RegexpMatch.Match | mjsulib/regexp.c:215-230 | finds a match anywhere in the text exactly when one can be derived: skipping places where the first literal differs loses none |
| RegexpTags.TagsAreSubstrings | mjsulib/regexp.c:135-149 | after a match each tag is the substring that its part of the pattern derives in the parse, whatever the tag array held before |
| RegexpTags.TagZeroIsTheMatch | mjsulib/regexp.c:349-350 | tag 0 is the whole match |
| RegexpCompile.DoEscape | mjsulib/regexp.c:234-289 | the character an escape stands for, octal digits wrapped to a byte, and where it ends |
| RegexpCompile.GetClass | mjsulib/regexp.c:294-335 | writes the encoding of the class that is scanned, or runs past an expression that does not close it |
| RegexpCompile.InsertClose | mjsulib/regexp.c:382-384 | shifting the code in place puts CLOSE before the last element and changes nothing else but the slot after the code |
| RegexpCompile.Pattern | mjsulib/regexp.c:337-427 | the array holds the encoding of the translated expression, at most 2k+6 elements for k characters, with nothing written beyond; the verdict tells whether the expression is accepted |
| RegexpCompiled.CompiledShape | mjsulib/regexp.c:344-426 | every compiled pattern is a `^` or not, tag 0 opened, elements, tag 0 closed; every other tag is opened once and closed once, all of them if the expression balances |
| RegexpCompiled.CompiledRuns | mjsulib/regexp.c:337-427 | what the compiler leaves in the array is readable by the matcher, each CLOSE being followed by one single-character element |
| RegexpCompiled.Find | mjsulib/regexp.c:172-427 | compiling any expression and matching terminates, and if the expression is accepted finds it exactly where its elements can be derived |
| RegexpCompiled.FindAt | mjsulib/regexp.c:172-427 | compiling any expression and matching it at a place with tags: if it is accepted it is found exactly when it can be derived there, tag 0 is the match, every tag is the part its part of the pattern takes, and other tags are as they were |
| RegexpNotation.PrintCompiles | mjsulib/regexp.c:337-427 | compiling undoes printing: any characters, classes, closures and anchors, printed as an expression, compile back to themselves |
| RegexpNotation.NotationCompiles | mjsulib/regexp.c:230-427 | every spelling compiles to what it means: characters bare, by escape letter and by one to three octal digits, in and out of classes, ranges, `?`, `*`, closures, tags, `^` and `$` that stand for themselves, a lone backslash at the end |
| RegexpNotation.EscapeCompiles | mjsulib/regexp.c:256-284 | which character each letter after a backslash stands for, in codes |
| RegexpNotation.UpperCaseIsNoEscape | mjsulib/pattern.ro:60-77 | an escape letter in upper case stands for itself |
| RegexpNotation.ClassStandsFor | mjsulib/pattern.ro:112-131 | a class stands for its members and ranges, a negated one for all others but newline |
| RegexpNotation.TagMatchesParens | mjsulib/regexp.c:392-411 | a tagged character compiles to a tag, a parenthesis, the character, the end of the tag and a parenthesis |
| RegexpNotation.TaggedNeedsParens | mjsulib/pattern.ro:136-140 | it is found exactly where the character stands in parentheses |
| RegexpCompiled.WordDerivesItself | mjsulib/regexp.c:150-157 | a compiled plain word derives the word and nothing else |
| RegexpCompiled.FindWord | mjsulib/regexp.c:215-230 | compiling a plain word and matching it is substring search |
| RegexpCompiled.PlainWordsFillTheBound | mjsulib/pattern.ro:47-51 | a plain word of k characters takes 2k+6 elements, more than the manual's bound |
| RegexpSize.PatternSize | mjsulib/regexp.c:337-427 | a pattern takes 2k+6 elements for k characters, less exactly what its `?`, `$`, `^`, escapes, classes and surplus tags spare |
| RegexpSize.ManualBoundHoldsIff | mjsulib/pattern.ro:47-51 | the manual's bound holds exactly for the expressions that spare four elements |
| Mbm.LinearFits | mjsulib/mbmsetb.c:28-30 | every dot has its bit within the bytes allotted |
| Mbm.LinearIsInjective | mjsulib/mbmsetb.c:28 | no two dots share a bit |
| Mbm.AreaIsProduct | mjsulib/mjsuimpl.h:56 | the bits allotted are height times width |
| Mbm.BitOrder | mjsulib/mbmsetb.c:30 | bit 0 of a byte is the lowest |
| Mbm.Bitmap.DotIsBit | mjsulib/mbmsetb.c:28-30 | a dot is bit row times width plus column of the bytes, counted from the lowest bit of the first |
| Mbm.Bitmap.constructor | mjsulib/mbmbuy.c:27-46 | a new bitmap is a blank array of dots |
| Mbm.Bitmap.Clear | mjsulib/mbmclr.c:27-31 | clearing leaves no dot |
| Mbm.Bitmap.Set | mjsulib/mbmsetb.c:26-31 | setting a bit of the bytes sets that dot of the two-dimensional array and no other |
| Mbm.Bitmap.Test | mjsulib/mbmtstb.c:26-31 | testing a bit tells whether that dot is set |
| SlPlus.InterleavingIsBijective | slap/slplus.c:820-856 | the rows of a label and the bits of an even number of bands pair off one to one |
| SlPlus.GeometryGivesEvenBands | slap/slplus.c:1073-1078 | rounding the height gives a positive, even number of whole bands |
| SlPlus.Driver.TwoRows | slap/slplus.c:833-854 | one even and one odd row of a column: cells, edges and last band follow the dots |
| SlPlus.Driver.Pair | slap/slplus.c:822-855 | the slices of both bands of a pair are its dots, the edges the first and last column with one, the last band that of the dot looked at last |
| SlPlus.Driver.MapBands | slap/slplus.c:820-856 | the whole map is the label, bit by bit, and the last band is that of the last dot in scanning order |
| SlPlus.Driver.Seek | slap/slplus.c:884-909 | through every move and overshoot the position kept by the driver is that of the head, which ends no further right than the first dot |
| SlPlus.Driver.SendSlices | slap/slplus.c:913-919 | printing from the head on makes exactly the dots of those columns of the band |
| SlPlus.CommandCodes | slap/slplus.c:868-939 | what each code sent does to head and paper |
| SlPlus.DataCodes | slap/slplus.c:836-838 | the lowest bit of print data is the topmost pin |
| SlPlus.Driver.SendBand | slap/slplus.c:878-920 | a band prints exactly its dots, or nothing when all of them are in column 0 |
| SlPlus.Driver.SendBands | slap/slplus.c:878-936 | the stream prints exactly the dots of the bands up to the last, and runs past the map exactly when that is the number of bands |
| SlPlus.Driver.PrintLabel | slap/slplus.c:813-940 | unless the map is overrun, exactly one label is fed out, with exactly the dots of the inked bands sent, and the head is at the top of the next; the map is overrun exactly when the last dot is in the last band; the label is whole exactly when it is printable |
| SlPlus.Driver.Finish | slap/slplus.c:938-939 | moves the head to the margin and feeds the label out |
| SlPlus.Driver.PrintSeries | slap/slplus.c:813-940 | of a series of labels one is fed out for each, in order, each with its own picture, up to the first that overruns the map |
| SlPlus.SeriesComesOutWholeIff | slap/slplus.c:813-940 | each label of a series is whole exactly when it is printable |
| SlPlus.PrintsWholeLabelIff | slap/slplus.c:871-883 | the whole label is printed, and the map not overrun, exactly when no band has all its dots in column 0, the last dot is in an odd row or its pair has no dot in one, and it is not in the last band |
| SlPlus.NoDotIsMissingIff | slap/slplus.c:871-883 | no dot is missing on the paper exactly when the first two of these hold |
| SlPlus.WholeButOverran | slap/slplus.c:875-880 | a label of one dot that is printed whole while the driver reads past its map |
| SlPlus.BottomCornerOverruns | slap/slplus.c:875-880 | every label with a dot in the bottom right corner makes the driver read past its map |
| SlPlus.OddRowLost | slap/slplus.c:875-876 | two dots of which one is lost |
| SlPlusSense.Driver.TakeRead | slap/slplus.c:362-372 | a read leaves its last byte, with the acknowledgement of any of its bytes |
| SlPlusSense.Driver.Sense | slap/slplus.c:350-379 | the status of a call is that of its last read |
| SlPlusSense.StatusIsLastByte | slap/slplus.c:370-372 | but for the acknowledgement the status is the last byte received, however the bytes are split |
| SlPlusSense.AckReportedIff | slap/slplus.c:355-372 | acknowledgements are reported faithfully exactly when the last read has one or no read before it has |
| SlPlusSense.AckLost | slap/slplus.c:362-372 | the same two bytes, split and not split, with different results |
| SlPlusSense.QuietCall | slap/slplus.c:352-379 | a call without reads forgets the acknowledgement and keeps the rest |
| SlPro.Driver.MapBands | slap/slpro.c:1157-1197 | the slices show each dot at its place, or one column left on models with the bug; the last row is the last that has anything to print |
| SlPro.Driver.SendRow | slap/slpro.c:1217-1222 | a row prints exactly its dots |
| SlPro.CommandCodes | slap/slpro.c:1207-1222 | what each code sent does to head and paper |
| SlPro.TopBitOrder | slap/slpro.c:1191 | the top bit of a byte is the first of its columns |
| SlPro.RestIsBlank | slap/slpro.c:1215 | leaving out the rows after the last loses nothing |
| SlPro.Driver.PrintLabel | slap/slpro.c:1143-1228 | exactly one label is fed out, with the image of the whole label, and the head is at the top of the next |
| SlPro.Driver.PrintSeries | slap/slpro.c:1143-1228 | of a series of labels one is fed out for each, in order, each with its own image |
| SlPro.PrintsLabel | slap/slpro.c:1157-1197 | without the bug that image is the label |
| SlPro.SlopDropsFirstColumn | slap/slpro.c:1171-1187 | on a printer whose last column never fires it is the label without its first column, one column left |
| SlPro.SlopRepeatsLastColumn | slap/slpro.c:1168-1189 | the last column of the image repeats the one before |
| SlProSense.Driver.Take | slap/slpro.c:540-608 | one byte changes exactly the soft bits, the model or the pending status that its kind says |
| SlProSense.Driver.FindModel | slap/slpro.c:572-580 | the model is the table entry with the id, or none |
| SlProSense.Driver.Sense | slap/slpro.c:524-634 | status bits and model, by the codes of the bytes received: the last of 0x11 and 0x13 gives bit 0x200, 0xC7 and 0xC9 bits 0x400 and 0x800, the last of 0x40 to 0x7F the low six bits, the last of 0xE0 to 0xEF the model, the last other than 0x11 and 0x13 bit 0x100 |
| SlProSense.DecodingSays | slap/slpro.c:533-632 | the decoding, byte kind by byte kind, is what the codes of the bytes say |
| SlProSense.SplitDoesNotMatter | slap/slpro.c:533-632 | the status word and the model depend on the bytes only, not on how reads split them |
| Render.AcceptedFits | slap/render.c:153-155 | an accepted glyph with a bearing that is not negative is drawn on the page, at every baseline its font can have |
| Render.TestsKeepOnPageIff | slap/render.c:142-155 | the tests keep a glyph on every page, wherever it is placed, exactly when its left bearing is not negative, or its ascent is negative and the font's is not |
| Render.NegativeAscentIff | slap/render.c:153-155 | a glyph with a negative ascent passes the tests exactly at baselines above the page and not above its ascent, if it ends on the page |
| Render.NegativeAscentIsDrawn | slap/render.c:153-168 | above the page such a glyph, with left bearing 0, is accepted exactly where it fits |
| Render.NegativeAscentIsDropped | slap/render.c:154 | from the first row of the page on a glyph with a negative ascent is accepted nowhere |
| Render.FirstLineOnly | slap/render.c:153-157 | a font whose glyph is drawn in the first line and dropped in the second, where it fits too |
| Render.DrawnWhereItFitsIff | slap/render.c:74-155 | a glyph is accepted exactly where its box fits on the page, for all pages and all places its font can put it, exactly when its left bearing is 0 and its ascent not negative |
| Render.PositiveBearingIsDropped | slap/render.c:142-155 | a place next to the right edge where a glyph with a positive left bearing fits and is discarded |
| Render.EraseIff | slap/render.c:240-246 | a line can be erased exactly when no beginning of it has more backspaces than other characters |
| Render.TabStopIsNext | slap/render.c:262-265 | a tab goes on to the next multiple of eight spaces, and as far past it as the column was past a whole number of spaces |
| Render.TabStopIsOnGridIff | slap/render.c:47-50 | a tab meets one of the stops, set every eight spaces, exactly when the column is a whole number of spaces |
| Render.TabMissesStop | slap/render.c:262-265 | a tab from column 5, with spaces of 3 columns, goes to column 26 |
| Render.StepIsSound | slap/render.c:251-320 | every character keeps the baseline on the grid, the line on the label, and each label equal to what was drawn on it |
| Render.NothingIsLost | slap/render.c:235-324 | over a whole text no blank label is printed, each label shows exactly what was drawn on it, and all that was drawn is on a printed label |
| Render.TameTextsGoThroughIff | slap/render.c:194-327 | with bearings not negative and glyph widths positive, a text is laid out to its end exactly when no line has a backspace too many or, when a space has no width, a tab that is no glyph |
| RenderPlaces.TextStands | slap/render.c:232-324 | after any text the row is told by the newlines since the last form feed, the column by the characters since the last that goes back, and each label has the dots of the characters that stand on it |
| RenderPlaces.LineStands | slap/render.c:251-275 | glyph j of a line stands at the sum of the widths before it, on the baseline that the newlines before lead to, counted from the top of its label |
| RenderPlaces.ColumnIsWidths | slap/render.c:142-170 | a glyph stands at the sum of the widths and left bearings before it |
| RenderPlaces.CapacityIff | slap/render.c:277-300 | a label is full exactly when the next line does not end above its last row |
| RenderPlaces.LabelBeginsIff | slap/render.c:277-320 | a new label begins at a form feed, and at a newline exactly when the label is full |
| RenderPlaces.ExactLineIsMoved | slap/render.c:279 | a label exactly n lines high has room for n - 1 |
| RenderPlaces.ReturnStands | slap/render.c:302-303 | a carriage return goes back to the first column of its line |
| RenderPlaces.FeedStands | slap/render.c:304-320 | a form feed goes to the top of the next label, blank or not |
| RenderPlaces.SpaceStands | slap/render.c:321-322 | a character without a glyph takes a space |
| RenderPlaces.SqueezedStands | slap/render.c:269-273 | squeezing is leaving out the newlines met on a blank label |
| RenderPlaces.SqueezedNewlineStays | slap/render.c:269-273 | a newline that is squeezed out leaves row and column where they are |
| RenderPlaces.LabelsOfText | slap/render.c:194-327 | a whole text comes to the labels that the places of its characters make |
| RenderPage.Compact | slap/render.c:240-247 | erasing backspaces in place gives the erased line |
| RenderPage.PictureIsUnique | slap/render.c:111-120 | upright or turned, bitmap and page determine each other |
| RenderPage.QuarterTurn | slap/render.c:111-115 | a turned page has its top row in the last column of the bitmap and its left column in the top row |
| RenderPage.SpaceWidth | slap/render.c:206-207 | a space is as wide as the bitmap of the first of space, m, M and underscore that has any width |
| RenderPage.Renderer.SetDot | slap/render.c:106-123 | sets the dot of the page in either orientation, and stops exactly when it is off the page |
| RenderPage.Renderer.PutGlyph | slap/render.c:126-171 | draws the whole glyph over what was on the page, or nothing when it is not accepted |
| RenderPage.Renderer.Tab | slap/render.c:262-265 | the loop stops where TabStop says, left of the page too |
| RenderPage.DrawBox | slap/render.c:175-190 | in a blank bitmap exactly the dots of the box: top and bottom row, and both sides from the third row on |
| RenderPage.BoxIsOutlineIff | slap/render.c:184-188 | the box is the outline of the label but for two dots of its second row, and the whole outline exactly when the label is two rows high at most |
| RenderPage.Renderer.Wipe | slap/render.c:209-211 | leaves a blank label, or one with the box |
| RenderPage.Renderer.Character | slap/render.c:251-320 | bitmap, dirty flag, place and printed labels follow the layout; the flag is set exactly when the label is not blank |
| RenderPage.Renderer.RenderText | slap/render.c:194-327 | the labels printed show the labels of the layout, each with the box if there is to be one, which are those that the places of the characters make; or the text is not rendered to its end exactly when the layout stops |
| Lines.ReadLine | slap/render.c:235 | one buffer of a text: up to and with a newline, as much as fits |
| HashMap.MapHasOrigin | mjsulib/hashmap.c:28-46 | every byte value stands in the table |
| HashMap.OriginOfMap | mjsulib/hashmap.c:28-46 | no value stands twice in the table |
| Hash.WalkIsInjective | mjsulib/hash_lng.c:154-179 | octets that start apart stay apart over every key |
| Hash.OctetsDiffer | mjsulib/hash_lng.c:115-179 | no two octets of a hash are the same |
| Hash.EveryOctetChanges | mjsulib/hash_lng.c:124-179 | changing one byte other than the seed byte changes every octet |
| Hash.EmptyKeyStandsAlone | mjsulib/hash_lng.c:115-116 | the hash of the empty key is the hash of no other key |
| Hash.OneByteChangesHash | mjsulib/hash_lng.c:154-193 | keys that differ in one byte other than the seed byte have different hashes |
| Hash.LibraryHashes | mjsulib/hash_sht.c:97-184 | both hold of the library's own table, for the long and the short hash |
| Hash.Fill | mjsulib/hash_lng.c:127-149 | unrolled or not, every octet starts at its own distance from the seed byte |
| Hash.StepAll | mjsulib/hash_lng.c:156-178 | unrolled or not, every octet makes one step |
| Hash.Hash | mjsulib/hash_lng.c:97-196 | the word returned has the walked octets, the first highest |
| Hash.LongHashOfTwo | mjsulib/hash_lng.c:115-193 | the long hash of two bytes in full: the second seeds four octets at table places after it, the first octet furthest |
| Hash.ShortHashOfTwo | mjsulib/hash_sht.c:114-180 | the short hash of two bytes in full: table places before the seed |
| Hash.SeedOfLongKey | mjsulib/hash_lng.c:124-125 | a key longer than the word is seeded by the byte that would fill it |
| Hash.StepIsXor | mjsulib/hash_lng.c:158-165 | a step looks up the exclusive or of octet and byte |
| FontFile.ThroughFile | mjsulib/stols.c:28-37 | a word written by a machine of either byte order is read as itself by one of either |
| FontFile.FromLsbFirst | mjsulib/lstos.c:28-37 | the byte first in memory is the low one |
| FontFile.CheckMetrics | slap/chekfont.c:31-56 | accepts exactly the fonts whose glyph metrics agree with the font and with their bitmaps |
| FontFile.SaveBits | mjsulib/mbmsave.c:28-60 | writes head, size and bits |
| FontFile.LoadBits | mjsulib/mbmload.c:28-77 | reads a bitmap, or nothing and goes back |
| FontFile.BitsAreReadBack | mjsulib/mbmload.c:28-77 | a bitmap is read back as written, whatever follows it |
| FontFile.SaveFont | slap/savefont.c:31-84 | writes a font if its metrics agree, and nothing otherwise |
| FontFile.ReadName | slap/loadfont.c:58-72 | takes the line of the name, at most 128 bytes, if it ends in CR |
| FontFile.LoadFont | slap/loadfont.c:31-107 | reads the font that is in the bytes, and goes back when they do not start like one |
| FontFile.FontReadIsSound | slap/loadfont.c:83-104 | whatever bytes are read, a font that is returned has metrics that agree and all its bitmaps |
| FontUse.LoadedFontIsChecked | slap/loadfont.c:104 | a font that is loaded, from whatever bytes, has the metrics that the renderer relies on |
| FontUse.MetricsFitIffChecked | slap/chekfont.c:31-56 | the metrics test accepts exactly the fonts on which the renderer can rely |
| FontFile.FontIsReadBackIff | slap/loadfont.c:58-107 | a font whose metrics agree is read back, all 256 glyphs, exactly when its name has no newline, no NUL and 126 bytes at most |
| FontFile.Transfer | slap/savefont.c:31-84 | a font saved on one machine and loaded on another is the same font exactly when its name is such |
| FontFile.FileHeads | slap/savefont.c:39-43 | the eight bytes that font and bitmap files start with |
| FontFile.TitleLayout | slap/savefont.c:39-54 | where name, ascent and descent of a font stand |
| FontFile.GlyphLayout | slap/savefont.c:56-82 | where the five numbers of a glyph stand, low byte first |
| FontFile.BitsLayout | mjsulib/mbmsave.c:38-57 | where height, width and bits of a bitmap stand |
| GlyphText.Dump | slap/dumpfont.c:31-53 | prints row by row, `#` for a dot |
| GlyphText.MarksInText | slap/dumpfont.c:36-48 | character (width + 1) times i plus j of a dump is `#` or `-` as dot (i, j) is set or not, and each row ends in a newline |
| GlyphText.ReadRows | slap/makefont.c:82-105 | sets the dots that the rows of the text say, or finds a row that is missing or not legible |
| GlyphText.BitmapIsReadBackIff | slap/makefont.c:84-104 | a dump is read back exactly when its rows fit the buffer with their newlines, or one row fills it |
| GetFlags.TakesLongestIffOrdered | mjsulib/getflags.ro:130-135 | the first matching name is the longest, for every text, exactly when the descriptors are in the manual's order |
| GetFlags.FindDescriptor | mjsulib/getflags.c:244-300 | scanning the format string finds the first descriptor that the text starts with the name of |
| GetFlags.ScanWord | mjsulib/getflags.c:239-378 | the flags of one argument set the variables of their own descriptors, in order |
| GetFlags.GetFlags | mjsulib/getflags.c:226-380 | the arguments are groups of options up to the place where parsing stops, and what is set and what is reported follow from them; index and count always add up |
| GetFlags.ParsedIff | mjsulib/getflags.c:226-380 | a result is the one of parsing exactly when the arguments are groups of options, each taken apart as it was put together, up to an argument that is no flag, `--`, the end, or one that is no good |
| GetFlags.ReportedIff | mjsulib/getflags.c:372-377 | an argument is reported exactly when the arguments before it are such groups, flags begin it, and its rest begins with no name, or is the name of an option whose text is missing; the settings before it stand |
| GetFlags.UnknownOption | slap/slap.c:244 | slap reports `-z` |
| GetFlags.FormatExample | mjsulib/getflags.ro:175-182 | a format string and its descriptors |
| GetFlags.UsesAreUnderstood | mjsulib/getflags.c:240-378 | settings spelled out one an argument are made, in order, whatever follows |
| GetFlags.StandsOutIffPrefixCode | mjsulib/getflags.ro:65-70 | every name is taken for its own descriptor, whatever comes after it, exactly when no name is a beginning of another |
| GetFlags.RunTogetherMistaken | mjsulib/getflags.ro:130-135 | two flags run together that are taken for a third, in the manual's order |
| GetFlags.OwnNameIffClear | mjsulib/getflags.ro:65-70 | in the manual's order a name with something after it is taken for its own descriptor exactly when no name that goes on from it is spelled there |
| GetFlags.TakenStepwiseIffClear | mjsulib/getflags.ro:65-70 | flags and a value run together are each taken for their own descriptor exactly when each is clear where it stands |
| GetFlags.GroupsAreUnderstood | mjsulib/getflags.ro:65-70 | clear groups of flags run together, with values right after names or in the next argument, are all understood, in order |
| GetFlags.PrefixCodeGroupsAreUnderstood | mjsulib/getflags.ro:65-70 | so are all groups when no name is a beginning of another |
| GetFlags.SlapOptionsAreOrdered | slap/slap.c:244 | slap's options are in the manual's order, and one is a beginning of another |
| GetFlags.SlapWordsAreClearIff | slap/slap.c:244 | with slap's options everything that is run together is clear, but for a value after `p` that spells `portrait` |

## Left out

- RegexpMatch.AnchoredMatch: the closure branch is split into RunClosed, TryShorter and MatchClosure; pointers into the text and the pattern are indices, and characters are bytes 0 to 255.
- RegexpMatch.MatchOne: the original reads one character past the text to compare it with newline; the model does not read there, the answer being the same.
- RegexpCompile.Pattern: where the original reads past an expression whose class is not closed, or pops an empty stack of tags, the result is only Undefined.
- Mbm.Bitmap.Set: the product of row and width is not kept in 32 bits.
- SlPlus.Driver.PrintLabel: the slices of all bands are one two-dimensional array, and what is sent after the map has been overrun is not modelled; labels are at most 255 slices wide (the only media width gives 104).
- SlPro.Driver.PrintLabel: labels are 1 row high at least and at most 255 slices wide.
- SlPlusSense.Driver.Sense: empty reads, which end a call, are not part of the series of reads.
- RenderPage.Renderer.RenderText: columns that would leave 32 bits are not wrapped (a line without a newline would have to be some 100000 characters long).
- Render.NothingIsLost: a text that makes the original stop (a backspace before the line buffer, a tab without a width, a dot off the page) is only known to stop.
- Hash.Hash: bytes have 8 bits, and words are whole numbers of them.
- FontFile.LoadBits: a file that ends within the width of a bitmap of height 0 is rejected; the original keeps an uninitialised byte there. Write errors and bitmap sizes beyond 31 bits are not modelled.
- FontFile.LoadFont: after a failure among the glyphs the place in the file is not stated; the default-glyph field, which is not in the file, is not modelled.
- GetFlags.GetFlags: numeric values, which the table of slap takes as texts here, and value sets; a flag without a name, on which the original does not stop; the usage message.
- Serial-port control, waiting, time-outs, resets, baud rates, sessions, media tables and margins, floating-point geometry: mechanism outside the code or wall-clock time.
- Memory exhaustion and I/O errors.
- Font header parsing with scanf, font property records, the command-line mains, signals.
- String vectors and the remaining one-line bitmap helpers: easy members only.
