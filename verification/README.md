# Cheshire II: a verified model of its self-contained algorithms

Cheshire II is a Z39.50 retrieval system in C. Most of the files modelled here are commands
around a search engine, but they contain a number of algorithms that stand on their own: a
command-line splitter, a tree pretty-printer, a classification tree with a greedy search, a
term highlighter, a packed string list and the MARC slicer that fills it, a session list and
a chunked Present loop, an index scan, map coordinate arithmetic, line wrapping and two
record printers. This project models them in Dafny and proves what they promise, for every
input, every run and every reachable state.

`dafny verify dfyconfig.toml` checks everything. One module per component:

| files | component |
|---|---|
| CommandLine, CommandLineQuoting, CommandLineSpelling | `setargv`, the quoting rules of its header comment, and every line as a spelling by them |
| LccShape, LccSearch, LccTree, LccRanges | the LC class tree: shape of the links, greedy search, nodes in memory, what ranges hold |
| SgmlDisplay, SgmlTiling, SgmlReading, SgmlBuffer | `sgmltree_disp`, the record text its output adds up to, what else it prints, and its line buffer |
| Highlight, HighlightFacts, HighlightCommand, HighlightCopies, HighlightStem, HighlightQuery | one highlighting pass, what it keeps and marks, all passes, what they do to earlier insertions, in-place stemming, the command as a whole |
| AcList, AcListOps | AC_LIST and all runs of its operations |
| Marc, MarcLayout | slicing MARC records, and the record layout as an encoder |
| Sessions, Present | the client's session list and the Present loop |
| MapCoords, MapWidget | pixels, coordinates and their text |
| Scan | the index scan |
| LineWrap, MarcClip, OpacRecord, OpacReading | output lines, brace hiding, OPAC records and a reader of them |
| Basics, CStrings, Scanning | shared: options, NUL-terminated strings, `%d` |

## Conventions

- Where the source changes things in place (a block, a buffer, linked nodes, a cursor) the
  model has an array or a class, and the method is proved against a function on values; the
  theorems are about that function.
- C strings are the characters before the terminator. Integers are unbounded except where the
  source's width decides something (the level of a class-tree node is a signed `char`).
- A read through NULL, or a scan that runs out of its window, is an outcome of the model
  (`NullClimb`, `RunsOff`, `Crash`, `Stray`), not a precondition. Where C gives no meaning at all to a
  call, the method requires what the C code requires; see "Left out".
- Servers, stemmers and databases are parameters: any function, any index.

## Properties the code does not have everywhere

Each of these is stated with the exact condition under which the code does what one would
expect of it, or with a family of inputs on which it does not:

- An outline none of whose lines is above the first line's level can still send the class-tree
  builder through a NULL parent (`SkippedLevelLosesTheTop`); `BuildRoundTrip` says when.
- The greedy class search finds all matching nodes only on trees with two properties, and
  both are necessary (`WalkCompleteIff`).
- The second half of a doubled word is highlighted although it is not a word
  (`DoubledTermMarked`), and a word that overlaps an earlier occurrence is not
  (`OverlappingWordMissed`). The marks are the words if and only if neither happens
  (`MarksAreWords`); for terms of letters and digits only the first can (`SolidMarksAreWords`).
- A highlighting pass stays inside its buffers if and only if what it inserts is shorter than
  the text (`PassFitsIff`); a text that is just the term overruns with "<b>" and "</b>" around
  "cat" (`LoneWordOverruns`).
- A later pass can mark a word inside the strings an earlier one inserted (`TagWordMarked`: "b"
  after "cat" with "<b>"); for terms of letters and digits and strings that begin and end with
  separators, it does not if and only if the strings alone have no mark for any term behind one
  that was found (`AllUntouchedIff`).
- The SGML printer's line buffer is as long as the record. Records with all their tags always fit
  (`ExplicitFits`); otherwise only lines of elements without tags of their own, or below one,
  decide (`DisplayFitsIff`), and `<a><b/></a>` is one byte short (`LoneEmptyFitsIff`).
- `disconnect all` leaves freed sessions in the list: a run is safe if and only if nothing
  follows one that had sessions to free (`FreedReadIff`).
- A second class-tree file read into the same program goes through NULL at its first line
  (`BuildTree`).
- A scan with a negative step lists one entry over and over, or for ever (`ScanIndex`); the
  count it shows for an entry can be another entry's (`CountsAreOwnIff`).
- A client that prefers messages below 1000 bytes is never sent a record; otherwise a server that
  always sends at least one delivers the whole range (`DeliversAllIff`).
- The Present loop runs for ever against a server that keeps failing without a diagnostic, and
  only then (`EndsUnlessStuck`).
- The longitude string set by `centerpixel` is wrong unless the minutes are a multiple of ten
  (`CentreRoundTripIff`); a point exactly half a turn away can come back on the other side
  (`OffsetSurvivesIff`); very far pixels name another meridian (`LongitudeCongruentIff`).
- Brace hiding is reversible only for records without bytes 1 and 2 (`ClipRestoresIff`), and
  can leave braces behind (`NoBraceLeftIff`).
- The size computed for an OPAC record is too small for some records with volume lists
  (`EmptyVolumeOverruns`); it suffices when each list has, say, three fields given
  (`TextFitsIff`), and for volumes alone when anything is given at all (`LoneVolumesFitIff`).
- Wrapping a line needs a blank in every window (`CutsIff`).
- A scan of an empty index with a preferred position above 1 lists the search term itself
  (`ScanIndex`).

## Model

| member | source | states |
|---|---|---|
| `CommandLine.CountSlots` | cheshire2/zMain_NT_new.c:429-440 | the first pass yields two more than the number of blank runs in the line |
| `CommandLine.BlankRunsCount` | cheshire2/zMain_NT_new.c:430-440 | the blank runs counted are the places where a blank follows no blank |
| `CommandLine.ScanRun` | cheshire2/zMain_NT_new.c:459-489 | a run of backslashes and the character after it are resolved as the quoting rules say |
| `CommandLine.FillArg` | cheshire2/zMain_NT_new.c:457-495 | the bytes written for one argument are exactly that argument, never ahead of the read position, and nothing before them changes |
| `CommandLine.SetArgv` | cheshire2/zMain_NT_new.c:413-501 | for every line: the slots suffice, the NULL entry is inside the table, every argument with its terminator lies back to back in strlen+1 bytes, and the whole line has been consumed |
| `CommandLine.ArgsWithinGuess` | cheshire2/zMain_NT_new.c:424-445 | no line has more arguments than the first pass allowed for |
| `CommandLine.ArgsFitTheLine` | cheshire2/zMain_NT_new.c:441-445 | all arguments with terminators take at most strlen+1 bytes |
| `CommandLineQuoting.QuoteParses` | cheshire2/zMain_NT_new.c:396-401 | one argument written without quotes, in quotes with escaped inner quotes, or in quotes with doubled ones reads back exactly |
| `CommandLineQuoting.QuotedLineSplitsBack` | cheshire2/zMain_NT_new.c:396-401 | any arguments, each quoted in any style the rules allow and spaced by any blanks, split back into themselves |
| `CommandLineSpelling.SpellingParses` | cheshire2/zMain_NT_new.c:457-495 | one word spelled by the rules in any mixture, with quotes opened and closed anywhere in it and backslashes doubled before every quote, reads back as what it means |
| `CommandLineSpelling.SpelledLineSplits` | cheshire2/zMain_NT_new.c:447-498 | a line of such words, a last one with its quote left open included, splits into what the words mean |
| `CommandLineSpelling.EveryLineIsSpelled` | cheshire2/zMain_NT_new.c:396-401 | every line there is consists of such words, so the splitter is determined on all lines |
| `CommandLineSpelling.TabSeparates` | cheshire2/zMain_NT_new.c:450-452 | a tab separates words |
| `CommandLineQuoting.SplitQuoted` | cheshire2/zMain_NT_new.c:413-501 | the same seen through argv: slot i points at a C string equal to argument i |
| `LccShape.BuildGrows` | cheshire2/lcctree.c:188-228 | for every outline the three structural errors are unreachable; the build keeps the subtree stretches and the open path, or climbs off the top exactly when the levels say so |
| `LccShape.BuildRoundTrip` | cheshire2/lcctree.c:188-228 | it builds if and only if the levels stay on the open path; then preorder gives the lines back in order, and the last node and all its ancestors have no sibling |
| `LccShape.StepIndentedBuilds` | cheshire2/lcctree.c:64-69 | outlines that go down one level at a time and not above the first line always build, and depth equals indentation |
| `LccShape.SkippedLevelLosesTheTop` | cheshire2/lcctree.c:214-218 | a family of outlines at or below the first level on which the climb reaches NULL |
| `LccSearch.WalkIsChain` | cheshire2/lcctree.c:282-303 | in every tree the walk ends and returns a chain of matching nodes, each the child of the one before and the first match among its siblings |
| `LccSearch.WalkCompleteIff` | cheshire2/lcctree.c:282-303 | the walk equals all matching nodes in outline order if and only if siblings exclude each other and a match below needs a match above |
| `LccTree.WithinMatches` | cheshire2/lcctree.c:254-274 | a class number in a node's range is in every range around it |
| `LccTree.ApartExcludes` | cheshire2/lcctree.c:254-274 | no class number is in two ranges that are apart |
| `LccRanges.CompareMeans` | cheshire2/lcctree.c:260 | the comparison is 0 exactly for strings equal up to case, and negative exactly for the one that is smaller where they first differ or that ends first |
| `LccRanges.BoundsMatch` | cheshire2/lcctree.c:254-274 | a range with ordered bounds holds both of them, in either case |
| `LccRanges.WithinIff` | cheshire2/lcctree.c:254-274 | a range lies in another if and only if the other holds all its class numbers |
| `LccRanges.ApartIff` | cheshire2/lcctree.c:254-274 | two ranges are apart if and only if they have no class number in common |
| `LccRanges.LevelMeans` | cheshire2/lcctree.c:126-128 | a level is the number of tabs up to 127, and that number modulo 256 in a signed char beyond |
| `LccTree.OrderlyFindsAll` | cheshire2/lcctree.c:254-303 | on an outline whose ranges nest as its lines do and whose siblings are apart, the look-up finds all matching lines for every class number |
| `LccTree.InsertNode` | cheshire2/lcctree.c:193-228 | the pointer code does to the nodes what the index model does to its links, branch by branch |
| `LccTree.BuildTree` | cheshire2/lcctree.c:105-231 | with no tree yet: one node per line in order, with the pointers of the model, and the only failure is the NULL climb; with a tree already there, any line goes through NULL and the old root stays |
| `LccTree.GetDesc` | cheshire2/lcctree.c:282-303 | what is appended is the description of the walk from that node |
| `LccRanges.DescribeReads` | cheshire2/lcctree.c:295-299 | the text of a look-up, cut at its stars, gives the descriptions in order |
| `LccTree.LookUp` | cheshire2/lcctree.c:254-303 | building and searching together: the text describes the chain, and when that is all matches |
| `SgmlDisplay.Printer.Display` | cheshire2/z_dispsgml.c:694-902 | the lines put out are the lines of the element, its content and its followers, and the indent level is back where it was |
| `SgmlTiling.ContentTiles` | cheshire2/z_dispsgml.c:781-836 | text before, between and after sub-elements covers the content exactly |
| `SgmlTiling.ShowTiles` | cheshire2/z_dispsgml.c:725-893 | a list of elements covers the text from its first start tag to its last end without loss, overlap or reordering, empty elements included |
| `SgmlTiling.ContentIndented` | cheshire2/z_dispsgml.c:725-730 | everything between the tags of an element is indented deeper than the tags, up to ten |
| `SgmlTiling.ShowClosers` | cheshire2/z_dispsgml.c:846-862 | one closing tag is made up for each element without one, and no other |
| `SgmlTiling.DisplayRecord` | cheshire2/z_dispsgml.c:669-692 | the copied text of a displayed record is the record from root start tag to root end; tags at indent 0, content at 1 or more |
| `SgmlReading.RecordExtras` | cheshire2/z_dispsgml.c:823-862 | every element without an end tag is closed by "/" and the text of its own start tag, an empty one has an empty line, both where its text ends, and nothing else is added |
| `SgmlReading.RecordAtDepth` | cheshire2/z_dispsgml.c:725-779 | the indent of every line that shows something is the number of elements around it, up to ten |
| `SgmlBuffer.DisplayFitsIff` | cheshire2/z_dispsgml.c:683-688 | every line fits the buffer of the record's length if and only if the lines of elements without explicit tags, and of those below one, do |
| `SgmlBuffer.ExplicitFits` | cheshire2/z_dispsgml.c:683-688 | every line of a record whose elements all have both tags fits, whatever the depth |
| `SgmlBuffer.LoneEmptyFitsIff` | cheshire2/z_dispsgml.c:741-862 | an empty element alone in another one fits if and only if the record has 12 bytes and the outer tags 8 |
| `Highlight.Pass` | cheshire2/z_highlight.c:329-379 | both buffers are rewritten by one and the same set of marks, and the pass terminates |
| `HighlightFacts.RenderInStep` | cheshire2/z_highlight.c:340-371 | the two buffers stay equally long, and equal up to case if they were |
| `HighlightFacts.RenderGrows` | cheshire2/z_highlight.c:340-371 | a pass adds nothing but copies of the two strings |
| `HighlightFacts.RenderAt` | cheshire2/z_highlight.c:340-348 | around the k-th marked word stand the one string before it and the other behind it |
| `HighlightFacts.MarkedIff` | cheshire2/z_highlight.c:332-367 | for every term, text and starting point: an occurrence the scan comes by is marked exactly if a word ends behind it and a separator, the start, or another such occurrence is right before it |
| `HighlightFacts.MissedIff` | cheshire2/z_highlight.c:332-367 | the scan passes over an occurrence exactly when it begins inside one found before it |
| `HighlightFacts.MarksAreWords` | cheshire2/z_highlight.c:332-367 | for every term and text: the marks are the whole words if and only if no word begins inside an occurrence found before it, and no occurrence right behind another one ends like a word without beginning like one |
| `HighlightFacts.SolidMarksAreWords` | cheshire2/z_highlight.c:332-367 | for a term without separators the marks are the whole words if and only if no occurrence right behind another one ends like a word |
| `HighlightFacts.WholeWordsMarked` | cheshire2/z_highlight.c:332-367 | for every term: a whole word is missed exactly if it begins inside an occurrence found before it, which never happens to terms without separators |
| `HighlightFacts.DoubledTermMarked` | cheshire2/z_highlight.c:338-339 | the second half of any doubled solid word is marked though it is not a word |
| `HighlightFacts.OverlappingWordMissed` | cheshire2/z_highlight.c:332-367 | the second "on-on" in "on-on-on" is a word and is not marked |
| `HighlightFacts.RenderLength` | cheshire2/z_highlight.c:340-371 | every mark lengthens the text by the two strings, and nothing else does |
| `HighlightFacts.PassFitsIff` | cheshire2/z_highlight.c:313-379 | text and terminator fit the buffer of twice the working text if and only if the insertions are shorter than the text |
| `HighlightFacts.LoneWordOverruns` | cheshire2/z_highlight.c:313-379 | a text that is the term itself fits exactly when the two strings are together shorter than it |
| `HighlightCommand.PassesKeepText` | cheshire2/z_highlight.c:329-386 | for every list of terms and every text the outcome is the data with copies of the two strings inserted, and the buffers stay in step |
| `HighlightCopies.MarksInside` | cheshire2/z_highlight.c:332-367 | the marks a pass puts inside an inserted copy are those it would put into the inserted string alone |
| `HighlightCopies.UntouchedIff` | cheshire2/z_highlight.c:332-367 | a pass leaves all inserted copies alone if and only if it marks nothing in those of the two strings that have been inserted |
| `HighlightCopies.AllUntouchedIff` | cheshire2/z_highlight.c:329-386 | no pass touches a copy if and only if every term behind one that was found marks nothing in the two strings |
| `HighlightCopies.DataComesBack` | cheshire2/z_highlight.c:329-386 | if no pass touches a copy, the outcome is made of the data's characters and whole copies, and is the data once the copies are taken out |
| `HighlightCopies.TagWordMarked` | cheshire2/z_highlight.c:338-339 | a later term that is a word of the inserted string is marked inside it |
| `HighlightCommand.HighlightAll` | cheshire2/z_highlight.c:320-394 | the loop over the tokens performs one pass for each, in order |
| `HighlightCommand.TokensLoseNothing` | cheshire2/z_highlight.c:322-386 | the words of a text, joined, are the text without its delimiters |
| `Highlight.SeparatesMeans` | cheshire2/z_highlight.c:338-339 | of the printing characters exactly those other than letters and digits separate words |
| `HighlightCommand.ExtractKeepsWords` | cheshire2/z_highlight.c:113-163 | extraction yields a text exactly for complete queries, and its words are the words of all terms, left to right |
| `HighlightCommand.MissingOperand` | cheshire2/z_highlight.c:124-134 | which operators return NULL for a missing operand and which crash, left and right |
| `HighlightStem.StemRep` | cheshire2/z_highlight.c:165-201 | it fails exactly on a text without words; otherwise, in place, every word becomes its stem and padding, the delimiter after it a blank |
| `HighlightStem.StemInPlace` | cheshire2/z_highlight.c:178-198 | character by character: stems stand where their words stood, padded with blanks, and of the delimiters only those behind words change |
| `HighlightStem.StemKeepsWords` | cheshire2/z_highlight.c:165-201 | for every stemmer that makes words of words and lengthens none: the length is unchanged and the words of the result are the stems of the words |
| `HighlightQuery.HighlightText` | cheshire2/z_highlight.c:289-396 | the whole command: it crashes exactly on an incomplete query or when it is to stem a query or text without words; otherwise one pass for each query word, stemmed and in lower case, and the outcome is the data with nothing but copies of the two strings inserted |
| `HighlightQuery.PreparedTokens` | cheshire2/z_highlight.c:289-322 | what is tokenized after stemming and lower-casing the extracted terms gives the words of the query, stemmed and lower-cased |
| `AcList.AcList.Append` | ac_list/list_append.c:38-85 | one string is added behind the others, whatever had to be reallocated; cursor and other strings unchanged |
| `AcList.AcList.Add` | ac_list/list_append.c:91-97 | a C string is added whole |
| `AcList.AcList.Delete` | ac_list/list_append.c:134-154 | exactly the first equal item goes, and failure changes nothing |
| `AcList.AcList.Find` | ac_list/list_utils.c:107-124 | the first equal item, or -1 if there is none |
| `AcList.AcList.First` | ac_list/list_utils.c:149-165 | the first item and cursor 0; nothing at all on an empty list |
| `AcList.AcList.Next` | ac_list/list_utils.c:129-144 | the cursor always moves, and the item is there or NULL |
| `AcList.AcList.Nth` | ac_list/list_utils.c:170-186 | the item and the cursor; NULL and no move outside the list; at the number of items, a stray pointer and a moved cursor |
| `AcList.StringsAppend` | ac_list/list_append.c:72-82 | offsets stay increasing and inside the terminated part, and every stored string reads as before |
| `AcListOps.Dup` | ac_list/list_utils.c:188-205 | a separate list with the same items; the source keeps its items |
| `AcListOps.SubList` | ac_list/list_utils.c:207-226 | exactly the slice asked for |
| `AcListOps.AddList` | ac_list/list_utils.c:228-242 | the concatenation; the second list keeps its items |
| `AcListOps.Perform` | ac_list/list_append.c:38-154 | each operation does to the packed block what it does to a plain sequence with a cursor |
| `AcListOps.Run` | ac_list/list_utils.c:107-186 | every legal run on a new list answers as the plain sequence does |
| `Marc.Substitute` | ac_utils/mr_print.c:182-201 | subfield marks become `$`, terminators NUL, in the given length and nowhere else |
| `Marc.ShownBody` | ac_utils/parse_marc.c:114-127 | of a field exactly the part before its first field, record or string terminator is shown, whatever follows |
| `Marc.ParseMarc` | ac_utils/parse_marc.c:70-131 | the leader, then tag, three blanks and data for each directory entry in order |
| `Marc.MrField` | ac_utils/mr_field.c:70-100 | the data of the last entry with the tag, or an untouched buffer, whatever the caller's buffer size the matching fields fit |
| `MarcLayout.WrittenReadsBack` | ac_utils/parse_marc.c:95-131 | writing any fields with base address, directory and cumulative offsets and slicing the record gives leader and fields back |
| `MarcLayout.WrittenSmallIff` | ac_utils/parse_marc.c:82-117 | a written record meets the slicer's static buffer exactly if its fields with their terminators are below 1000 bytes |
| `MarcLayout.WrittenLastField` | ac_utils/mr_field.c:83-99 | looking a tag of any length up in a written record gives the last field with its first three characters |
| `Sessions.Association.Lookup` | cheshire2/zAppInit.c:327-339 | the first session with the id, or NULL if there is none; a freed session is read exactly if one of those up to it has been freed |
| `Sessions.Association.Search` | cheshire2/zAppInit.c:306-321 | the first session the comparison accepts, whatever it compares, and the freed sessions read on the way |
| `Sessions.Association.Insert` | cheshire2/zAppInit.c:466-478 | the new session goes to the tail of a well-formed list |
| `Sessions.Association.Remove` | cheshire2/zAppInit.c:363-400 | exactly the first session with the id goes; links, tail and count stay right; an unknown id changes nothing; it touches the sessions up to the one removed and the next one |
| `Sessions.DisconnectEach` | cheshire2/zAppInit.c:549-565 | each listed id is removed and freed if it is there; a list without freed sessions stays one, and one of freed sessions is read as soon as there is an id |
| `Sessions.Execute` | cheshire2/zAppInit.c:402-594 | every run of connect (new, reusing an open session, replacing one shut down, failing), disconnect, disconnect all and quit, up to the first command whose walk comes by a freed session: the list is well formed, holds what the commands say, and none of its sessions has been freed, or all have |
| `Sessions.FreeAll` | cheshire2/zAppInit.c:535-547 | every session is freed once, in order, with its link read before, and all stay in the list; no freed session is read unless one was in the list |
| `Sessions.ConnectOne` | cheshire2/zAppInit.c:440-477 | connect searches the list, keeps an open session, takes one shut down out and frees it, and adds the new one if there is one |
| `Sessions.ConnectIsExact` | cheshire2/zAppInit.c:440-477 | the list after a connect: what it had without the session that made way, and the new one last; or unchanged |
| `Sessions.Perform` | cheshire2/zAppInit.c:402-594 | one command, walk by walk: on a list without freed sessions it reads none and has its effect; on a list of freed sessions it reads one exactly if it is not an empty disconnect |
| `Sessions.FreedReadIff` | cheshire2/zAppInit.c:535-594 | a run reads a freed session if and only if a command follows a disconnect all of a list that was not empty |
| `Sessions.RunsStayDistinct` | cheshire2/zAppInit.c:402-594 | with fresh descriptors none is ever listed twice |
| `Sessions.DropAllIsExact` | cheshire2/zAppInit.c:549-565 | with distinct descriptors a disconnect removes the named sessions and nothing else |
| `Present.RequestFits` | cheshire2/zAppInit.c:898-906 | no request reaches past the result set, the clamp inside the loop never acts, and it asks for all that remains or as many 1000-byte records as preferred |
| `Present.ClampedHolds` | cheshire2/zAppInit.c:895-896 | the clamped range holds exactly the records asked for that the result set has |
| `Present.DeliversAllIff` | cheshire2/zAppInit.c:895-935 | a server that always sends at least one record delivers the whole range if and only if the client prefers at least 1000 bytes |
| `Present.RunKeepsRange` | cheshire2/zAppInit.c:895-935 | after any number of turns start plus remaining is constant and what was received is a gap-free, overlap-free prefix of the clamped range |
| `Present.EndsUnlessStuck` | cheshire2/zAppInit.c:900-935 | the loop ends if and only if the server does not go on failing without a diagnostic for ever |
| `Present.DiagnosedEnds` | cheshire2/zAppInit.c:909-915 | against a server whose failures all carry diagnostics every loop ends |
| `Present.PresentRecords` | cheshire2/zAppInit.c:877-937 | for every server on which the loop ends: range checks, clamping and the loop, and the outcome is the end of that run |
| `MapCoords.LongitudeInRange` | cheshire2/mapwidget.c:1954-1986 | every computed longitude is within 180 degrees |
| `MapCoords.LongitudeCongruentIff` | cheshire2/mapwidget.c:1960-1966 | it names the raw meridian exactly up to 540 degrees out, or on the antimeridian |
| `MapCoords.LatitudeClamped` | cheshire2/mapwidget.c:1989-2016 | every computed latitude is the raw one cut off at the poles |
| `MapCoords.CentreIsCentre` | cheshire2/mapwidget.c:1954-2016 | the middle of the window is the centre of the map, both ways |
| `MapCoords.PixelScale` | cheshire2/mapwidget.c:1960-1995 | right is east and down is south, at 5500 seconds for as many pixels as the scale, cut off towards the centre |
| `MapCoords.DrawnIff` | cheshire2/mapwidget.c:2065-2085 | a point less than half a turn away is drawn exactly if it lies in the drawn area, and where |
| `MapCoords.OffsetSurvivesIff` | cheshire2/mapwidget.c:2068-2074 | the offset from the centre comes back from its longitude exactly below half a turn, or at half a turn without wrapping |
| `MapCoords.PixelRoundTrip` | cheshire2/mapwidget.c:2068-2085 | pixel to coordinates and back never moves outwards and moves inwards by at most the slack of the scale, across the wraparound too |
| `MapCoords.FormatRoundTrip` | cheshire2/mapwidget.c:653-667 | printing and parsing gives every coordinate back to the second |
| `MapCoords.ParsePrint` | cheshire2/mapwidget.c:1908-1952 | whatever degrees, minutes and seconds are printed are parsed, then limited and signed by the letter |
| `MapCoords.DirectedMeans` | cheshire2/mapwidget.c:1917-1948 | seconds limited by the letter in either case, negative for south, west or a minus sign |
| `MapCoords.PrintLooks` | cheshire2/mapwidget.c:502-503 | what a printed coordinate looks like |
| `MapCoords.ParseNeedsMarks` | cheshire2/mapwidget.c:1916-1952 | a specification without its marks is 0 |
| `MapCoords.ParseNeedsLetter` | cheshire2/mapwidget.c:1916-1952 | one without its letter is 0 |
| `MapCoords.CentreRoundTripIff` | cheshire2/mapwidget.c:504-518 | the centre's longitude string reads back exactly when its minutes are a multiple of ten |
| `MapWidget.Widget.CenterPixel` | cheshire2/mapwidget.c:471-521 | the centre stays on the globe; the whole new state, what each argument changes and what it leaves, and what the two strings read back as |
| `MapWidget.Widget.GetLatLon` | cheshire2/mapwidget.c:643-669 | the two strings parse to the coordinates of the pixel |
| `MapWidget.Widget.ThroughText` | cheshire2/mapwidget.c:632-680 | pixel, text, pixel: inwards by at most the slack |
| `Scan.BackUp` | cheshire2/web_driver.c:2217-2236 | the cursor ends (position - 1)(step + 1) entries before the term, or at the first entry |
| `Scan.BeforeMeans` | cheshire2/web_driver.c:2198 | one key is before another exactly if it is smaller where they first differ |
| `Scan.BeforeIsOrder` | cheshire2/web_driver.c:2198 | that is a strict total order |
| `Scan.AtOrAfterFinds` | cheshire2/web_driver.c:2198 | in a sorted index the search lands on the term if it is there, and passes exactly the keys before it |
| `Scan.TermAtPosition` | cheshire2/web_driver.c:2217-2236 | the entry found is the preferred-position-th one visited when there are enough before it, and the scan starts at the first entry otherwise |
| `Scan.ScanIndex` | cheshire2/web_driver.c:1889-2283 | for every step, number and position: when there is no match, when it never ends, and otherwise which entries are listed, in which order, how many, and with which counts |
| `Scan.ListingIsVisible` | cheshire2/web_driver.c:2243-2280 | the listing is the first non-special entries the stride visits, up to the number asked for, each with the last count loaded up to it |
| `Scan.StrideAt` | cheshire2/web_driver.c:2261-2278 | the entries visited are those at start + k (step + 1) below the end, all of them |
| `Scan.VisibleIsExact` | cheshire2/web_driver.c:2252-2260 | the entries listed are, in order, exactly the visited ones that are not special |
| `Scan.NothingElseHidden` | cheshire2/web_driver.c:2252-2254 | not listed are exactly the entry of global values and the bitmap blocks of a bitmapped index |
| `Scan.HeldIsLastLoad` | cheshire2/web_driver.c:2245-2250 | the count held at a place is that of the last entry before it that carried one, or the initial one |
| `Scan.HeldOver` | cheshire2/web_driver.c:2245-2250 | entries with too little data or of a bitmap block's size leave the count held, any other sets it |
| `Scan.CountsAreOwnIff` | cheshire2/web_driver.c:2243-2280 | the listing shows its entries' own counts if and only if each listed entry is loaded itself, or the last one loaded before it (or the initial count, if there is none) has the same count |
| `Scan.StandingEndsIff` | cheshire2/web_driver.c:2252-2280 | a loop that stays at one entry ends exactly for a positive number and an entry that is not special |
| `LineWrap.CutRejoins` | cheshire2/z_dispmarc.c:442-471 | the parts rejoin to the line, and no printed line is wider than the width, indent included |
| `LineWrap.CutsIff` | cheshire2/z_dispmarc.c:448-463 | for every width and indent, wrapping succeeds exactly if the line fits, or the first window has a blank and no later word is longer than its room |
| `LineWrap.OutputLine` | cheshire2/z_dispmarc.c:420-476 | the calls of the output function, one by one, from cutting the buffer in place |
| `LineWrap.PrintedLines` | cheshire2/z_dispmarc.c:442-471 | what is printed, cut at its newlines: no line wider than the width, all but the first behind their indent, and without indents the line itself with a blank for each break |
| `LineWrap.CutIsGreedy` | cheshire2/z_dispmarc.c:448-460 | no line could have taken the next word as well |
| `MarcClip.Clip` | cheshire2/z_dispopac.c:631-666 | in place: which bytes change, and the flag |
| `MarcClip.Unclip` | cheshire2/z_dispopac.c:669-685 | in place: stand-ins become braces when the flag is set |
| `MarcClip.FlagMeans` | cheshire2/z_dispopac.c:636-660 | the flag is 1, 2 or 3 for opening braces, closing ones or both, and untouched without any |
| `MarcClip.NoBraceLeftIff` | cheshire2/z_dispopac.c:636-660 | no brace is left exactly when each one to hide has its stand-in to spare |
| `MarcClip.ClipRestoresIff` | cheshire2/z_dispopac.c:631-685 | unclipping restores every byte but the flag exactly for records without stand-ins of their own, or with nothing to clip or flagged |
| `OpacRecord.CalcSize` | cheshire2/z_dispopac.c:281-381 | the size is the sum of allowances and declared lengths over all lists |
| `OpacRecord.MakeElement` | cheshire2/z_dispopac.c:383-625 | the text in order, and that it fits the computed size when every volume list has room |
| `OpacReading.RecordReadsBack` | cheshire2/z_dispopac.c:405-625 | read as a Tcl list, the text of a record without braces gives every name with its value back, flags and groups included, in order |
| `OpacReading.FlagsUnderTheirNames` | cheshire2/z_dispopac.c:555-597 | each flag of a circulation record is under its own name |
| `OpacReading.SizeCounts` | cheshire2/z_dispopac.c:281-381 | the size is 23 bytes for the record and for every name with a value, and all declared lengths |
| `OpacRecord.TextFitsIff` | cheshire2/z_dispopac.c:281-625 | what is left of the size is counted exactly; the text fits if every volume list is empty or gives fields whose names leave 13 bytes (6 for an enumeration, 7 for a chronology, 5 for a combined one) |
| `OpacRecord.LoneVolumesFitIff` | cheshire2/z_dispopac.c:345-550 | after a bibliographic record, volumes alone fit if and only if some volume gives a field |
| `OpacRecord.EmptyVolumeOverruns` | cheshire2/z_dispopac.c:524-550 | with any bibliographic record, one empty volume makes the text overrun the size |

## Left out

- Tcl and Tk: command registration, argument checking, result objects and window drawing.
- Query execution, ranking, SQL access, configuration and DTD parsing: they call code outside these files.
- Machine integers: sizes and offsets are unbounded, so overflow of `int` lengths is not modelled.
- Allocation failure, freed memory outside the session list, and the size of the fixed indent buffer; `setargv`, AC_LIST and the MARC field buffer are proved to stay inside their blocks, and the OPAC text, the highlight buffers and the SGML line buffer have their exact conditions.
- AcList.AcList.Append: requires a non-empty item while no block has been allocated; the C code allocates nothing for a first empty item and then writes its terminator.
- AcListOps.Dup: requires a non-empty first item for the same reason, as do SubList and AddList into a new list.
- Sessions.ConnectOne: takes the comparison its search makes as any function of the descriptor, because the search is called with an argument missing.
- OpacRecord.MakeElement: does not model the flag written at position 8 of a bibliographic record with braces and at most 8 characters, which lies on or behind its terminator.
- AcListOps.SubList: requires the slice to lie inside the list; the C code reads a NULL item otherwise.
- Sessions.Association.Remove: requires a non-empty list, because the C code reads through the head first; its callers look the session up before.
- Marc.ParseMarc: requires the directory digits, the terminator after the directory, fields that fit the static buffer and data inside the record; `sscanf` on other input leaves its variables unset.
- LccTree.BuildTree: takes lines already read and scanned; reading the file, the range syntax and the limit of 511 characters are left out. Numbers are reals.
- HighlightStem.StemRep: the stemmer is any function on words that lengthens none; the rewrite rules of `Stem` are left out.
- HighlightQuery.HighlightText: takes the parsed query; parsing it and the buffers' sizes, which `PassFitsIff` is about, are left out of it.
- Present.PresentRecords: requires a server on which the loop ends, which `EndsUnlessStuck` characterizes, and one that returns no more records than asked for.
- SgmlTiling.DisplayRecord: assumes the offsets the parser produces for opened elements and for empty XML elements; trees with other offsets are printed by Display but not covered by the tiling.
- MapWidget.Widget.GetPixel: takes the scales and the drawn area as given; their computation in floating point is left out.
- The `normalize_char` table used by line output for one data type, and the other record formats: long case lists.
- `DisplayCmd2` gap fetching and the Explain and GRS-1 printers.
