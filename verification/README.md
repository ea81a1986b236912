# Models of the glob search, the intrusive queues and the char driver

This project models three parts of the repository and proves what they promise.

* **The glob search** bundled in `bin/hashFiles/index.js` (POSIX branch). A path is the sequence of
  names below the root. A pattern is a sequence of compiled segments whose regular expressions are
  abstract predicates. A file system maps the real path of each directory to its listing, with
  symbolic links that may dangle, loop, or lead to any file or directory, so the graph that a search
  sees may be cyclic. The reference is a plain walk that consults no pattern, followed by a filter.
  The pruned stack search is proved to give exactly its result, in order and with its exceptions.
  On top of that, what the walk reaches is characterised without reference to any search. The same
  file's bracket scanner, comma splitter, glob escaping and UUID routines are modelled too.
* **The queues of `server/queue.h`** (LIST, STAILQ, TAILQ, CIRCLEQ) as objects on the heap, with a
  datatype for "address of a `first` or `next` field". Every macro refines an operation on the
  sequence of queued nodes. TAILQ's reading of an entry as if it were a head is modelled as such.
* **The char driver in `aesd-char-driver/`**: a ring of ten commands, the command being written,
  the buffers behind them and the allocator that owns them. The state is proved to be a function of
  the accepted byte stream.

The modules build on one another in this order: `Basics`; `PatternLiteral`; `GlobMatch`,
`GlobPattern`, `SearchPaths`, `FileSystem`, `GlobWalk`, `GlobSearch`, `GlobResults`, `GlobOrder`,
`GlobTree`, `GlobDescendants`; `Balanced`, `CommaParts`; `Uuid`; `QueueSeq`, `TailQueue`, `List`,
`STailQueue`, `CircleQueue`; `CircularBuffer`, `CommandStream`, `CharDriver`.
`dafny verify dfyconfig.toml` verifies everything.

## Where the code does not do what one would expect

* `getLiteral` and the segment compiler disagree about some bracket sets: `[!]` is read as the
  literal `!`, while it compiles to a class that accepts any one character; `[^]`, `[]]` and `[]a]`
  are misread in the same way (`PatternLiteral.MisreadSets`). A search for `/[!]` looks below `/!`
  only and misses `/a`, which the pattern matches (`GlobTree.MisreadLiteralLosesMatch`). The search
  for one include finds everything it matches on every tree exactly if the segments on its search
  path accept no other name than the literal read from them (`GlobTree.SearchIsComplete`, apart
  from patterns that match or ask for nothing); a misread segment behind a wildcard, as in
  `/*/[!]`, or in an exclude does no harm (`GlobTree.TreeSearchFinds`).
* Escaping a path segment and reading it back fails exactly for segments with a `[` that has no `]`
  behind it but has a `?` or `*` behind it (`PatternLiteral.EscapeRoundTrip`).
* Partial matching answers "can something at or below still match?" on every non-empty list of
  parts exactly if no segment of the pattern is impossible, or already the first one is
  (`GlobMatch.PartialModeIsExact`). For a whole pattern, whose answer at the root is always yes,
  this is exactly if no segment is impossible (`GlobPattern.MayMatchBelowIsExact`). That a match is
  never denied needs no condition.
* The ioctl takes the command number modulo ten before it checks it, so a number without a stored
  command is rejected only through its offset (`CharDriver.Device.UnlockedIoctl`).
* A successful write never gives back the buffer it copied the user's data into
  (aesd-char-driver/main.c:98-153), so unloading the module leaves exactly one buffer in use for each
  write; every other buffer is given back exactly once (`CharDriver.LoadToUnload`).
* A write accepts no byte behind the first newline; stream properties are about accepted bytes.

## Model

| member | source | states |
|---|---|---|
| `GlobMatch.MatchOne` | bin/hashFiles/index.js:4204-4356 | in full mode the result is whether the file can be divided among the pattern segments: each `**` a run without `.` and `..` (nor dot names unless asked), a last `**` at least one, any other segment one hit, one empty last part tolerated; it terminates |
| `GlobMatch.SwallowsRest` | bin/hashFiles/index.js:4256-4269 | a last `**` accepts exactly the remainders it may absorb entirely |
| `GlobMatch.HandOver` | bin/hashFiles/index.js:4271-4307 | trying ever longer runs with an early break misses no hand-over to the rest of the pattern |
| `GlobMatch.FullModeIsAlignment` | bin/hashFiles/index.js:4204-4356 | the left-to-right search succeeds if and only if an alignment exists |
| `GlobMatch.LiteralsMatch` | bin/hashFiles/index.js:4316-4321 | literal segments match exactly the files made of their texts, with or without a trailing slash |
| `GlobMatch.WildcardsMatch` | bin/hashFiles/index.js:4316-4327 | segments with a regular expression match name by name what the expressions accept |
| `GlobMatch.StarMatches` | bin/hashFiles/index.js:4256-4269 | a lone `**` matches one or more names other than `.` and `..`, dot names only when asked to |
| `GlobMatch.StarBetween` | bin/hashFiles/index.js:4271-4307 | a `**` between two names stands for any number of such names, none included |
| `GlobMatch.BrokenNeverMatches` | bin/hashFiles/index.js:4222-4228 | a pattern with a segment that did not compile matches nothing |
| `GlobMatch.AlignedIsFound` | bin/hashFiles/index.js:4212-4351 | any given alignment is found by the search |
| `GlobMatch.AlignmentOf` | bin/hashFiles/index.js:4212-4351 | any successful match yields an alignment |
| `GlobMatch.PartialKeepsAncestors` | bin/hashFiles/index.js:4299-4305 | a full or partial match of a longer path makes every path above it a partial match, for every pattern |
| `GlobMatch.PartialHasExtension` | bin/hashFiles/index.js:4336-4344 | a partial match extends to a full one when every segment is satisfiable |
| `GlobMatch.PartialModeIsExact` | bin/hashFiles/index.js:4199-4203 | on all non-empty files partial mode is "some extension matches in full", if and only if every segment is satisfiable or the first is not |
| `GlobPattern.Pattern.Match` | bin/hashFiles/index.js:2134-2157 | the kinds a pattern matches at a path: with a trailing slash added for a written final `**`, directories only for a trailing separator |
| `GlobPattern.Pattern.PartialMatch` | bin/hashFiles/index.js:2161-2169 | yes whenever the pattern matches something at or below the path; with satisfiable segments only then |
| `GlobPattern.MayMatchBelowIsExact` | bin/hashFiles/index.js:2161-2169 | yes exactly for the paths with a match at or below them, if and only if no segment is impossible |
| `GlobPattern.MatchReachesAncestors` | bin/hashFiles/index.js:2134-2169 | a pattern that matches a path may match at or below every ancestor of it |
| `GlobPattern.MatchesBelowSearchPath` | bin/hashFiles/index.js:2110-2115 | everything a pattern matches lies at or below its search path, if and only if each segment on that path accepts only the literal read from it, or the pattern matches nothing |
| `GlobPattern.Match` | bin/hashFiles/index.js:2012-2023 | the mask loop folds includes and excludes in order |
| `GlobPattern.LastMentionDecides` | bin/hashFiles/index.js:2012-2023 | a kind is in the result if and only if the last pattern that mentions it there is an include |
| `GlobPattern.PartialMatch` | bin/hashFiles/index.js:2028-2030 | yes whenever some include matches at or below the path, excludes have no say; with satisfiable includes only then |
| `GlobPattern.NegationUndoes` | bin/hashFiles/index.js:2012-2023 | a pattern with a `!` in front takes away exactly the kinds that the pattern adds |
| `GlobPattern.PruningIsSafe` | bin/hashFiles/index.js:1370-1374 | if the search has reason to keep a path, it has reason to keep every ancestor; excludes never prune |
| `SearchPaths.GetSearchPaths` | bin/hashFiles/index.js:1968-2007 | the result is the search paths with no other search path above them, each once, in order of first mention; the climb to the root ends |
| `SearchPaths.HasAncestor` | bin/hashFiles/index.js:1988-1999 | climbing parent by parent finds exactly the proper ancestors in the map |
| `SearchPaths.RootsCoverIncludes` | bin/hashFiles/index.js:1964-2007 | the roots are distinct, an antichain, exactly the top search paths, and one lies above every include's search path |
| `SearchPaths.RootsIgnoreOrder` | bin/hashFiles/index.js:1964-2007 | the set of roots does not depend on the order of the patterns |
| `SearchPaths.RootsByFirstMention` | bin/hashFiles/index.js:1979-2005 | an earlier root is the search path of an include in front of all includes whose search path is a later root |
| `GlobWalk.PrunedWalkKeepsNothing` | bin/hashFiles/index.js:1370-1374 | below a pruned path nothing would have been kept |
| `GlobWalk.SightOfEntry` | bin/hashFiles/index.js:1430-1456 | what each kind of listed entry, links of all sorts included, is to the search under each option |
| `GlobWalk.SightOfNothing` | bin/hashFiles/index.js:1435-1454 | what a path without an entry is to it |
| `GlobWalk.ExpandedAsWritten` | bin/hashFiles/index.js:1336-1345 | without implicit descendants the patterns are used as they are |
| `GlobSearch.DefaultGlobber.ImplicitDescendants` | bin/hashFiles/index.js:1336-1345 | every pattern is followed by a descendants pattern unless it already ends in `**` without a separator |
| `GlobSearch.DefaultGlobber.PushSearchPaths` | bin/hashFiles/index.js:1346-1363 | missing roots are skipped, the first other lookup error is thrown, the first root ends on top |
| `GlobSearch.DefaultGlobber.StatItem` | bin/hashFiles/index.js:1430-1473 | the chain is cut back to the item's ancestors; a directory already among them is refused, any other is appended |
| `GlobSearch.DefaultGlobber.SearchItem` | bin/hashFiles/index.js:1366-1402 | one turn of the loop: what is yielded and what is pushed stand for the kept part of the item's walk; an item at level L is L - 1 names below a search root and no deeper than the number of directories plus one, and in a directory that is entered the chain is the distinct real directories from that root down to it |
| `GlobSearch.LevelIsBounded` | bin/hashFiles/index.js:1456-1471 | waiting items are at most one level deeper than there are directories, entered ones no deeper |
| `GlobSearch.DefaultGlobber.SearchStack` | bin/hashFiles/index.js:1365-1403 | the loop ends on every directory graph and reports the filtered walk of all roots, in order, up to the first exception |
| `GlobSearch.DefaultGlobber.GlobGenerator` | bin/hashFiles/index.js:1332-1404 | the pruned search equals the unpruned walk from the roots followed by the filter |
| `GlobResults.WalkReaches` | bin/hashFiles/index.js:1383-1397 | a path is visited if and only if every step to it is listed and no real directory occurs twice on the way |
| `GlobResults.WalkOnce` | bin/hashFiles/index.js:1366-1397 | no path is visited twice |
| `GlobResults.SearchThrows` | bin/hashFiles/index.js:1346-1382 | on every file system, cyclic or not: the search throws if and only if a root lookup fails other than by a missing entry, or a path so reachable from an existing root cannot be examined and matches or may match below |
| `GlobResults.SearchFinds` | bin/hashFiles/index.js:1332-1404 | on every file system, cyclic or not: when that is not so, the result is exactly the wanted paths so reachable from an existing root, each once |
| `GlobOrder.SearchInOrder` | bin/hashFiles/index.js:1346-1397 | the paths come root by root, below each root a directory before its contents and entries, with all below them, in the order of the listing |
| `GlobOrder.OrderIsStrict` | bin/hashFiles/index.js:1346-1397 | of two paths at most one comes first in that order |
| `GlobOrder.SearchStopsAt` | bin/hashFiles/index.js:1365-1403 | when the search throws for a path it has yielded every wanted path that comes before, and no other |
| `GlobOrder.FirstRootThrows` | bin/hashFiles/index.js:1346-1363 | when a root cannot be looked up nothing is yielded, and the first such root is the culprit |
| `GlobTree.TreeSearchThrows` | bin/hashFiles/index.js:1350-1361 | without links the search throws if and only if a root lookup fails other than by a missing entry |
| `GlobTree.TreeSearchYields` | bin/hashFiles/index.js:1332-1404 | without links, for any patterns: the result is exactly the paths of the tree at or below a search root whose folded match contains their kind, each once |
| `GlobTree.TreeSearchFinds` | bin/hashFiles/index.js:1332-1404 | when no include is misread on its search path, that is all such paths of the tree: neither pruning nor starting from roots nor excludes lose a match |
| `GlobTree.SearchIsComplete` | bin/hashFiles/index.js:1332-1404 | one include finds all it matches on every tree, if and only if the literals on its search path are read faithfully, or it matches nothing, or only directories are matched and none are asked for |
| `GlobTree.MisreadLiteralLosesMatch` | bin/hashFiles/index.js:2245-2277 | a concrete pattern and tree where a misread literal makes the search miss a match |
| `GlobDescendants.LiteralPatternMatches` | bin/hashFiles/index.js:2134-2157 | a pattern of literal names matches the path with these names and no other, for directories and files, or directories only after a trailing separator |
| `GlobDescendants.KindsAreCovers` | bin/hashFiles/index.js:2134-2157 | on paths of ordinary names a written pattern matches exactly the paths it covers name by name, `**` standing for any number of names, and which kinds it matches there: the added trailing slash and the two parts of the root make no difference |
| `GlobDescendants.DescendantsMatchBelow` | bin/hashFiles/index.js:1340-1344 | the descendants pattern matches exactly what lies properly below a match of its pattern, also for `/` and for patterns that end in `**/` |
| `GlobDescendants.DescendantsAtRoot` | bin/hashFiles/index.js:1340-1344 | at the root directory it matches if and only if its pattern does |
| `GlobDescendants.LastWrittenDecides` | bin/hashFiles/index.js:1336-1345 | with implicit descendants a kind is matched at a path if and only if the last pattern the user wrote that mentions it there, or matches a directory above, is an include |
| `GlobDescendants.WrittenStarMatchesAtOrBelow` | bin/hashFiles/index.js:2135-2147 | a final `**` that the user wrote matches exactly what the pattern in front of it matches and everything below, also for `/**` and several final `**` |
| `Balanced.Range` | bin/hashFiles/index.js:3145-3183 | returns the leftmost opener that has a matching closer, with that closer; nothing if and only if no closer follows an opener |
| `Balanced.Scan` | bin/hashFiles/index.js:3155-3179 | the stack loop ends and finds the leftmost matched pair, also when earlier openers stay open |
| `Balanced.PairsNest` | bin/hashFiles/index.js:3158-3175 | matched pairs do not cross |
| `Balanced.OpenIsUnmatched` | bin/hashFiles/index.js:3177-3179 | what is left on the stack has no matching closer |
| `CommaParts.ParseCommaParts` | bin/hashFiles/index.js:3225-3253 | the parts and the commas between them lie one after another in the string, these commas are exactly those that no matched pair of braces encloses, and there is one part more than there are such commas; joining gives the string back |
| `CommaParts.PartsAreCounted` | bin/hashFiles/index.js:3225-3253 | a string so divided has one part more than it has commas outside all pairs |
| `CommaParts.TopCommasAround` | bin/hashFiles/index.js:3238-3248 | the commas to split at are those before the leftmost pair and the top-level ones of the text after it |
| `CommaParts.JoinTopParts` | bin/hashFiles/index.js:3225-3253 | joining the top-level parts restores the string |
| `PatternLiteral.GetLiteral` | bin/hashFiles/index.js:2231-2284 | a segment made of plain characters, escaped characters and sets of one is read as exactly these characters; one with a wildcard or a closed set of more than one behind such pieces as the empty string |
| `PatternLiteral.LiteralIsRead` | bin/hashFiles/index.js:2231-2284 | every segment is of exactly one of these two kinds, and an opening bracket whose set is empty or never closes stands for itself |
| `PatternLiteral.CollectSet` | bin/hashFiles/index.js:2246-2264 | the characters up to the first unescaped `]`, and where it is |
| `PatternLiteral.EscapeIsOnePass` | bin/hashFiles/index.js:2173-2178 | the four successive replacements replace each character by itself or its escape |
| `PatternLiteral.EscapeStep` | bin/hashFiles/index.js:2173-2178 | what each character becomes in front of any rest of the path |
| `PatternLiteral.EscapeJoin` | bin/hashFiles/index.js:2173-2178 | a path is escaped segment by segment |
| `PatternLiteral.LiteralOfEscaped` | bin/hashFiles/index.js:2173-2284 | the escape of a slash-free text is read back as that text or as no literal, and when which |
| `PatternLiteral.EscapeRoundTrip` | bin/hashFiles/index.js:2173-2284 | escaping and reading back gives the segment if and only if no `[` without a later `]` has a later `?` or `*` |
| `PatternLiteral.OpenBracketIsLost` | bin/hashFiles/index.js:2268-2270 | the text `[?` does not survive |
| `Uuid.Parse` | bin/hashFiles/index.js:4796-4826 | refuses exactly the texts that write no sixteen well-marked bytes in digits of either case, and otherwise returns the bytes written, by shifts, masks and divisions |
| `Uuid.ValidIsWritten` | bin/hashFiles/index.js:4843 | the expression accepts exactly the texts that write sixteen bytes with version 1 to 5 and the RFC variant, or all zero, in digits of either case |
| `Uuid.BytesInOrder` | bin/hashFiles/index.js:4802-4824 | byte k is written by the digits 2k and 2k + 1, high digit first |
| `Uuid.ParseLast` | bin/hashFiles/index.js:4817-4824 | the 48-bit node is taken apart byte by byte although shifts see only 32 bits |
| `Uuid.ByteToHexDigits` | bin/hashFiles/index.js:4928-4932 | each table entry is the two lower-case digits of its index |
| `Uuid.StringifySucceeds` | bin/hashFiles/index.js:4934-4947 | writing succeeds if and only if the version is 1 to 5 with the RFC variant, or all bytes are zero |
| `Uuid.BytesRoundTrip` | bin/hashFiles/index.js:4796-4948 | sixteen bytes written and read are the same bytes |
| `Uuid.TextRoundTrip` | bin/hashFiles/index.js:4796-4948 | a text read and written is its lower case |
| `Uuid.ParseThenStringify` | bin/hashFiles/index.js:4796-4948 | for every text: refused if and only if invalid, otherwise lower case of itself |
| `Uuid.StringifyThenParse` | bin/hashFiles/index.js:4796-4948 | for every sixteen bytes: refused if and only if not marked as a UUID, otherwise themselves |
| `Uuid.V4` | bin/hashFiles/index.js:5194-5214 | any random bytes give a valid version 4 UUID that keeps all other bits; nothing is thrown |
| `TailQueue.Head.InsertHead` | server/queue.h:453-461 | the node is put first |
| `TailQueue.Head.InsertTail` | server/queue.h:481-486 | the node is put last, through the tail slot |
| `TailQueue.Head.InsertBefore` | server/queue.h:463-468 | the node is put in front of an element, without use of the head |
| `TailQueue.Head.InsertAfter` | server/queue.h:470-479 | the node is put behind an element |
| `TailQueue.Head.Remove` | server/queue.h:497-504 | exactly that element is gone, its own links are untouched |
| `TailQueue.Head.Replace` | server/queue.h:506-515 | one element is exchanged for another at its place |
| `TailQueue.Head.Concat` | server/queue.h:488-495 | one queue holds both sequences, the other is empty, whichever was empty before |
| `TailQueue.Head.Swap` | server/queue.h:517-534 | the two sequences change places, whichever is empty, also for a queue and itself |
| `TailQueue.Head.Last` | server/queue.h:541-542 | reading the last link's entry as a head gives the last element or NULL |
| `TailQueue.Head.Prev` | server/queue.h:544-545 | reading the back link's owner as a head gives the predecessor or NULL |
| `TailQueue.Head.ForEach` | server/queue.h:549-552 | visits the sequence |
| `TailQueue.Head.ForEachReverse` | server/queue.h:559-562 | visits the reversed sequence |
| `List.Head.BackLinkHolds` | server/queue.h:211-215 | the variable an element's back link addresses holds that element, in the head or in a node |
| `List.Head.InsertHead` | server/queue.h:224-230 | the node is put first |
| `List.Head.InsertBefore` | server/queue.h:232-237 | the node is put in front of an element, without use of the head |
| `List.Head.InsertAfter` | server/queue.h:239-245 | the node is put behind an element |
| `List.Head.Remove` | server/queue.h:247-252 | exactly that element is gone, its own links are untouched |
| `List.Head.Replace` | server/queue.h:254-260 | one element is exchanged for another at its place |
| `List.Head.Swap` | server/queue.h:262-272 | the two sequences change places, whichever is empty |
| `List.Head.Prev` | server/queue.h:279-281 | the predecessor, NULL for the first element |
| `List.Head.RemoveWhere` | server/queue.h:290-293 | a safe loop that removes the current element where a predicate holds visits every element once and leaves exactly the others, in order |
| `STailQueue.Head.InsertHead` | server/queue.h:320-325 | the node is put first and the tail slot stays right |
| `STailQueue.Head.InsertAfter` | server/queue.h:327-333 | the node is put behind an element and the tail slot stays right |
| `STailQueue.Head.InsertTail` | server/queue.h:335-339 | the node is put last |
| `STailQueue.Head.Concat` | server/queue.h:341-347 | one queue holds both sequences, the other is empty |
| `STailQueue.Head.RemoveHead` | server/queue.h:349-354 | the first element is gone |
| `STailQueue.Head.RemoveHeadUntil` | server/queue.h:356-361 | everything up to and including an element is gone |
| `STailQueue.Head.RemoveAfter` | server/queue.h:363-369 | the element behind another is gone, the tail slot moves when it was the last |
| `STailQueue.Head.Remove` | server/queue.h:371-385 | the search for the predecessor ends and exactly that element is gone |
| `STailQueue.Head.Swap` | server/queue.h:387-400 | the two sequences change places, whichever is empty |
| `STailQueue.Head.Last` | server/queue.h:406-410 | the node around the tail slot is the last element |
| `CircleQueue.Head.InsertHead` | server/queue.h:595-604 | the node is put first |
| `CircleQueue.Head.InsertBefore` | server/queue.h:606-615 | the node is put in front of an element |
| `CircleQueue.Head.InsertAfter` | server/queue.h:617-626 | the node is put behind an element |
| `CircleQueue.Head.InsertTail` | server/queue.h:628-637 | the node is put last |
| `CircleQueue.Head.Remove` | server/queue.h:639-650 | exactly that element is gone |
| `CircleQueue.Head.ForEach` | server/queue.h:677-680 | visits the sequence |
| `CircleQueue.Head.ForEachReverse` | server/queue.h:688-691 | visits the reversed sequence |
| `CircleQueue.Head.LoopNext` | server/queue.h:699-702 | the successor, around the end |
| `CircleQueue.Head.LoopPrev` | server/queue.h:704-707 | the predecessor, around the front |
| `CircleQueue.Head.GoRound` | server/queue.h:699-702 | stepping on from any element visits each element once before coming back: one cycle |
| `CircleQueue.Head.ThereAndBack` | server/queue.h:699-707 | stepping back undoes stepping on |
| `CircularBuffer.Ring.AddEntry` | aesd-char-driver/aesd-circular-buffer.c:57-85 | the ring, read from its first slot, is the last ten entries ever added; the buffer handed back is that of the entry that gave way, or NULL; full stays full |
| `CircularBuffer.AddAll` | aesd-char-driver/aesd-circular-buffer.c:57-93 | after any history the ring holds its last ten entries, and every addition hands back the buffer added ten before |
| `CircularBuffer.Ring.FindEntryOffsetForFpos` | aesd-char-driver/aesd-circular-buffer.c:29-48 | finds an entry and byte if and only if the offset is below the total size, namely those at that offset of all entries end to end |
| `CircularBuffer.PlaceIsUnique` | aesd-char-driver/aesd-circular-buffer.c:21-27 | only one entry and byte lie at an offset |
| `CircularBuffer.Ring.SumOfSizes` | aesd-char-driver/main.c:168-172 | summing all ten slots gives the size of the live entries |
| `CommandStream.CutsCompletely` | aesd-char-driver/main.c:112-149 | commands and unterminated rest make up the stream |
| `CommandStream.CutsUniquely` | aesd-char-driver/main.c:112-149 | no other division into newline-terminated commands and a newline-free rest exists |
| `CommandStream.StreamIsKeptOrEvicted` | aesd-char-driver/main.c:138-149 | evicted commands, ring and working entry together are the accepted stream |
| `CharDriver.Device.CopyFromUser` | aesd-char-driver/main.c:97-111 | the bytes are copied into a buffer that belongs to no entry |
| `CharDriver.Device.AppendToWorking` | aesd-char-driver/main.c:126-136 | the bytes go behind those already waiting, in a new buffer; exactly the outgrown one is given back |
| `CharDriver.CommitKeepsOwners` | aesd-char-driver/main.c:138-149 | after a commit every buffer still in use has exactly one owner, the displaced one none |
| `CharDriver.Device.CommitWorking` | aesd-char-driver/main.c:138-149 | the waiting bytes become the newest command; exactly the buffer of a displaced command is given back, and every buffer in use keeps exactly one owner |
| `CharDriver.Device.Write` | aesd-char-driver/main.c:90-154 | accepts up to the first newline; ring and working entry are a function of all bytes ever accepted; exactly the outgrown and the displaced buffer are given back, and one temporary stays in use |
| `CharDriver.Device.WriteFully` | aesd-char-driver/main.c:90-154 | offering the unaccepted rest again appends all the data, whatever the sizes offered; no record of a buffer is lost |
| `CharDriver.Device.Read` | aesd-char-driver/main.c:47-88 | returns the bytes at the file position, as many as asked for up to the end of that command, and advances by them |
| `CharDriver.Device.ReadToEnd` | aesd-char-driver/main.c:47-88 | repeated reads with any positive counts return everything from the position on and then nothing |
| `CharDriver.Device.LLSeek` | aesd-char-driver/main.c:156-197 | the new position for each origin, the end being the length of the readable text; negative ones are refused |
| `CharDriver.Device.ReadLast` | aesd-char-driver/main.c:47-197 | after seeking to k before the end, reads return the last k bytes |
| `CharDriver.Device.UnlockedIoctl` | aesd-char-driver/main.c:199-237 | the walk around the ring ends; the position is the start of the command plus the offset; exactly which requests are refused |
| `CharDriver.Device.SeekAndFind` | aesd-char-driver/main.c:199-237 | looking up the position a seek has set leads to the requested command and byte |
| `CharDriver.Device.Cleanup` | aesd-char-driver/main.c:295-313 | what was given back before stays on record; exactly the buffers of the entries are added, none twice; only temporaries of writes stay in use |
| `CharDriver.LoadToUnload` | aesd-char-driver/main.c:90-313 | over a whole run every buffer handed out is given back exactly once, except one temporary for each write |

## Left out

- `Pattern` construction: home and working directory expansion, brace expansion, and the translation of segments into regular expressions; segments arrive compiled, with the literal text read from each.
- GlobTree.TreeSearchFinds: with several includes its condition is sufficient but not necessary, because the root of one include may lie above what a misread one matches; `TreeSearchYields` is exact for any patterns.
- GlobDescendants.KindsAreCovers: asks that no compiled segment accepts the empty name, which the compiler sees to (bin/hashFiles/index.js:4041-4046) and the model, where regular expressions are abstract, does not derive.
- Windows path branches throughout.
- Changes to the file system during a search: the model searches a fixed file system.
- `hashFiles` itself, the HTTP client, tunnel agent, OIDC, summary and command output, and the other scripts.
- Balanced.Range: brackets are single characters, as every caller's are; regular expressions as brackets are not modelled.
- Brace sequence expansion (`{1..3}`) and the rest of `expand`.
- UUID versions 1, 3 and 5, the buffer argument of `v4`, and the offset argument of `stringify`. Bit masks on bytes are written as remainders and sums.
- SLIST, whose operations are those of STAILQ without a tail slot; `CIRCLEQ_REPLACE` and `CIRCLEQ_FOREACH_REVERSE_SAFE`, whose macro bodies do not fit how heads are used elsewhere.
- The queue macros' callers must not queue a node twice and must not concatenate a queue with itself; the methods require this.
- Driver failure paths (interrupted locks, failed allocations, failed user copies) and the lock itself.
- CharDriver.Kernel.Krealloc: always moves the bytes to a new buffer and gives the old one back, where the kernel may grow a buffer in place; allocations of size 0 are buffers of their own, where the kernel hands out one marker for all of them, so an empty write counts as leaving a temporary behind.
- CharDriver.Device.UnlockedIoctl: numbers are unbounded, so command numbers that overflow an `int` and byte counts that do not fit are not modelled.
- `aesd_open`, `aesd_release`, device registration and `server/aesdsocket.c`.
