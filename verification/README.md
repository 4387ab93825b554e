# Verified model of the algorithms behind the torus monitor

The monitor draws the nodes of a machine whose interconnect is a three-dimensional torus. This
project models the algorithms under its drawing code in Dafny and proves what they are for. Where
the C code changes arrays, lists or fields step by step, the model does so too: a method with the
same loops works on arrays or on the fields of a class, and is proved against a specification
function or predicate, about which the properties are then proved as lemmas. `dafny verify
dfyconfig.toml` checks everything.

| modules | what they model |
|---|---|
| `Euclid`, `RotationCycles`, `PermuteArgs`, `Getopt`, `GetoptSpelling`, `GetoptStuck` | `gcd`, `permute_args` and `getopt_internal` (compat/getopt.c): the in-place exchange of two blocks along its rotation cycles, whole runs of the option scanner as stable partitions of argv, what they report of the words that argv spells, and exactly which runs end before argv is sorted |
| `CType`, `DataField`, `DataFieldParser`, `DataFieldPrinter`, `DataFieldRoundTrip`, `DataFieldReprint`, `DataFieldSyntax`, `DataFieldFree`, `Buf`, `DynArray` | the reader, the printer and the destructor of the trees that the statistics server sends (parse.c), with the growing buffer and array under them (buf.c, dynarray.c) |
| `TextBreaks`, `TextWrap` | where a text is best broken into lines, and the line wrapper that takes output back (text.c) |
| `Shadow` | the selection search with its explicit stack (shadow.c, select.c) |
| `Server` | the listener, the readers and the renderer of the render server, with their queues, mutexes and condition variables, as interleaved atomic steps (server.c) |
| `Torus`, `Ring`, `Neighbors`, `Hops`, `Placement`, `PhysCoord` | cells of the torus, stepping to neighbors, hop counts, wired placement and physical coordinates (node.c, math.c, main.c) |
| `ObjList` | the cache of objects renewed in batches (objlist.c) |
| `SelNode` | the selected nodes, recorded and played back (selnode.c, flyby.c) |
| `Fgets`, `Base64` | buffered reading by lines, and base64 (util.c) |
| `Nodes`, `Division`, `Sequences`, `Wrappers`, `Shut` | the nodes and vectors of node.h and xmath.h, and what several modules need of integers, sequences, missing values and definitions kept out of sight |

Some predicates are "shut": they are defined as `forall k: nat :: Show(k) ==> D` with a `Show` that
always holds (module `Shut`), which means just `D`, but lets a proof see `D` only if it mentions
`Show(0)`.

## What the code does not do

- compat/getopt.c:431-432 returns -1 at once for a trailing `-` that is no option, without
  permuting. A run of `getopt_internal` ends so exactly if, going over argv, it gets to a cluster
  with a trailing dash before it ends otherwise (`StuckIff`, with `MeetsTrailingDash`). What it leaves
  is argv partitioned up to the last element that it skipped. So optind is then behind the consumed
  elements exactly if nothing was skipped before (`OptindRightIff`), and argv is sorted exactly if
  nothing was skipped, or the very element before was (`SortedIff`). All these conditions are about
  argv before the run. With `a` the only option, `prog x -a-` leaves optind wrong and
  `prog x -a -a-` argv unsorted as well (`StuckBehindSkipped`, `StuckBehindOption`). Every other run
  sorts argv.
- parse.c:257-277 clears the character before it looks whether it was a backslash, so no escape
  ever takes effect, and an escaped quote ends a scalar (`EscapedQuoteEnds`). A printed tree is read
  back exactly if it has no `"` in a string and no `\` in a scalar (`RoundTrip`). All trees that the
  parsers build are like that (`ParsedPrintable`), so whatever has been read can be printed and read
  back (`ReadPrintRead`).
- util.c:84-86 writes two more `=` when the number of bytes is a multiple of three. The output is
  the encoding of RFC 4648, section 4, exactly if it is not (`EncodesIffNotMultipleOfThree`); it can be decoded
  in any case. For the same reason the comment at util.c:45 asks for a smaller buffer than is
  filled; `EncodedLength` is what is filled.
- util.c:166-197 cuts a line that is too long if its newline is already in the buffer, and
  otherwise loses it (`CutOrLost`). What a call does is independent of what is in the buffer exactly if
  there is no line, or the first one fits into s, or it does not even fit into the buffer
  (`BufferMattersIff`). No more than there is room for is ever read ahead, so with one size for all
  calls it is always independent (`SmallBufferNeverMatters`).
- Between the insertion at server.c:601 and the signal at server.c:602, both under the lock, there
  may be one queued session more than readers about to look while another reader is blocked.
  `NoLostWork` allows for just that one, and for none at any other time.

## Model

| member | source | states |
|---|---|---|
| Euclid.ComputeGcd | compat/getopt.c:116-129 | the loop computes the same number as Euclid's recursion |
| Euclid.GcdIsGreatest | compat/getopt.c:113-129 | that number is a common divisor, and every common divisor divides it |
| Euclid.Bezout | compat/getopt.c:113-129 | it is an integer combination of the arguments |
| RotationCycles.CyclesOf | compat/getopt.c:143-154 | for any two block lengths the slots fall into gcd-many cycles, all of length total/gcd, each slot in exactly one, cycle i starting at slot i of the second block |
| PermuteArgs.FollowCycle | compat/getopt.c:152-164 | following cycle i with its first slot as spare puts every occupant of the cycle where it belongs and moves nothing else |
| PermuteArgs.Permute | compat/getopt.c:136-166 | in place, the two adjacent blocks change places, each in its own order, and the rest of argv is untouched |
| Getopt.FindIsFirst | compat/getopt.c:425 | the search in the option letters finds the first occurrence |
| Getopt.Scanner.Next | compat/getopt.c:291-488 | one call: it reports the next result of the run, leaves the scanner between calls with argv part-way partitioned, moves on, and on -1 has the whole run reported and argv sorted, after the early -1 up to the last skipped element |
| Getopt.Scanner.Proceed | compat/getopt.c:325-488 | the part of a call after restarting |
| Getopt.Scanner.Begin | compat/getopt.c:315-324 | optind 0 or optreset begins a new run |
| Getopt.Scanner.ParseAll | compat/getopt.c:291-488 | calling until -1 returns the results of the run over the original argv, and leaves argv as its stable partition (consumed options, their arguments and any --, then the skipped elements, then the rest) with optind behind the consumed ones; after the early -1, as the partition up to the last skipped element, with optind where the run stopped |
| Getopt.PartitionPermutes | compat/getopt.c:325-399 | the partition has the same elements as argv, with multiplicity |
| Getopt.RunMarks | compat/getopt.c:346-399 | only elements that are no options are skipped, and only when permuting; every ending is where it should be: at the end, behind a --, at a non-option, or at a trailing - that is no option |
| GetoptSpelling.SpelledIsRead | compat/getopt.c:325-487 | if argv is a list of words written out (bundled letters, the last one alone, with its argument attached, in the next element, omitted if optional, or missing; or an element that is no option), the run reports just these letters with just these arguments and these errors, marks just these elements, and ends as what follows says |
| GetoptSpelling.AllIsSpelled | compat/getopt.c:325-487 | every argv is such a list, for every option string |
| GetoptSpelling.ErrorsIff | compat/getopt.c:423-471 | a letter is reported as unknown exactly if it stands where it is no option, and an argument as missing exactly if the last element of argv ends in a letter that needs one, as ':' exactly if the option letters begin with one |
| GetoptSpelling.SignDecides | compat/getopt.c:302-313 | an element that does not begin with a dash ends the run with '+' or POSIXLY_CORRECT, is reported in its place with '-', and otherwise is skipped if permuting; the sign is no option letter |
| GetoptStuck.StuckIff | compat/getopt.c:431-432 | a run ends with the early -1 exactly if, going over argv beforehand, it gets to a cluster in which the letter - is reached at the end and is no option |
| GetoptStuck.Foresee | compat/getopt.c:346-399 | whether the run skips an element, and whether it has consumed the last one it passed, told from argv beforehand |
| GetoptStuck.OptindRightIff | compat/getopt.c:325-432 | optind ends behind the consumed elements exactly if the run does not meet a trailing dash or skips nothing before |
| GetoptStuck.SortedIff | compat/getopt.c:325-432 | argv ends as the stable partition exactly if the run does not meet a trailing dash, or skips nothing before it, or skips the very element before it |
| GetoptStuck.StuckBehindSkipped | compat/getopt.c:431-432 | with options "a" the arguments "x", "-a-" end the run with argv sorted, but optind 2 instead of 1 |
| GetoptStuck.StuckBehindOption | compat/getopt.c:431-432 | with "x", "-a", "-a-" argv stays as it is, unsorted, and optind is 3 instead of 2 |
| Buf.Buffer.Append | buf.c:50-58 | adds one character, growing the allocation when it is full |
| Buf.Buffer.AppendString | buf.c:60-65 | adds a string |
| Buf.Buffer.Chop | buf.c:101-105 | takes the last character off |
| Buf.Buffer.Reset | buf.c:95-99 | empties the buffer |
| DynArray.Dyn.Add | dynarray.c:146-153 | adds an element at the end, growing the allocation when it is full |
| DynArray.Dyn.Remove | dynarray.c:221-236 | removes the first occurrence of an item by moving the last element into its slot, and returns where it was |
| DynArray.WithoutSlotMultiset | dynarray.c:221-236 | that loses exactly the removed element |
| DataFieldPrinter.PrintDataField | parse.c:708-742 | the printer writes what the specification of printed text says, at every indent level |
| DataFieldParser.Stream.SkipDataSpace | parse.c:116-125 | skips white space and pushes back the first other character |
| DataFieldParser.ReadQuoted | parse.c:254-278 | reads up to the closing quote, over backslashes in a scalar, and fails at a NUL, wherever the code stops |
| DataField.QuotedHangsIff | parse.c:254-278 | the loop up to a quote goes on for ever exactly if there is neither a quote nor a NUL |
| DataFieldParser.ParseScalarField | parse.c:233-282 | the scalar parser answers, and leaves unread, what the grammar says, errors included |
| DataFieldParser.ParseArrayField | parse.c:284-324 | the same for arrays, with the error for another first character |
| DataFieldParser.ParseMapField | parse.c:326-372 | the same for maps, with the error for another first character |
| DataFieldParser.ParseMapEntry | parse.c:406-445 | the same for the entries of a map |
| DataFieldParser.ParseDataField | parse.c:374-404 | the same for any field |
| DataField.FieldStops | parse.c:254-278 | if the text holds a NUL the grammar never runs off its end: the parsers stop |
| DataFieldRoundTrip.RoundTrip | parse.c:233-445 | a printed tree followed by any text is read back as the same tree, leaving that text but for leading white space, exactly if no string has a quote and no scalar a backslash, at every indent level |
| DataFieldReprint.ParsedPrintable | parse.c:233-445 | whatever text is read, the tree has no quote and no NUL in a string and no backslash in a scalar |
| DataFieldReprint.ReadPrintRead | parse.c:233-445 | so every tree that has been read can be printed and read back, at any level and with any text behind it |
| DataFieldReprint.EscapedQuoteEnds | parse.c:254-278 | a scalar ends at an escaped quote, and its backslash is lost |
| DataFieldSyntax.NumberRead | parse.c:245-252 | digits are read as a scalar of just these digits, up to the first other character |
| DataFieldSyntax.TextRead | parse.c:254-278 | a text in quotes is read as a scalar of its characters but for the backslashes |
| DataFieldSyntax.WrittenIsRead | parse.c:233-445 | a tree that is written out in any way (numbers with or without quotes, white space anywhere between, commas between items missing or doubled, a comma at the end of a map) is read as that tree, leaving the text behind it |
| DataFieldSyntax.ReadIffWritten | parse.c:233-445 | and nothing else is read as it |
| DataFieldFree.FreeFirst | parse.c:176-196 | the pending subtrees are what is left to free, though removal brings the last of the worklist to the front; each turn frees one live node |
| DataFieldFree.FreeTree | parse.c:167-198 | every node of a tree is freed exactly once, none is touched after that, and the worklist runs empty |
| TextBreaks.JoinedNarrow | text.c:49-97 | with an inserted text that holds a newline and an indentation of mocklen characters behind it, no line of the output has more than maxlen characters, not counting what is inserted before the newline |
| TextBreaks.JoinedKeepsText | text.c:49-97 | if the inserted text is white space or nothing, the output has the non-white characters of the input, in order |
| TextBreaks.JoinedUnchanged | text.c:49-97 | a text whose lines fit and do not begin with white space comes out as it is |
| TextBreaks.BreakInWord | text.c:57-93 | a line is broken between two letters or digits only if the maxlen - mocklen characters before are all letters or digits |
| TextWrap.LinesBreak | text.c:49-97 | the greedy lines are stretches of the input with its newlines between them, and the inserted text wherever a line is too long, at the last white space within reach, else behind the last character that is no letter or digit, else where the line is full |
| TextWrap.BreakLine | text.c:56-93 | chopping takes back exactly the tail of the current line, never an inserted piece, and the next line starts behind the start of this one |
| TextWrap.TextWrap | text.c:38-99 | the output with its chops and rewinds is the text broken so, for every text and every maxlen above mocklen, and the loop ends |
| TextWrap.WrapsMeans | text.c:38-99 | so all of that holds of the output itself |
| Shadow.SelProcess | select.c:157-215 | without SPF_2D: the first record that is not 2-D, or the one so many places behind it as the rank says, in the order in which they are sorted; none if there are not so many |
| Shadow.SelProcessFlat | select.c:169-215 | with SPF_2D: the smallest of the leading 2-D records with the mouse in it, the first of that size, and none exactly if there is no such record |
| Shadow.DfsFindsFirst | shadow.c:459-481 | depth-first search finds the hit of the lexicographically first path of hits behind leading 2-D records that reaches the last level, and nothing exactly if there is none |
| Shadow.SearchFindsNodes | shadow.c:435-482 | if 2-D records come first, as they are sorted, no hit that is found is a 2-D one: it ends the first path of other hits, and nothing is found exactly if there is none |
| Shadow.WiShadow | shadow.c:435-482 | the loop with its stack of chances ends and returns what the recursive depth-first search returns, though gn can be left over from an earlier pass; with no levels at all it returns NULL |
| Server.InvKept | server.c:496-606 | every step of every thread keeps mutual exclusion, queue order, conservation, what becomes of sessions, and no lost work |
| Server.InvAlways | server.c:496-606 | so they hold in every state of every run, with any number of readers, spurious wakeups and signals that wake several |
| Server.NoLostWorkReader | server.c:507-514 | a reader's step never leaves more queued sessions than readers about to look, while one is blocked |
| Server.NoLostWorkSignal | server.c:600-603 | the listener's signal makes up for the session it has just queued |
| Server.NeverAllAsleep | server.c:507-514 | in no run are all readers blocked while a session waits and no signal is due |
| Server.ConservedKept | server.c:490-606 | every accepted session is in exactly one place: the listener, readq, a reader, renderq, the renderer, or closed |
| Server.ClosedOnce | server.c:490-493 | no descriptor is closed twice in any run |
| Server.FatesKept | server.c:490-606 | what is taken off readq is being read, dropped or read in full; what is read in full is on its way to renderq or has entered it; what is closed has been dropped, or taken off renderq |
| Server.ClosedWhy | server.c:490-606 | in every run, a closed session either was dropped and never read in full, or was read in full and taken off renderq |
| Server.InOrderKept | server.c:373-377 | sessions are begun in the order accepted, and rendered in the order in which they entered renderq |
| Torus.NegMod | math.c:25-38 | for negative numbers too the result is the remainder in [0, b) of the floor division |
| Torus.NegModShiftInjective | math.c:25-38 | of the numbers in one turn no two have the same remainder after a shift |
| Torus.IndexInRange | node.h:75-76 | every cell has its place in node_wimap |
| Torus.IndexInjective | node.h:75-76 | and no two cells share one |
| Ring.NextRank | node.c:177-186 | a step to the next occupied slot changes the rank among the occupied ones by one, and crosses the boundary exactly when the rank wraps |
| Ring.OneCycle | node.c:177-186 | from an occupied slot, as many steps as there are occupied slots return, and reach each of them |
| Neighbors.NodeNeighbor | node.c:133-187 | the loop ends from any stored node, at the next occupied cell of the line, with flip set exactly if the step led across the boundary |
| Neighbors.NeighborWhere | node.c:140-187 | for each of the six directions: the other two coordinates stay, and the named one goes up (or down) past no stored node with flip 0; if there is none that way, flip is 1 (or -1) and the neighbor is the lowest (or highest) stored node of the line |
| Neighbors.NeighborBack | node.c:140-187 | the opposite direction leads straight back, with the opposite flip |
| Neighbors.TravelReaches | node.c:177-186 | going on in one direction visits every node of the line |
| Neighbors.TravelNeverTwice | node.c:177-186 | each of them once in a cycle |
| Neighbors.TravelReturns | node.c:177-186 | and then returns |
| Neighbors.NeighborWhenFull | node.c:177-186 | without empty cells the neighbor is in the adjacent cell |
| Hops.WineighborNhops | node.c:385-405 | the loop over the dimensions adds up the shorter ways round |
| Hops.HopsMetric | node.c:385-405 | the hop count is a metric: zero only between a cell and itself, symmetric, and subject to the triangle inequality |
| Hops.NoShorterPath | node.c:385-405 | on a full torus no path of neighbor steps is shorter than the hop count |
| Hops.PathOfHops | node.c:385-405 | and there is one just as long |
| Hops.HopsBelowMax | main.c:511-537 | the hop count is always below maxhops |
| Hops.CountNeighbors | main.c:511-540 | nneighbors counts the nodes of the center's job by hops, a center chosen on the way excepted, and the exit for too many hops is never taken |
| Hops.TallyCounts | main.c:511-540 | that tally is the number of nodes drawn of that job so many hops away |
| Hops.CenterIsFirst | main.c:511-540 | with none selected the center is the first node drawn that has a job |
| Placement.WrapsRound | main.c:661-678 | the remainder and the floor of the quotient make up the unwrapped coordinate again, for negative offsets too |
| Placement.PlaceCell | main.c:661-678 | the node shown at iv is put at exactly (iv + wioff) * winsp and made visible, and the placement of no other cell is undone |
| Placement.PlaceWired | main.c:658-680 | after the loops that holds for every cell |
| Placement.PlacedApart | main.c:658-680 | every stored node has been placed, and with nonzero spacing no two in the same position |
| Placement.PlacedInView | main.c:658-680 | along each axis, a node is at its own cell moved by whole turns of the torus into the view, which has widim cells from wioff on, times the spacing |
| PhysCoord.PhysPos | node.c:115-131 | the coordinates of a place in the array are ones that node_for_pc maps back to it |
| PhysCoord.NodeForPcInjective | node.c:293-308 | and no other coordinates are mapped there |
| PhysCoord.NodeForPcOrdered | node.c:293-308 | places are in the order of part, rack, iru, blade and node |
| ObjList.ObjectList.Get | objlist.c:159-197 | obj_get: which slot is served, how the slots move, what is allocated |
| ObjList.ObjectList.Request | objlist.c:155-197 | with the id stored by the caller, and no object in two slots, no id in two objects |
| ObjList.ObjectList.BatchEnd | objlist.c:132-149 | exactly the objects of the batch are flagged old, among all there are |
| ObjList.ObjectList.Batch | objlist.c:126-197 | a whole batch with any requests |
| ObjList.BatchKeeps | objlist.c:126-197 | the live prefix is the order-preserving de-duplication of the requests, no object is dropped, and none is allocated unless there are more different ids than objects |
| ObjList.DedupOrder | objlist.c:166-196 | that is: each id once, in the order of the first requests |
| ObjList.SameObjectForSameId | objlist.c:168-177 | in a batch the same id gets the same object and different ids different objects |
| ObjList.StoredBatch | objlist.c:171-177 | a batch that asks only for stored ids, in any order, allocates nothing and gets for each the object that had the id |
| SelNode.Selection.Insert | selnode.c:60-81 | puts a node at the head of the list, flags it, counts it, and records it |
| SelNode.Selection.AddNode | selnode.c:86-95 | puts a node at the head of the list and records it, unless it is listed already |
| SelNode.Selection.DelNode | selnode.c:124-146 | takes a listed node off the list and records that, and tells whether it was listed |
| SelNode.Selection.ToggleNode | selnode.c:148-153 | takes a node off the list, or puts it at its head, and records which |
| SelNode.Selection.SetNode | selnode.c:155-160 | selects one node only, and records the clearing and the node |
| SelNode.Selection.ClearNodes | selnode.c:97-122 | empties the list, clears the flags and records each node |
| SelNode.Selection.BeginRecording | flyby.c:241-248 | a session begins with records of what is selected, which select just that |
| SelNode.Selection.ReadSelNode | flyby.c:308-314 | a select record toggles its node |
| SelNode.Selection.Play | flyby.c:308-314 | from a cleared selection, reading all records leaves the list that toggling in turn makes |
| SelNode.Selection.Session | selnode.c:60-160 | for any run of add, del, toggle, set and clear: at every boundary between operations the records so far play back to the same set of node and offset pairs; flags, count and list agree throughout |
| SelNode.ReplayedPairs | flyby.c:308-314 | playing back never lists a node twice, and as a set its result depends only on the set before |
| SelNode.ClearingDeselects | selnode.c:105-112 | the records of clearing, played back in list order, deselect everything |
| Fgets.UStream.CopyOut | util.c:168-185 | copies up to the newline, or all of the buffer, as far as there is room, and advances us_bufstart in range |
| Fgets.UStream.MyFgets | util.c:154-204 | one call on any stream, buffer and size, however the reads split the stream: which text it leaves in s with a NUL behind it, when it returns NULL, what stays unread, and that no more is read ahead than there was room for |
| Fgets.UStream.ReadLines | util.c:154-204 | if every line fits, the calls deliver the lines of the stream one by one, whatever the reads and the buffer |
| Fgets.LinesAreTheText | util.c:154-204 | those lines are the text up to its last newline |
| Fgets.LinesEndInNewlines | util.c:154-204 | each ending at its only newline |
| Fgets.WhatIsRead | util.c:154-204 | a call succeeds exactly if the first line fits into s or is in the buffer as a whole; s gets that line, or as much of it as fits |
| Fgets.BufferMattersIff | util.c:168-193 | what a call does depends on what is in a buffer of a given size exactly if a first line fits into the buffer but not into s |
| Fgets.UStream.BufferMatters | util.c:168-193 | and so for the buffer of every stream |
| Fgets.SmallBufferNeverMatters | util.c:168-193 | it does not depend on that if the buffer holds no more than there is room for |
| Fgets.CutOrLost | util.c:154-204 | a call with more room, and then one with less than its line needs: how much the read of the first delivers decides whether the line is cut or lost |
| Fgets.Strnchr | util.c:92-104 | the first such character within the length, or NULL if there is none, whatever is in memory behind it |
| Base64.ShiftsAndMasks | util.c:69-82 | what the shifts and masks take out of the three bytes |
| Base64.TurnBits | util.c:61-83 | the sextets of a group are the bits of its bytes, with zeros for what is missing |
| Base64.Encode | util.c:50-90 | the characters written are those of the bits of the input in groups of six as in RFC 4648, section 4, with the padding, two more = if the length is a multiple of three, and a NUL |
| Base64.EncodesIffNotMultipleOfThree | util.c:84-88 | what is before the NUL is the encoding that the RFC defines exactly if the length is not a multiple of three |
| Base64.DecodeEncoded | util.c:50-90 | decoding the characters other than = gives back every string of bytes |
| Base64.ValueOfPres | util.c:53-54 | the alphabet has no character twice, and no = |

## Left out

- OpenGL and GLUT drawing, panels, key and mouse handlers, textures, images: user interface.
- Sockets, HTTP, SSL, GSSAPI, gzip, directory scans, file opening: streams are character sequences here, and how many characters a read delivers is left open; read errors are not modelled, only ends of file.
- Camera, tweening, vectors and colours: floating-point trigonometry; the placement is done in integers, which its spacing and offsets are.
- Long options (`parse_long_options`, `-W`), the messages of getopt, and its return codes as numbers; results are named.
- Character classes other than those of ASCII.
- Allocation failures (`err`, `errx` exits) and the width of `int`: numbers are unbounded.
- Getopt.Scanner.Next: requires optind to be at most argc when a run begins, and the same argv and options for all calls of a run, as callers keep to; a call after an early -1 without a restart is not described.
- DataFieldParser.ReadQuoted: requires that the stream does not end inside quotes, where the C loop never ends; `QuotedHangsIff` says exactly when.
- DataFieldParser.ParseDataField: requires the same of the whole field; `FieldStops` shows that a NUL in the stream is enough.
- DataFieldFree.FreeTree: the buffers and names inside the nodes are freed with their nodes and not modelled one by one.
- `datafield_map_getkeyvalue`, `psc_dynarray_bsearch` and `psc_dynarray_splice`: simple lookups, and code that nothing calls.
- TextWrap.TextWrap: requires maxlen above mocklen; otherwise the code can go on for ever.
- Shadow.WiShadow: with no levels the code writes the bottom of an empty stack, which is left out; the hit test and the division into sub-cubes are left open, and the hit test answers the same for the same cube.
- Shadow.SelProcess: the sort of the records, and the callback of the one that is found, are left out.
- The geometry of `cubeno_to_v` and `draw_shadow_wisect`.
- Server: parsing of requests and rendering are single steps with any outcome; that every session is served in the end is not proved, since nothing makes the scheduler fair.
- Neighbors.NodeNeighbor: the `VM_PHYS` case, hard-wired to a four-node blade, is left out; that every node is stored in the cell it says it is in is assumed, since nothing in these files fills node_wimap.
- The angles and distances of the neighborhood view, and `rf_deps` and the route tables.
- PhysCoord.NodeForPcInjective: coordinates are not negative, as node_for_pc does not check for that.
- ObjList.ObjectList.BatchStart: requires that the batch before has been ended; the objects' other contents are not modelled.
- `sn_replace`, which can list a node twice and records the same node in both records, and `sn_addallvis`.
- SelNode.Selection.BeginRecording: requires an empty file, one session; that a node's number leads back to the node is assumed. Playing in a loop starts from what is selected at the end and not from a cleared selection.
- Fgets.UStream.ReadLines: what follows the last newline is lost at the end of the stream, as in the code.
