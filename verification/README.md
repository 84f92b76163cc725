# Verified models of INET/FANET core algorithms

This project models seven self-contained pieces of the simulation code in Dafny 4.11 and proves what they are for.
`dafny verify dfyconfig.toml` checks all of it. Objects the program changes in place are classes with the same fields;
algorithms with loops are methods with loops; what they compute is stated through specification functions, and the
properties are proved about those.

**Interval tree** (`IntervalNodes`, `RedBlackTree`, `RebalanceSteps`, `TreeDeletion`, `LinkedShape`, `IntervalQuery`,
`IntervalTree`). The tree is made of heap objects with parent links and the two sentinels. A ghost tree and a zipper
describe which part of it an algorithm is looking at; `LinkedShape` says when linked objects have that shape, the
value-level modules carry the red-black, order and `max_high` reasoning. Insertion adds one node, deletion removes
one, both restore every invariant, and the query with its explicit stack reports exactly the overlapping intervals,
each once. The query needs its start to lie above the time nil carries; at that time it misses nodes, and this is
proved too.

**128-bit integers** (`Powers`, `Int128Words`, `Int128Division`, `Int128Text`, `Int128Numerals`, `Int128`). Two 64-bit
halves; every operation is tied to the integer it stands for, and the texts to the weighted values of their
characters. The order of negative numbers, division of INT128_MIN, the text of INT128_MIN and one letter that `set`
takes for a digit are wrong in the program, and division by INT128_MIN never returns; the exact conditions are stated.

**Topology** (`TopologyNodes`, `ShortestPaths`, `Topology`). Nodes and links as heap objects, doubles as reals with an
infinity. The weighted search (a sorted list with decrease-key by removal and insertion) and the breadth-first search
find least costs over all walks along enabled links and nodes; the weighted one stops at an assertion exactly if a
node or link from which the target can be reached has a weight it must not have. The edits of the graph keep both link
lists and the node index, sorted by module ids, consistent; where one would not, or an assertion would stop it, the
exact condition is stated.

**Glob patterns** (`GlobPatterns`, `GlobParsing`, `GlobFolding`, `GlobLaws`, `PatternMatcher`). What the elements of a
pattern accept is defined by splitting the line into pieces; the backtracking matcher with its shortcuts decides
exactly that. What the text of a pattern means is stated over its parts and the line alone: plain and quoted text
stands for itself, `?`, `*`, `**`, sets and numeric ranges for what each of them names, and a pattern for its parts
one after the other, in whole and in substring match, with and without case sensitivity. The case-insensitive mode
minds the case of a literal behind a last `**`, and only there; which numeric ranges are honoured, and which texts are
read past their end, is stated exactly.

**Macho state machines** (`MachoStates`, `Macho`). The state tree is data and the user's actions are arbitrary allowed
requests, given as scripts: one entry for each call of an init action and of an event handler. Entry, exit, init and
handler calls are logged; the states entered and not left are the current state and its superstates after every
completed transition, in every run. A run is a sequence of moments, each of which decides the next: a pending
transition, with the histories it saves and the history or init action it goes on to, before a pending event and its
handler. Starting a machine and sending it an event is proved to do such a run to its end and nothing else. Entry and
exit actions may not request anything, as the program asserts. A run is `refused` where an assertion of the program
would stop it.

**X-MAC layer** (`XmacStates`, `XmacLayer`). One method call is one event; any scheduled message may become due at any
time, so every choice of delays is covered. A method that returns false has thrown, which ends the run. `Valid` holds
in every run: the queue is first in, first out, acknowledgements go to the sender of the frame delivered, and the
timers fit the state or the layer is adrift, listening without a timer. For each state it is stated exactly why it is
entered; a packet once being sent is sent to the end unless a longer series of preambles forestalls it; and some
message always comes that is expected, unless the layer is adrift. It becomes adrift exactly by a newer preamble
addressed to one other station while it waits for an answer to its own, and stops being adrift exactly by a data frame
or a preamble that names it. An answer to a preamble is addressed to its sender only if the station competed for it.

**Reassembly and byte queues** (`ReassemblyBuffer`, `ByteQueues`, `ByteArrayBuffer`). The buffer is tied to a function
of the fragments received. Of fragments of one datagram it knows exactly what has arrived, in any order. Of
overlapping ones it never claims too much, and it is stated, over the fragments alone, exactly which collections it
always gets right. A chunked buffer is a flat queue of bytes: what has left and what it holds is always what was
pushed.

Where the code and its comments disagree the code is followed: in `set` the upper bound for letter digits admits, in
radix 10 and 16 but not in radix 8, the letter after the last digit; a pattern that ends in an odd number of
backslashes is read past its end, unless a set is left open, and this is reported as its own outcome; the comment in
`merge` that overlapping is not possible holds for fragments of one datagram only; the handler comments of the X-MAC
layer describe fewer states than there are.

## Model

| member | source | states |
|---|---|---|
| IntervalTrees.IntervalTree.constructor | inetmanet-3.x/src/inet/common/IntervalTree.cc:57-76 | a new tree is valid and empty; both sentinels are linked as the algorithms expect |
| IntervalTrees.IntervalTree.LeftRotate | inetmanet-3.x/src/inet/common/IntervalTree.cc:115-137 | every link, parent pointer and `max_high` after the rotation; all other nodes untouched |
| IntervalTrees.IntervalTree.RightRotate | inetmanet-3.x/src/inet/common/IntervalTree.cc:139-161 | the mirror image of the left rotation |
| RedBlackTree.RotateLeftKeeps | inetmanet-3.x/src/inet/common/IntervalTree.cc:115-137 | a rotation keeps the in-order sequence and correct `max_high` values below it |
| RedBlackTree.RotateRightKeeps | inetmanet-3.x/src/inet/common/IntervalTree.cc:139-161 | the same for the right rotation |
| LinkedShape.Ends.LeftRotatedShape | inetmanet-3.x/src/inet/common/IntervalTree.cc:115-137 | the pointers a left rotation leaves are those of the rotated tree, parent links included |
| LinkedShape.Ends.RightRotatedShape | inetmanet-3.x/src/inet/common/IntervalTree.cc:139-161 | the same for the right rotation |
| RedBlackTree.KeyPathSplits | inetmanet-3.x/src/inet/common/IntervalTree.cc:163-184 | the place the descent reaches lies between the keys not greater and the keys greater, whatever equal keys there are |
| IntervalTrees.IntervalTree.FindPlace | inetmanet-3.x/src/inet/common/IntervalTree.cc:163-184 | the descent ends in an empty place whose path fits the new key |
| IntervalTrees.IntervalTree.RecursiveInsert | inetmanet-3.x/src/inet/common/IntervalTree.cc:163-184 | the new leaf hangs in that place, linked both ways |
| IntervalTrees.IntervalTree.FixupMaxHigh | inetmanet-3.x/src/inet/common/IntervalTree.cc:186-193 | the walk to the root writes exactly the maxima of the tree with the changed subtree |
| RedBlackTree.FixMaxOk | inetmanet-3.x/src/inet/common/IntervalTree.cc:186-193 | those maxima are right for the whole tree |
| IntervalTrees.IntervalTree.Insert | inetmanet-3.x/src/inet/common/IntervalTree.cc:195-256 | exactly one fresh node joins, behind every key not greater and before every greater one; the tree is again a valid red-black tree with correct `max_high`, parent links and order |
| IntervalTrees.IntervalTree.InsertFixup | inetmanet-3.x/src/inet/common/IntervalTree.cc:206-254 | the loop ends with no red-red edge and equal black heights, the in-order sequence unchanged |
| RebalanceSteps.InsertRecolours | inetmanet-3.x/src/inet/common/IntervalTree.cc:211-218 | the red-uncle case keeps the loop invariant two levels up |
| RebalanceSteps.InsertRotatesRight | inetmanet-3.x/src/inet/common/IntervalTree.cc:226-228 | the outer black-uncle case ends the repair |
| RebalanceSteps.InsertRotatesLeft | inetmanet-3.x/src/inet/common/IntervalTree.cc:248-250 | its mirror image |
| RebalanceSteps.InsertTurnsLeft | inetmanet-3.x/src/inet/common/IntervalTree.cc:221-225 | the inner case becomes the outer one |
| RebalanceSteps.InsertTurnsRight | inetmanet-3.x/src/inet/common/IntervalTree.cc:243-247 | its mirror image |
| RebalanceSteps.HeightBound | inetmanet-3.x/src/inet/common/IntervalTree.cc:195-256 | a valid tree of n nodes has 2^height at most (n+1)^2, that is height at most 2*log2(n+1) |
| IntervalTrees.IntervalTree.GetMinimum | inetmanet-3.x/src/inet/common/IntervalTree.cc:258-263 | the leftmost node below the given one |
| IntervalTrees.IntervalTree.GetMaximum | inetmanet-3.x/src/inet/common/IntervalTree.cc:265-270 | the rightmost node below the given one |
| IntervalTrees.IntervalTree.GetSuccessor | inetmanet-3.x/src/inet/common/IntervalTree.cc:272-288 | the next node in order; the `root` sentinel after the last one |
| IntervalTrees.IntervalTree.GetPredecessor | inetmanet-3.x/src/inet/common/IntervalTree.cc:290-306 | the previous node in order; the `nil` sentinel before the first one |
| TreeDeletion.Neighbours | inetmanet-3.x/src/inet/common/IntervalTree.cc:272-306 | what these walks find are the neighbours in the in-order sequence |
| IntervalTrees.IntervalTree.DeleteFixup | inetmanet-3.x/src/inet/common/IntervalTree.cc:345-416 | restores a tree that is one black node short at x, though `root_left_node` is read before the rotations and x may be `nil` with a borrowed parent; same in-order sequence and maxima |
| RebalanceSteps.DeleteRotatesLeft | inetmanet-3.x/src/inet/common/IntervalTree.cc:355-361 | the red-sibling case: still one black short, now with a black sibling |
| RebalanceSteps.DeleteRotatesRight | inetmanet-3.x/src/inet/common/IntervalTree.cc:386-392 | its mirror image |
| RebalanceSteps.DeleteRecolours | inetmanet-3.x/src/inet/common/IntervalTree.cc:362-366 | two black nephews: the deficit moves to the parent |
| RebalanceSteps.DeleteTurnsRight | inetmanet-3.x/src/inet/common/IntervalTree.cc:369-375 | the near red nephew becomes a far one |
| RebalanceSteps.DeleteTurnsLeft | inetmanet-3.x/src/inet/common/IntervalTree.cc:400-406 | its mirror image |
| RebalanceSteps.DeleteEndsLeft | inetmanet-3.x/src/inet/common/IntervalTree.cc:376-380 | a far red nephew: recolouring and one rotation end the repair of the whole tree |
| RebalanceSteps.DeleteEndsRight | inetmanet-3.x/src/inet/common/IntervalTree.cc:407-411 | its mirror image |
| RebalanceSteps.DeleteDone | inetmanet-3.x/src/inet/common/IntervalTree.cc:415 | the last write to x's colour pays for the missing black node |
| TreeDeletion.SpliceEnds | inetmanet-3.x/src/inet/common/IntervalTree.cc:491-497 | a node with at most one child: the repaired tree is valid and lacks exactly that node |
| TreeDeletion.PromoteEnds | inetmanet-3.x/src/inet/common/IntervalTree.cc:469-490 | a node with two children: with the successor in its place the repaired tree is valid and lacks exactly that node |
| TreeDeletion.DeletedNodes | inetmanet-3.x/src/inet/common/IntervalTree.cc:443-500 | the set of nodes loses exactly the deleted one |
| IntervalTrees.IntervalTree.DeleteNode | inetmanet-3.x/src/inet/common/IntervalTree.cc:443-500 | returns the stored interval; the in-order sequence loses exactly the given node; the tree is valid again |
| IntervalTrees.IntervalTree.RecursiveSearch | inetmanet-3.x/src/inet/common/IntervalTree.cc:425-441 | finds the first node in preorder that stores the very interval, or `nil` |
| TreeDeletion.FindStored | inetmanet-3.x/src/inet/common/IntervalTree.cc:425-441 | the node found stores the interval, and none is found only if no node does |
| IntervalTrees.IntervalTree.DeleteInterval | inetmanet-3.x/src/inet/common/IntervalTree.cc:418-423 | deletes one node that stores the interval, or changes nothing if there is none; a null pointer, and only that, is taken for the root sentinel |
| IntervalQuery.OverlapIsSymmetric | inetmanet-3.x/src/inet/common/IntervalTree.cc:502-513 | for proper intervals, the case split is the symmetric overlap test |
| IntervalQuery.VisitSound | inetmanet-3.x/src/inet/common/IntervalTree.cc:515-562 | for every query: whatever the pruned search reports overlaps, and nothing is reported twice |
| IntervalQuery.VisitComplete | inetmanet-3.x/src/inet/common/IntervalTree.cc:530-558 | the pruned search reports every overlapping node exactly once, for low above nil's `max_high` |
| IntervalQuery.Reported | inetmanet-3.x/src/inet/common/IntervalTree.cc:502-562 | what that means for the times of the nodes, both ways |
| IntervalQuery.VisitOnce | inetmanet-3.x/src/inet/common/IntervalTree.cc:515-562 | no node is reported twice |
| IntervalQuery.LeaningRightMisses | inetmanet-3.x/src/inet/common/IntervalTree.cc:530 | at that least time a valid two-node tree exists on which an overlapping node is missed |
| IntervalQuery.QueryCompleteExactly | inetmanet-3.x/src/inet/common/IntervalTree.cc:530 | the search is complete on all trees of two overlapping nodes if and only if low lies above nil's `max_high` |
| IntervalQuery.VisitPushes | inetmanet-3.x/src/inet/common/IntervalTree.cc:530-545 | one turn to the left keeps what is found plus what the stack still promises |
| IntervalQuery.VisitSkips | inetmanet-3.x/src/inet/common/IntervalTree.cc:546-547 | one turn to the right keeps it too |
| IntervalQuery.RestPops | inetmanet-3.x/src/inet/common/IntervalTree.cc:550-559 | popping an entry keeps it; the bit decides about the right branch and is handed to the entry below |
| IntervalTrees.IntervalTree.Report | inetmanet-3.x/src/inet/common/IntervalTree.cc:525-529 | a node that overlaps joins the result and marks the entry on top; another changes nothing |
| IntervalTrees.IntervalTree.VisitOne | inetmanet-3.x/src/inet/common/IntervalTree.cc:525-549 | one node: result, bit, stack growth and parent index agree with the search invariant |
| IntervalTrees.IntervalTree.PopOne | inetmanet-3.x/src/inet/common/IntervalTree.cc:552-558 | one entry comes off: its bit decides whether its right branch is next and the entry below is marked |
| IntervalTrees.IntervalTree.PopNodes | inetmanet-3.x/src/inet/common/IntervalTree.cc:550-559 | the popping loop ends at the next right branch or with an empty stack |
| IntervalTrees.IntervalTree.Query | inetmanet-3.x/src/inet/common/IntervalTree.cc:515-562 | returns the intervals of overlapping nodes only (one that begins within the query, or begins before it and ends no earlier than it begins), no node twice; for low above nil's `max_high` and proper stored intervals of every such node; the stack is idle again |
| Int128Words.HalvesOf | inetmanet-3.x/src/inet/common/int128.h:98-100 | two halves computed from an integer stand for it modulo 2^128 |
| Int128Words.HalvesUnique | inetmanet-3.x/src/inet/common/int128.h:98-100 | a value determines its halves |
| Int128Words.SumHalves | inetmanet-3.x/src/inet/common/int128.cc:204-214 | the carry read off the low word makes the sum right modulo 2^128 |
| Int128Words.NegatedHalves | inetmanet-3.x/src/inet/common/int128.cc:162-168 | both branches of unary minus negate modulo 2^128 |
| Int128Words.ShlHalves | inetmanet-3.x/src/inet/common/int128.cc:365-377 | masking and joining across the word boundary multiplies by 2^n modulo 2^128 |
| Int128Words.ShlWord | inetmanet-3.x/src/inet/common/int128.cc:359-363 | so does shifting by a word or more |
| Int128Words.ShrHalves | inetmanet-3.x/src/inet/common/int128.cc:335-347 | the arithmetic right shift across the boundary is floor division by 2^n |
| Int128Words.ShrWord | inetmanet-3.x/src/inet/common/int128.cc:329-333 | so is shifting by a word or more |
| Int128Words.LessExactly | inetmanet-3.x/src/inet/common/int128.cc:382-392 | operator< agrees with the order of the integers exactly unless both high words are the same negative one and the low words lie on different sides of 2^63 |
| Int128Words.BitOfHalves | inetmanet-3.x/src/inet/common/int128.cc:291-300 | testing a bit of a half tests the bit of the two's complement value, for every n |
| Int128Words.HighWithBit | inetmanet-3.x/src/inet/common/int128.cc:302-319 | setting or clearing a bit of the high word changes the value by that power of two, sign bit included |
| Int128s.Int128.Negated | inetmanet-3.x/src/inet/common/int128.cc:162-168 | a new object: the negative modulo 2^128 |
| Int128s.Int128.Increment | inetmanet-3.x/src/inet/common/int128.cc:170-177 | adds one modulo 2^128 |
| Int128s.Int128.Decrement | inetmanet-3.x/src/inet/common/int128.cc:179-186 | subtracts one modulo 2^128 |
| Int128s.Int128.AddAssign | inetmanet-3.x/src/inet/common/int128.cc:204-214 | the sum modulo 2^128, also when the operand is the object itself |
| Int128s.Int128.SubAssign | inetmanet-3.x/src/inet/common/int128.h:128-131 | the difference modulo 2^128, also when the operand is the object itself |
| Int128s.Int128.MulAssign | inetmanet-3.x/src/inet/common/int128.cc:216-237 | shift-and-add is the product modulo 2^128, also when the operand is the object itself |
| Int128Division.ProductStep | inetmanet-3.x/src/inet/common/int128.cc:229-234 | one turn takes one more binary digit of the multiplier into account |
| Int128Division.ProductEnds | inetmanet-3.x/src/inet/common/int128.cc:229-236 | after 128 digits that is the whole product modulo 2^128 |
| Int128s.Int128.ShlAssign | inetmanet-3.x/src/inet/common/int128.cc:352-380 | multiplication by 2^n modulo 2^128 for every n |
| Int128s.Int128.ShrAssign | inetmanet-3.x/src/inet/common/int128.cc:321-350 | floor division by 2^n for every n |
| Int128s.Int128.GetBit | inetmanet-3.x/src/inet/common/int128.cc:291-300 | bit n of the two's complement value for every n |
| Int128s.Int128.SetBit | inetmanet-3.x/src/inet/common/int128.cc:302-319 | sets or clears one bit, and nothing from 128 on |
| Int128s.Int128.TakeDigit | inetmanet-3.x/src/inet/common/int128.cc:261-263 | shifts one binary digit in from below |
| Int128s.Int128.LeadingDigits | inetmanet-3.x/src/inet/common/int128.cc:259-265 | the first loop stops at the first prefix of the dividend not below the divisor, with the 32-bit counter right even when it wraps |
| Int128s.Int128.DivideRound | inetmanet-3.x/src/inet/common/int128.cc:267-279 | one turn of the division loop is one step of the abstract division |
| Int128Division.ShiftRound | inetmanet-3.x/src/inet/common/int128.cc:268-275 | taking a digit keeps digits taken == quotient * divisor + remainder; the partial remainder never overflows |
| Int128Division.SubtractRound | inetmanet-3.x/src/inet/common/int128.cc:276-279 | subtracting the divisor keeps it too, and the quotient digit set was clear |
| Int128Division.LessIntAbove | inetmanet-3.x/src/inet/common/int128.cc:246-276 | every comparison of the division is between operands on which operator< is the order of the integers |
| Int128Division.SignsCorrected | inetmanet-3.x/src/inet/common/int128.cc:281-285 | the sign corrections turn magnitudes into truncated division |
| Int128Division.TruncatedOnce | inetmanet-3.x/src/inet/common/int128.cc:239-289 | truncated quotient and remainder are unique |
| Int128Division.DividedExactly | inetmanet-3.x/src/inet/common/int128.cc:239-289 | the result is truncated division if and only if the dividend is not INT128_MIN |
| Int128Division.NeverSmaller | inetmanet-3.x/src/inet/common/int128.cc:246-265 | with INT128_MIN as divisor the early return and the first loop are passed over for every magnitude a dividend can have, and the counter stands at 128; for other words operator< would say smaller |
| Int128Division.DivisionByMinNeverReturns | inetmanet-3.x/src/inet/common/int128.cc:246-279 | for every dividend and every number of turns: dividing by INT128_MIN never reaches its exit, the remainder alternates between two values |
| Int128s.Int128.Div | inetmanet-3.x/src/inet/common/int128.cc:239-289 | terminates for every divisor but INT128_MIN; zero traps; quotient and remainder are truncated division, except that dividend INT128_MIN gives 0 and itself; the remainder may be stored in the dividend or the divisor |
| Int128s.Int128.DivAssign | inetmanet-3.x/src/inet/common/int128.h:133-138 | the quotient replaces the object |
| Int128s.Int128.ModAssign | inetmanet-3.x/src/inet/common/int128.h:140-144 | the remainder replaces the object although it is passed as its own remainder |
| Int128s.Int128.ToString | inetmanet-3.x/src/inet/common/int128.cc:37-62 | prints, with digits and capital letters, the numeral without leading zeros whose weighted value is the magnitude, behind a minus sign for a negative value; zero as "0", INT128_MIN as "-0"; the digit loop never exhausts the buffer of 256 |
| Int128s.Int128.Set | inetmanet-3.x/src/inet/common/int128.cc:64-109 | the weighted value, modulo 2^128, of the characters behind sign and prefix up to the first that is no digit, where a letter worth the radix counts as one; its negative behind a minus sign |
| Int128Text.DigitsExactly | inetmanet-3.x/src/inet/common/int128.cc:94-101 | for radix 8, 10 and 16: a character is taken as a digit if and only if it is one, except for the letter after the last digit of radix 10 or 16, which counts as the radix itself |
| Int128Text.StopsExactly | inetmanet-3.x/src/inet/common/int128.cc:92-101 | reading stops at the first character that is no digit of the radix if and only if that is not this letter |
| Int128Text.TextStopsExactly | inetmanet-3.x/src/inet/common/int128.cc:74-105 | the same for whole texts with sign and prefix; what is read is the value of the characters taken |
| Int128Text.ExtraLetterRead | inetmanet-3.x/src/inet/common/int128.cc:96 | "1a" is read as 20 |
| Int128Text.ReadDigits | inetmanet-3.x/src/inet/common/int128.cc:92-105 | digits printed in a radix up to 36 read back as the number |
| Int128Text.NoLeadingZero | inetmanet-3.x/src/inet/common/int128.cc:52-56 | the digits of a positive number never start with a zero, so no prefix is seen in them |
| Int128Text.DigitsShort | inetmanet-3.x/src/inet/common/int128.cc:49-56 | a number below 2^n prints as at most n digits in every radix |
| Int128Text.HexadecimalRead | inetmanet-3.x/src/inet/common/int128.cc:83-90 | every value not negative, printed in radix 16 behind the prefix 0x, reads back, and with a minus sign as its negative |
| Int128Text.OctalRead | inetmanet-3.x/src/inet/common/int128.cc:83-90 | the same for radix 8 behind the prefix 0 |
| Int128Text.RoundTrip | inetmanet-3.x/src/inet/common/int128.cc:37-109 | `set(toString(10))` gives the value back if and only if it is not INT128_MIN, which prints as "-0" |
| Int128Numerals.OneNumeral | inetmanet-3.x/src/inet/common/int128.cc:52-56 | a number has one numeral without leading zeros in each radix, so the text printed is determined by its value |
| Int128Numerals.PrintedNumeral | inetmanet-3.x/src/inet/common/int128.cc:52-56 | what is printed of a number is that numeral: the weighted value of its characters, digits and capital letters, is the number, in every radix the program accepts |
| Int128Numerals.TextPrints | inetmanet-3.x/src/inet/common/int128.cc:37-62 | the same for the whole text with its sign, zero and INT128_MIN |
| Int128Numerals.LengthTaken | inetmanet-3.x/src/inet/common/int128.cc:92-101 | reading goes on as far as characters are digits of the radix or the letter worth the radix, and no further |
| Int128Numerals.TakenRead | inetmanet-3.x/src/inet/common/int128.cc:92-105 | characters that are all taken read as their weighted value modulo 2^128 |
| Int128Numerals.ReadMeans | inetmanet-3.x/src/inet/common/int128.cc:64-109 | every text reads as the weight of what stands behind its sign and prefix |
| Int128Numerals.WeightRead | inetmanet-3.x/src/inet/common/int128.cc:74-108 | a decimal text without leading zero, any octal text behind 0 and any hexadecimal one, letters of either case, behind 0x reads as its weighted value modulo 2^128, and as the negative behind a minus sign |
| ShortestPaths.WithoutKeeps | inetmanet-3.x/src/inet/common/Topology.cc:455 | `list::remove` takes the node out and keeps the rest distinct |
| ShortestPaths.InsertRising | inetmanet-3.x/src/inet/common/Topology.cc:459-465 | inserting before the first farther node keeps the queue sorted by distance |
| ShortestPaths.ImprovedIsOpen | inetmanet-3.x/src/inet/common/Topology.cc:453-455 | a node that is improved was never taken from the queue, and it is queued exactly if it has a distance: `q.remove(src)` always finds it |
| ShortestPaths.Improved | inetmanet-3.x/src/inet/common/Topology.cc:453-465 | one improvement keeps the whole search invariant |
| ShortestPaths.Skipped | inetmanet-3.x/src/inet/common/Topology.cc:437-453 | a link passed over keeps it too |
| ShortestPaths.Taken | inetmanet-3.x/src/inet/common/Topology.cc:430-432 | each node is taken at most once, no nearer than those before it |
| ShortestPaths.RouteFrom | inetmanet-3.x/src/inet/common/Topology.cc:453-457 | following `outPath` strictly decreases the distance and reaches the target at exactly that cost |
| ShortestPaths.NoShorterPath | inetmanet-3.x/src/inet/common/Topology.cc:412-469 | with the queue empty no path is cheaper than the distance its first node has |
| ShortestPaths.SearchEnds | inetmanet-3.x/src/inet/common/Topology.cc:412-469 | distances are least costs of paths, infinite exactly if no path has a finite one; labels lead along such a path |
| ShortestPaths.AlreadyNear | inetmanet-3.x/src/inet/common/Topology.cc:403 | in the breadth-first search a node that has a distance cannot be improved |
| ShortestPaths.PlacedLast | inetmanet-3.x/src/inet/common/Topology.cc:403-407 | appending to the deque is inserting at the sorted place |
| ShortestPaths.CostCountsLinks | inetmanet-3.x/src/inet/common/Topology.cc:372-410 | with unit costs the cost of a path is its number of links |
| Topologies.Topology.Relax | inetmanet-3.x/src/inet/common/Topology.cc:437-467 | one incoming link: skipped, or its source relabelled and put at its place in the queue; refused exactly if the link may be used and its weight is not positive |
| Topologies.Topology.TakeNext | inetmanet-3.x/src/inet/common/Topology.cc:430-468 | one node taken and all its incoming links handled; refused only if a node from which the target can be reached is unfit |
| Topologies.Topology.CalculateWeightedSingleShortestPathsTo | inetmanet-3.x/src/inet/common/Topology.cc:412-469 | for a node of the graph, as Topology.h:555-556 asks, or none: it succeeds if and only if there is a target and every node with a path of finite cost to it, and every usable link into such a node, has the weight the code asserts; then every distance is the least cost over all paths of enabled links and nodes, transit node weights included, and `outPath` leads along such a path |
| Topologies.Topology.RelaxHop | inetmanet-3.x/src/inet/common/Topology.cc:395-408 | one incoming link of the breadth-first search |
| Topologies.Topology.CalculateUnweightedSingleShortestPathsTo | inetmanet-3.x/src/inet/common/Topology.cc:372-410 | for a node of the graph, as Topology.h:549-550 asks, or none: the same with every link costing one |
| Topologies.Topology.PathsAreWalks | inetmanet-3.x/src/inet/common/Topology.cc:372-469 | the paths both searches speak of are exactly the walks over enabled links from enabled nodes |
| Topologies.Topology.CostsAreTotals | inetmanet-3.x/src/inet/common/Topology.cc:412-469 | their cost is the sum of the weights of their links and of the nodes passed through, or the number of links |
| Topologies.Topology.WeightedMeans | inetmanet-3.x/src/inet/common/Topology.cc:412-469 | no walk costs less than the distance of its first node, and each finite distance is the cost of a walk that starts by `outPath` |
| Topologies.Topology.HopsMean | inetmanet-3.x/src/inet/common/Topology.cc:372-410 | the same for the breadth-first search and the number of links |
| Topologies.Topology.AnswerableMeans | inetmanet-3.x/src/inet/common/Topology.cc:412-469 | the assertions hold exactly if every node with a walk of finite cost to the target is not weighed negatively and the usable links into it have positive weight |
| Topologies.Topology.constructor | inetmanet-3.x/src/inet/common/Topology.cc:44-47 | an empty graph is consistent |
| Topologies.Topology.TwoSided | inetmanet-3.x/src/inet/common/Topology.cc:291-354 | a link is in its source's list exactly once if and only if it is in its destination's list exactly once; other links are in none |
| Topologies.Topology.LowerBound | inetmanet-3.x/src/inet/common/Topology.cc:257-261 | binary search finds the boundary between smaller and not smaller unsigned ids |
| Topologies.UnsignedOrder | inetmanet-3.x/src/inet/common/Topology.h:334-338 | the cast to unsigned orders ids so that those not negative come before the negative ones and of the same sign the smaller comes first |
| Topologies.RisingIds | inetmanet-3.x/src/inet/common/Topology.h:334-338 | a list is sorted by it exactly if each id comes before the next in that order, or is equal |
| Topologies.Topology.InsertNode | inetmanet-3.x/src/inet/common/Topology.cc:250-263 | the same in the words of the search: behind every smaller unsigned id |
| Topologies.Topology.GetNodeFor | inetmanet-3.x/src/inet/common/Topology.cc:363-370 | finds the first node with the id if and only if a linear scan would meet one |
| Topologies.Topology.AddNode | inetmanet-3.x/src/inet/common/Topology.cc:250-263 | the node joins at the index returned, behind exactly the nodes whose ids come before its own: not negative before negative, of the same sign the smaller first, -1 last; the ids in the index keep that order; the graph stays consistent if and only if the node is new and has no links |
| Topologies.Topology.DeleteNode | inetmanet-3.x/src/inet/common/Topology.cc:265-289 | the node and exactly its links go, self-loops too; all other lists keep their order |
| Topologies.Topology.DropOutLinks | inetmanet-3.x/src/inet/common/Topology.cc:267-273 | outgoing links leave the lists of the nodes they enter |
| Topologies.Topology.DropInLinks | inetmanet-3.x/src/inet/common/Topology.cc:275-281 | incoming links leave the lists of the nodes they leave |
| Topologies.Topology.ListedExactly | inetmanet-3.x/src/inet/common/Topology.cc:291-354 | of links whose ends are in the graph, the ends hold exactly those in the graph and those without ends; a link left with stale ends is found by neither search |
| Topologies.Topology.AddLink | inetmanet-3.x/src/inet/common/Topology.cc:291-308 | refused exactly if an end the link names does not hold it, the graph then unchanged; else added or reconnected, a gate id surviving only where its end stays; the graph stays consistent if and only if the new ends are in it; list order otherwise kept |
| Topologies.Topology.AddLinkByGates | inetmanet-3.x/src/inet/common/Topology.cc:310-331 | the same by modules; when one is missing the link is out of the graph but keeps its stale ends, which no longer hold it |
| Topologies.Topology.DeleteLink | inetmanet-3.x/src/inet/common/Topology.cc:333-338 | exactly the link leaves both lists |
| Topologies.Topology.UnlinkFromSourceNode | inetmanet-3.x/src/inet/common/Topology.cc:340-346 | erases the one occurrence in the source's list; refused exactly if there is none |
| Topologies.Topology.UnlinkFromDestNode | inetmanet-3.x/src/inet/common/Topology.cc:348-354 | erases the one occurrence in the destination's list; refused exactly if there is none |
| Topologies.SideErase | inetmanet-3.x/src/inet/common/Topology.cc:340-354 | erasing at its end takes a link off all lists |
| GlobPatterns.AcceptsIffSplit | inetmanet-3.x/src/inet/common/PatternMatcher.cc:258-356 | a line is accepted exactly if it can be cut into one piece for each element |
| GlobPatterns.TailAnything | inetmanet-3.x/src/inet/common/PatternMatcher.cc:321-322 | "**" at the end: the shortcut changes nothing |
| GlobPatterns.TailLiteral | inetmanet-3.x/src/inet/common/PatternMatcher.cc:323-324 | "**" and a literal at the end: comparing endings is enough |
| GlobPatterns.LastLiteralEndsLine | inetmanet-3.x/src/inet/common/PatternMatcher.cc:368-378 | whatever is accepted ends in the last literal |
| GlobPatterns.MatchesSomewhere | inetmanet-3.x/src/inet/common/PatternMatcher.cc:98-106 | substring mode accepts exactly the lines in which the elements can be placed somewhere |
| GlobFolding.TailShortcut | inetmanet-3.x/src/inet/common/PatternMatcher.cc:323-324 | comparing endings letter by letter, as this shortcut does in both modes, decides exactly what is accepted there |
| GlobFolding.CaseIgnoredExactly | inetmanet-3.x/src/inet/common/PatternMatcher.cc:258-356 | the case-insensitive mode treats lines alike that differ in case only, if and only if the pattern does not end in "**" and a literal with a letter (or accepts nothing at all) |
| GlobFolding.CaseIgnoredSimply | inetmanet-3.x/src/inet/common/PatternMatcher.cc:258-356 | for patterns without numeric ranges whose sets all hold a character, if and only if the pattern does not end in "**" and a literal with a letter |
| GlobFolding.TailMindsCase | inetmanet-3.x/src/inet/common/PatternMatcher.cc:29-34 | "**a" without case sensitivity accepts "a" and not "A" |
| GlobFolding.KeptMatching | inetmanet-3.x/src/inet/common/PatternMatcher.cc:136-140 | storing sets in upper case does not change what is accepted, for whole and for substring match |
| GlobFolding.ExactIsPlain | inetmanet-3.x/src/inet/common/PatternMatcher.cc:269-274 | with case sensitivity texts are compared as they are |
| GlobPatterns.ClosedRangeExactly | inetmanet-3.x/src/inet/common/PatternMatcher.cc:307-315 | with saturating `atol` a range n..m is honoured for every number if and only if m is below LONG_MAX |
| GlobPatterns.OpenRangeExactly | inetmanet-3.x/src/inet/common/PatternMatcher.cc:307-315 | a range n.. is honoured for every number if and only if n fits a long |
| GlobParsing.RangeParsed | inetmanet-3.x/src/inet/common/PatternMatcher.cc:164-191 | the text of a range with decimal bounds, either or both left out, parses to one range of the saturated bounds |
| GlobParsing.RangeExactly | inetmanet-3.x/src/inet/common/PatternMatcher.cc:164-191 | such a pattern accepts exactly the numbers it names if and only if its upper bound is below LONG_MAX or, without one, its lower bound is at most LONG_MAX |
| GlobParsing.OpenExactly | inetmanet-3.x/src/inet/common/PatternMatcher.cc:143-144 | the error of a missing brace is thrown if and only if a scan of the text, over escapes, numeric ranges and closed sets, finds a set left open |
| GlobParsing.PastEndExactly | inetmanet-3.x/src/inet/common/PatternMatcher.cc:148-162 | parsing reads past the end of the text if and only if the text ends in an odd number of backslashes and the scan finds no set left open; without an opening brace there is none |
| GlobParsing.LiteralTail | inetmanet-3.x/src/inet/common/PatternMatcher.cc:148-162 | a literal reads past the end exactly if an odd number of backslashes is left at its end; else it leaves the parity as it was |
| GlobParsing.TokensParsed | inetmanet-3.x/src/inet/common/PatternMatcher.cc:49-110 | parsing yields no END and only complete sets |
| GlobParsing.ComparingSuffices | inetmanet-3.x/src/inet/common/PatternMatcher.cc:410-415 | a text `containsWildcards` denies is one literal and matches nothing but itself |
| GlobParsing.QuotingWorks | inetmanet-3.x/src/inet/common/PatternMatcher.cc:148-162 | a text with a backslash before every character matches nothing but the text |
| GlobLaws.PatternMeans | inetmanet-3.x/src/inet/common/PatternMatcher.cc:49-110 | for every sequence of parts (plain and quoted texts, ?, *, **, sets and negated sets of characters and ranges, numeric ranges) written one after the other: the pattern accepts exactly the lines that are what the parts stand for, one after the other |
| GlobLaws.PatternMeansWithin | inetmanet-3.x/src/inet/common/PatternMatcher.cc:98-106 | substring match accepts exactly the lines some part of which is that |
| GlobLaws.PatternMeansFolded | inetmanet-3.x/src/inet/common/PatternMatcher.cc:258-356 | without case sensitivity, exactly the lines that are that in capital letters, and end in the very text that stands behind a last "**" |
| GlobLaws.PatternRead | inetmanet-3.x/src/inet/common/PatternMatcher.cc:49-110 | each part is read as its element, wherever it stands |
| GlobLaws.BehindText | inetmanet-3.x/src/inet/common/PatternMatcher.cc:49-146 | behind a text without wildcards, a part accepts exactly what it stands for |
| GlobLaws.QuestionMark | inetmanet-3.x/src/inet/common/PatternMatcher.cc:59-62 | "?" accepts exactly one character, in a dotted path other than a dot |
| GlobLaws.Asterisk | inetmanet-3.x/src/inet/common/PatternMatcher.cc:80-89 | "*" accepts anything, in a dotted path anything without dots |
| GlobLaws.DoubleAsterisk | inetmanet-3.x/src/inet/common/PatternMatcher.cc:80-84 | "**" accepts anything |
| GlobLaws.OneRange | inetmanet-3.x/src/inet/common/PatternMatcher.cc:112-146 | "{x-y}" accepts exactly one character from x to y, "{^x-y}" exactly one that is not |
| GlobLaws.BracketMeans | inetmanet-3.x/src/inet/common/PatternMatcher.cc:64-69 | "[n..m]" behind a text accepts the brackets with a number from n to m between |
| GlobLaws.SameExactly | inetmanet-3.x/src/inet/common/PatternMatcher.cc:269-274 | folding makes lines alike exactly if they differ in the case of letters a to z only |
| GlobLaws.NumberWeight | inetmanet-3.x/src/inet/common/PatternMatcher.cc:307-315 | a number is the decimal weight of its digits |
| GlobLaws.ExactMatch | inetmanet-3.x/src/inet/common/PatternMatcher.cc:258-356 | what the case-sensitive matcher decides of the stored pattern is what is said here of its text |
| PatternMatchers.PatternMatcher.ParseNumRange | inetmanet-3.x/src/inet/common/PatternMatcher.cc:164-191 | the bounds and the closing place of a numeric range, or none |
| PatternMatchers.PatternMatcher.ParseLiteralString | inetmanet-3.x/src/inet/common/PatternMatcher.cc:148-162 | text and end of a literal, escapes and bracketed ranges included |
| PatternMatchers.PatternMatcher.ParseSet | inetmanet-3.x/src/inet/common/PatternMatcher.cc:112-146 | the pairs of a set, in upper case without case sensitivity, or the error of a missing brace |
| PatternMatchers.PatternMatcher.ParseElem | inetmanet-3.x/src/inet/common/PatternMatcher.cc:58-94 | the next element for each leading character |
| PatternMatchers.PatternMatcher.SetPattern | inetmanet-3.x/src/inet/common/PatternMatcher.cc:49-110 | the pattern is the elements of the text, sets in upper case without case sensitivity, opened at both ends for substring match, and well formed; what texts mean is said by `GlobLaws`; the error cases are told apart |
| PatternMatchers.PatternMatcher.IsInSet | inetmanet-3.x/src/inet/common/PatternMatcher.cc:245-256 | scans the pairs: true exactly if one of the ranges holds the character, in upper case without case sensitivity |
| PatternMatchers.PatternMatcher.MatchOne | inetmanet-3.x/src/inet/common/PatternMatcher.cc:264-315 | a single element either takes its only possible piece or none, in both modes |
| PatternMatchers.PatternMatcher.MatchSingle | inetmanet-3.x/src/inet/common/PatternMatcher.cc:264-315 | so the rest is accepted if and only if there is such a piece and the rest after it is accepted |
| PatternMatchers.PatternMatcher.DoMatch | inetmanet-3.x/src/inet/common/PatternMatcher.cc:258-356 | true exactly if the rest of the line is accepted by the rest of the pattern, in both modes; terminates |
| PatternMatchers.PatternMatcher.MatchAny | inetmanet-3.x/src/inet/common/PatternMatcher.cc:327-333 | the backtracking of "**" misses no place |
| PatternMatchers.PatternMatcher.MatchCommon | inetmanet-3.x/src/inet/common/PatternMatcher.cc:336-344 | the backtracking of "*" misses no place before a dot |
| PatternMatchers.PatternMatcher.Matches | inetmanet-3.x/src/inet/common/PatternMatcher.cc:358-382 | true exactly if the pattern accepts the line: case folded in the case-insensitive mode, except for a literal behind a last "**"; the quick look at two characters changes nothing |
| MachoStates.KeptIs | inetmanet-3.x/src/inet/common/Macho.cc:156-173 | leaving stops at the deepest state both are in, the next one properly so |
| MachoStates.BaseIs | inetmanet-3.x/src/inet/common/Macho.cc:139-154 | entering starts below the deepest superstate the previous state is in |
| MachoStates.LeaveMeetsEnter | inetmanet-3.x/src/inet/common/Macho.cc:355-371 | the two are the same state although found from opposite ends |
| Macho.LeftExactly | inetmanet-3.x/src/inet/common/Macho.cc:156-173 | a transition leaves a state exactly if the old state is in it and the next is not, or it is the next state itself |
| Macho.EnteredExactly | inetmanet-3.x/src/inet/common/Macho.cc:139-154 | and it enters a state exactly if the next state is in it and the old one is not, or it is the next state itself |
| Macho.TargetEntered | inetmanet-3.x/src/inet/common/Macho.cc:139-173 | the target is always entered; a transition to the state itself or a superstate leaves it and enters it again |
| Macho.ActiveIsPath | inetmanet-3.x/src/inet/common/Macho.cc:139-173 | the states entered and not left are always one path of the tree |
| Macho.ActiveBalance | inetmanet-3.x/src/inet/common/Macho.cc:139-173 | a state is active exactly if its entry action was called once more than its exit action |
| Macho.Machine.Leave | inetmanet-3.x/src/inet/common/Macho.cc:156-173 | exit actions innermost first, of exactly the states not kept; boxes follow |
| Macho.Machine.Enter | inetmanet-3.x/src/inet/common/Macho.cc:139-154 | entry actions outermost first, of exactly the states not active |
| Macho.Machine.LeaveOne | inetmanet-3.x/src/inet/common/Macho.cc:163-171 | an exit is only called on the innermost active state, whose box exists; a box lives on only if shared or persistent |
| Macho.Machine.EnterOne | inetmanet-3.x/src/inet/common/Macho.h:911-915 | an entry is only called when exactly the superstates are active; the box exists afterwards |
| Macho.Machine.SetHistorySuper | inetmanet-3.x/src/inet/common/Macho.h:731-737 | every superstate remembers what its strategy says: its direct substate, the current state, or nothing new |
| Macho.Machine.SaveHistory | inetmanet-3.x/src/inet/common/Macho.h:273-295 | passing history on only below superstates that keep one loses nothing |
| Macho.Machine.HistoriesKept | inetmanet-3.x/src/inet/common/Macho.h:725-737 | stored histories stay proper substates, direct ones for shallow history |
| Macho.SavedExactly | inetmanet-3.x/src/inet/common/Macho.h:723-745 | leaving a state stores it in its superstates with deep history, the substate on the way to it in those with shallow history, and nothing elsewhere |
| Macho.Machine.ClearHistory | inetmanet-3.x/src/inet/common/Macho.h:2110-2116 | forgets the history of one state; the others keep theirs |
| Macho.Machine.ClearHistoryDeep | inetmanet-3.x/src/inet/common/Macho.cc:298-306 | forgets exactly the histories of the state and its substates |
| Macho.Machine.Transit | inetmanet-3.x/src/inet/common/Macho.cc:354-375 | one transition: exact exits, entries and histories; the active states are the new current state and its superstates |
| Macho.Machine.Init | inetmanet-3.x/src/inet/common/Macho.cc:175-187 | goes to the remembered state or calls the init action; the history is forgotten; the root asks for nothing |
| Macho.Machine.Round | inetmanet-3.x/src/inet/common/Macho.cc:345-394 | one step of a run, a transition and what follows it; refused exactly if the init action asks for anything but a proper substate |
| Macho.HistoryTaken | inetmanet-3.x/src/inet/common/Macho.cc:175-187 | such a step goes on to a remembered substate if and only if the transition was asked for with history and one is stored, by an earlier transition or by this one; else the init action is logged and its request comes next, nothing at the root |
| Macho.HistoryReturns | inetmanet-3.x/src/inet/common/Macho.cc:175-187 | going to a state with history, from outside it, leads through it into what it remembers |
| Macho.OneStep | inetmanet-3.x/src/inet/common/Macho.cc:339-403 | the state, what is pending, the histories and the scripts decide the next step |
| Macho.OneRun | inetmanet-3.x/src/inet/common/Macho.cc:339-403 | and so the whole run: what is said to be a run to its end is the only one |
| Macho.Machine.Descending | inetmanet-3.x/src/inet/common/Macho.cc:384-387 | each further transition of the inner loop goes strictly deeper |
| Macho.Machine.Settle | inetmanet-3.x/src/inet/common/Macho.cc:344-394 | the inner loop terminates in or below the target, for every init action allowed; what it did is a run of transitions and nothing else |
| Macho.Machine.RattleOn | inetmanet-3.x/src/inet/common/Macho.cc:339-403 | what it did is the run from the present moment to its end, transitions before events; all pending transitions and events are done, the active states again those of the current state, or an init action broke its rule |
| Macho.Machine.Start | inetmanet-3.x/src/inet/common/Macho.cc:248-266 | from the root into or below the start state: the whole run of that transition |
| Macho.Machine.Event | inetmanet-3.x/src/inet/common/Macho.h:1898-1917 | the run that one event begins: the first handler is called on the current state and consumed; if it asks for nothing, nothing else changes; if it asks for a transition, that is made next and, with no further event, the machine ends in or below its target; consistent after any event |
| Macho.Machine.Shutdown | inetmanet-3.x/src/inet/common/Macho.cc:268-278 | all active states are left, innermost first, and no state but persistent and shared ones has a box |
| Macho.Machine.LeavingAll | inetmanet-3.x/src/inet/common/Macho.cc:268-278 | going to the root leaves the whole path |
| XmacLayer.AnyMacXmacLayer.constructor | FanetSimSync/uavnet/linklayer/xmac/AnyMacXmacLayer.cc:55-140 | the layer starts in INIT with only its start message scheduled and an empty queue |
| XmacLayer.AnyMacXmacLayer.HandleSelfMessage | FanetSimSync/uavnet/linklayer/xmac/AnyMacXmacLayer.cc:316-1019 | in every run: it goes on exactly if the state expects the message; then it is in a state afterwards if and only if there is a reason to enter it, by queue, message and what is remembered (`Enters`); a station leaves the states of sending only outrun by a longer series or with its front packet sent and gone; attempts, frames sent, delivered and kept, the number of the next preamble and the senders remembered change exactly as stated; the queue changes only for its reasons, and the caller is the sender of the preamble that makes the station begin to answer, else as before; the layer is afterwards adrift, listening without a timer, if and only if the message is a stray preamble or it was adrift before and the message is neither a data frame nor a preamble naming it |
| XmacLayer.AnyMacXmacLayer.Fire | FanetSimSync/uavnet/linklayer/xmac/AnyMacXmacLayer.cc:316-1019 | the same for a message that is due; the start message, wakeup, cca, cca2 and data timeouts never end the run, the other two guards exactly in SEND_PREAMBLE_TX_END |
| XmacLayer.AnyMacXmacLayer.EntersExactly | FanetSimSync/uavnet/linklayer/xmac/AnyMacXmacLayer.cc:316-1019 | every expected message leads to exactly one state, the one there is a reason for: for sleeping, for beginning to send preambles and for each other state the conditions are listed |
| XmacLayer.AnyMacXmacLayer.WithState | FanetSimSync/uavnet/linklayer/xmac/AnyMacXmacLayer.cc:316-1019 | the state before, the attempts and the station to answer change with the state and only so |
| XmacLayer.AnyMacXmacLayer.SendingGoesOn | FanetSimSync/uavnet/linklayer/xmac/AnyMacXmacLayer.cc:614-765 | a station that has begun to send its front packet goes on until that is sent for the last time, or was outrun by a longer series |
| XmacLayer.AnyMacXmacLayer.StrobingLeadsOn | FanetSimSync/uavnet/linklayer/xmac/AnyMacXmacLayer.cc:941-1014 | the end of the preambles, and an answer to this station, lead to the states in which the packet is sent |
| XmacLayer.AnyMacXmacLayer.FrontGoesNext | FanetSimSync/uavnet/linklayer/xmac/AnyMacXmacLayer.cc:648-669 | there the next message expected sends the front packet, and the end of its transmission is awaited |
| XmacLayer.AnyMacXmacLayer.FramesExactly | FanetSimSync/uavnet/linklayer/xmac/AnyMacXmacLayer.cc:614-669 | what starts each frame, what it says and to whom it goes; nothing else is sent |
| XmacLayer.AnyMacXmacLayer.SentIsAwaited | FanetSimSync/uavnet/linklayer/xmac/AnyMacXmacLayer.cc:614-669 | after every frame the layer waits for the end of its transmission |
| XmacLayer.AnyMacXmacLayer.DeliveriesExactly | FanetSimSync/uavnet/linklayer/xmac/AnyMacXmacLayer.cc:813-823 | data goes up exactly while waiting for data, if it is for this station or for all; data that comes before is kept |
| XmacLayer.AnyMacXmacLayer.NeverStuck | FanetSimSync/uavnet/linklayer/xmac/AnyMacXmacLayer.cc:316-1019 | in every run: the state expects some message that is scheduled or that the radio brings about, if and only if the layer is not adrift |
| XmacLayer.AnyMacXmacLayer.ReactionsExactly | FanetSimSync/uavnet/linklayer/xmac/AnyMacXmacLayer.cc:1051-1098 | what the radio sets going is always expected: the frame about to be sent, or the end of one |
| XmacLayer.AnyMacXmacLayer.ReactionOf | FanetSimSync/uavnet/linklayer/xmac/AnyMacXmacLayer.cc:1051-1098 | which message that is, for each state |
| XmacStates.ExpectedExactly | FanetSimSync/uavnet/linklayer/xmac/AnyMacXmacLayer.cc:316-1019 | for each message, the states that know what to do with it |
| XmacStates.GuardsExpected | FanetSimSync/uavnet/linklayer/xmac/AnyMacXmacLayer.cc:638-647 | a guarding timer or the start message, when it can be due, adrift or not, is expected exactly unless it guards a preamble that is on the air |
| XmacLayer.AnyMacXmacLayer.HandleAgain | FanetSimSync/uavnet/linklayer/xmac/AnyMacXmacLayer.cc:460-469 | a data frame kept while assessing the channel is handled again like one from the radio, in all these respects |
| XmacLayer.AnyMacXmacLayer.HandleLowerPacket | FanetSimSync/uavnet/linklayer/xmac/AnyMacXmacLayer.cc:1025-1035 | a damaged frame changes nothing at all; others, in every run, do what is said of one message; adrift afterwards exactly by a stray preamble, or as before for a frame that does not end it |
| XmacLayer.AnyMacXmacLayer.BroadcastNeverStrays | FanetSimSync/uavnet/linklayer/xmac/AnyMacXmacLayer.cc:243-263 | preambles addressed to all, as this layer sends them, never stray |
| XmacLayer.AnyMacXmacLayer.NotePreamble | FanetSimSync/uavnet/linklayer/xmac/AnyMacXmacLayer.cc:317-324 | senders of preambles for this station or for all are remembered |
| XmacLayer.AnyMacXmacLayer.WhenSleep | FanetSimSync/uavnet/linklayer/xmac/AnyMacXmacLayer.cc:336-350 | waking up assesses the channel and forgets pending preambles, the next destination and the station to answer |
| XmacLayer.AnyMacXmacLayer.CcaTimedOut | FanetSimSync/uavnet/linklayer/xmac/AnyMacXmacLayer.cc:352-383 | sleeps with an empty queue, else sends preambles, or assesses once more after receiving data |
| XmacLayer.AnyMacXmacLayer.CcaPreamble | FanetSimSync/uavnet/linklayer/xmac/AnyMacXmacLayer.cc:386-456 | answers, competes, listens or sleeps, by protocol variant and whether the preamble names this station; only a competing station notes whom to answer |
| XmacLayer.AnyMacXmacLayer.DataAtOnce | FanetSimSync/uavnet/linklayer/xmac/AnyMacXmacLayer.cc:460-469 | data without its preamble, also while adrift: waits for data and keeps the frame, timers in step |
| XmacLayer.AnyMacXmacLayer.CcaLostPreamble | FanetSimSync/uavnet/linklayer/xmac/AnyMacXmacLayer.cc:498-516 | a preamble naming this station starts the competition for the answer, also while adrift; another changes nothing |
| XmacLayer.AnyMacXmacLayer.Compete | FanetSimSync/uavnet/linklayer/xmac/AnyMacXmacLayer.cc:417-422 | the competition: the sender is noted as the station to answer, timers in step |
| XmacLayer.AnyMacXmacLayer.CompeteLate | FanetSimSync/uavnet/linklayer/xmac/AnyMacXmacLayer.cc:780-788 | the same while waiting for data, whose timeout stays scheduled |
| XmacLayer.AnyMacXmacLayer.Lose | FanetSimSync/uavnet/linklayer/xmac/AnyMacXmacLayer.cc:425-426 | a preamble for others: listening goes on with its timer |
| XmacLayer.AnyMacXmacLayer.GiveWay | FanetSimSync/uavnet/linklayer/xmac/AnyMacXmacLayer.cc:555-567 | another station answered: both timers are cancelled and the node sleeps |
| XmacLayer.AnyMacXmacLayer.Cca2Data | FanetSimSync/uavnet/linklayer/xmac/AnyMacXmacLayer.cc:579-589 | data while competing: the data timeout is scheduled only if it is not |
| XmacLayer.AnyMacXmacLayer.WhenSendPreamble | FanetSimSync/uavnet/linklayer/xmac/AnyMacXmacLayer.cc:614-637 | the preamble names the destinations of the front packet, carries the number reached so far, and the number goes up by one |
| XmacLayer.AnyMacXmacLayer.Strobe | FanetSimSync/uavnet/linklayer/xmac/AnyMacXmacLayer.cc:616-628 | one preamble: content, number and the timer for its answer |
| XmacLayer.AnyMacXmacLayer.StopStrobing | FanetSimSync/uavnet/linklayer/xmac/AnyMacXmacLayer.cc:630-636 | the series ends and the data follows as the first attempt |
| XmacLayer.AnyMacXmacLayer.WhenSendData | FanetSimSync/uavnet/linklayer/xmac/AnyMacXmacLayer.cc:648-669 | the front packet goes down, its destination and its transmission are noted |
| XmacLayer.AnyMacXmacLayer.Unconfirmed | FanetSimSync/uavnet/linklayer/xmac/AnyMacXmacLayer.cc:680-694 | without acknowledgements or for a broadcast the front leaves once it was sent |
| XmacLayer.AnyMacXmacLayer.AckTimedOut | FanetSimSync/uavnet/linklayer/xmac/AnyMacXmacLayer.cc:699-730 | a new series of preambles while attempts last, else the front leaves |
| XmacLayer.AnyMacXmacLayer.TryAgain | FanetSimSync/uavnet/linklayer/xmac/AnyMacXmacLayer.cc:701-709 | one more attempt with the same front packet |
| XmacLayer.AnyMacXmacLayer.GiveUp | FanetSimSync/uavnet/linklayer/xmac/AnyMacXmacLayer.cc:710-728 | the front leaves unacknowledged and is counted as missed |
| XmacLayer.AnyMacXmacLayer.Acknowledged | FanetSimSync/uavnet/linklayer/xmac/AnyMacXmacLayer.cc:738-765 | the front leaves for an acknowledgement from its own destination |
| XmacLayer.AnyMacXmacLayer.ReceiveData | FanetSimSync/uavnet/linklayer/xmac/AnyMacXmacLayer.cc:813-868 | what goes up, which sender is no longer pending, and which state follows |
| XmacLayer.AnyMacXmacLayer.EndReception | FanetSimSync/uavnet/linklayer/xmac/AnyMacXmacLayer.cc:831-866 | an acknowledgement is due only for the frame just delivered, to its sender |
| XmacLayer.AnyMacXmacLayer.OweAck | FanetSimSync/uavnet/linklayer/xmac/AnyMacXmacLayer.cc:832-839 | such an acknowledgement comes next, addressed to the sender of the frame |
| XmacLayer.AnyMacXmacLayer.Rest | FanetSimSync/uavnet/linklayer/xmac/AnyMacXmacLayer.cc:841-855 | without pending senders the station sleeps |
| XmacLayer.AnyMacXmacLayer.ListenOn | FanetSimSync/uavnet/linklayer/xmac/AnyMacXmacLayer.cc:856-865 | otherwise it assesses the channel again and forgets whom to answer |
| XmacLayer.AnyMacXmacLayer.LostRace | FanetSimSync/uavnet/linklayer/xmac/AnyMacXmacLayer.cc:954-986 | a newer series of another station: the layer is adrift afterwards exactly for a preamble addressed to one other station |
| XmacLayer.AnyMacXmacLayer.LoseTouch | FanetSimSync/uavnet/linklayer/xmac/AnyMacXmacLayer.cc:960-966 | a newer preamble addressed to another station: listening, without a timer |
| XmacLayer.AnyMacXmacLayer.AnswerInstead | FanetSimSync/uavnet/linklayer/xmac/AnyMacXmacLayer.cc:969-975 | one addressed to this station: it is answered, to nobody in particular |
| XmacLayer.AnyMacXmacLayer.ListenInstead | FanetSimSync/uavnet/linklayer/xmac/AnyMacXmacLayer.cc:976-982 | one addressed to all: waiting for data |
| XmacLayer.AnyMacXmacLayer.Answered | FanetSimSync/uavnet/linklayer/xmac/AnyMacXmacLayer.cc:993-1014 | an answer to this station ends the preambles and goes on to the data |
| XmacLayer.AnyMacXmacLayer.AnswerReachesCaller | FanetSimSync/uavnet/linklayer/xmac/AnyMacXmacLayer.cc:910-919 | in every run: an ACK2 is addressed to the caller, the sender of the preamble it answers, if and only if the station competed for the answer (CCA2) or that sender has no address; one sent at once in the `xmac` variant or after a lost race is addressed to nobody |
| XmacLayer.AnyMacXmacLayer.HandleUpperPacket | FanetSimSync/uavnet/linklayer/xmac/AnyMacXmacLayer.cc:230-241 | accepted exactly if the queue has room; state and timers unchanged |
| XmacLayer.AnyMacXmacLayer.AddToQueue | FanetSimSync/uavnet/linklayer/xmac/AnyMacXmacLayer.cc:1105-1122 | appends the packet or counts it as dropped |
| XmacLayer.AnyMacXmacLayer.ReceiveSignal | FanetSimSync/uavnet/linklayer/xmac/AnyMacXmacLayer.cc:1051-1098 | schedules the reaction of the state; ends the run exactly if that is scheduled already; adrift or not as before |
| XmacLayer.AnyMacXmacLayer.FirstInFirstOut | FanetSimSync/uavnet/linklayer/xmac/AnyMacXmacLayer.cc:614-765 | in every run, also while adrift: packets accepted are the packets removed, in their order, then the queue; every removed one was sent before |
| XmacStates.Rescheduled | FanetSimSync/uavnet/linklayer/xmac/AnyMacXmacLayer.cc:767-881 | leaving WAIT_DATA and WAIT_ACK keeps timers and state in step |
| XmacStates.RescheduledMore | FanetSimSync/uavnet/linklayer/xmac/AnyMacXmacLayer.cc:460-467 | so do the other changes of state that reschedule; leaving CCA and CCA_LOST for data or the competition even brings a layer adrift back in step |
| XmacStates.Stopped | FanetSimSync/uavnet/linklayer/xmac/AnyMacXmacLayer.cc:630-636 | so does the end of a series of preambles |
| XmacStates.Unanswered | FanetSimSync/uavnet/linklayer/xmac/AnyMacXmacLayer.cc:699-728 | so does an acknowledgement that fails to come |
| XmacStates.GivenUp | FanetSimSync/uavnet/linklayer/xmac/AnyMacXmacLayer.cc:954-1014 | giving up one's own preambles keeps them in step, but towards CCA_LOST it always leaves the layer adrift |
| Reassembly.RunHolds | inetmanet-3.x/src/inet/common/ReassemblyBuffer.cc:47-116 | in every run over ranges, overlapping or not: the main region is a chain of fragments received, each beginning where the one before ends, and what is set aside lies beyond its end or straddles it |
| Reassembly.PrefixExactly | inetmanet-3.x/src/inet/common/ReassemblyBuffer.cc:47-116 | for every collection of ranges: the main region is the longest prefix received, however they arrive, if and only if no fragment of the collection straddles the end of a chain of its fragments |
| Reassembly.AnswerExactly | inetmanet-3.x/src/inet/common/ReassemblyBuffer.cc:39-45 | for every collection of ranges: the answer is right, however they arrive, if and only if no chain of fragments other than the last ends where the datagram would be complete without the fragments that carry the chain on |
| Reassembly.LastIsSound | inetmanet-3.x/src/inet/common/ReassemblyBuffer.cc:39-45 | for ranges in any order, overlapping or not: the answer yes is right |
| Reassembly.MissingIsStalled | inetmanet-3.x/src/inet/common/ReassemblyBuffer.cc:39-45 | a run that wrongly answers no has left such a chain behind, and a fragment that straddles its end or the last one inside it |
| Reassembly.StalledRun | inetmanet-3.x/src/inet/common/ReassemblyBuffer.cc:47-77 | the run that goes wrong: the chain in its order, then the other fragments |
| Reassembly.StraddlerLost | inetmanet-3.x/src/inet/common/ReassemblyBuffer.cc:73-76 | a chain in its order and then a fragment that straddles its end: the fragment changes nothing, its bytes are lost |
| Reassembly.OverlapIsLost | inetmanet-3.x/src/inet/common/ReassemblyBuffer.cc:47-77 | [0, 10) and then the last fragment [5, 20): all bytes have arrived, the answer is no |
| Reassembly.DatagramMeets | inetmanet-3.x/src/inet/common/ReassemblyBuffer.cc:73-76 | fragments of one datagram straddle no end of a chain |
| Reassembly.DatagramGoesOn | inetmanet-3.x/src/inet/common/ReassemblyBuffer.cc:73-76 | and no chain of them stalls |
| Reassembly.InsideIsThere | inetmanet-3.x/src/inet/common/ReassemblyBuffer.cc:73-76 | of one datagram, a fragment that starts before the end of a chain is already there |
| Reassembly.Extended | inetmanet-3.x/src/inet/common/ReassemblyBuffer.cc:86-94 | joining a fragment keeps the state of the buffer |
| Reassembly.Dropped | inetmanet-3.x/src/inet/common/ReassemblyBuffer.cc:99-102 | passing over a fragment that begins inside the main region keeps it |
| Reassembly.MainIsPrefix | inetmanet-3.x/src/inet/common/ReassemblyBuffer.cc:47-116 | of one datagram, the main region is the longest prefix received |
| Reassembly.LastIsComplete | inetmanet-3.x/src/inet/common/ReassemblyBuffer.cc:39-45 | of one datagram, the answer says exactly whether everything up to the end of the last fragment has arrived |
| Reassembly.OrderIrrelevant | inetmanet-3.x/src/inet/common/ReassemblyBuffer.cc:39-116 | order of arrival and repetitions do not matter |
| Reassembly.ReassemblyBuffer.AddFragment | inetmanet-3.x/src/inet/common/ReassemblyBuffer.cc:39-45 | for every fragment; of ranges, true is only returned when the datagram is complete, the main region has arrived, and a fragment beginning inside it changes nothing; for the collections of `PrefixExactly` and `AnswerExactly`, those of one datagram among them, the region is the longest prefix and the answer is right |
| Reassembly.ReassemblyBuffer.Merge | inetmanet-3.x/src/inet/common/ReassemblyBuffer.cc:47-77 | the buffer is what `Run` computes of the fragments received, whatever they are |
| Reassembly.MergedHolds | inetmanet-3.x/src/inet/common/ReassemblyBuffer.cc:79-116 | the passes keep the state and leave nothing aside that begins where the main region ends or lies in it |
| Reassembly.ReassemblyBuffer.MergeFragments | inetmanet-3.x/src/inet/common/ReassemblyBuffer.cc:79-116 | the loop terminates and computes those passes |
| ByteQueues.FlatAppend | inetmanet-3.x/src/inet/common/ByteArrayBuffer.cc:40-52 | chunks one after the other are their bytes one after the other |
| ByteQueues.SliceNext | inetmanet-3.x/src/inet/common/ByteArrayBuffer.cc:59-69 | a read that is not full goes on in the next chunk at what is left of the offset |
| ByteQueues.ClampedExactly | inetmanet-3.x/src/inet/common/ByteArray.cc:74-80 | the 32-bit sum clamps a read rightly if and only if it does not wrap to at most the size |
| ByteQueues.WrappedRead | inetmanet-3.x/src/inet/common/ByteArray.cc:74-80 | of four bytes from offset 1, a read of 2^32-1 bytes is not clamped to three |
| ByteQueues.ReadFitsFrom | inetmanet-3.x/src/inet/common/ByteArrayBuffer.cc:54-71 | whether a read wraps is decided behind the chunks that lie before its offset |
| ByteQueues.FrontFits | inetmanet-3.x/src/inet/common/ByteArrayBuffer.cc:73-76 | a read from offset 0 never wraps |
| ByteArrayBuffers.ByteArray.CopyDataToBuffer | inetmanet-3.x/src/inet/common/ByteArray.cc:72-81 | copies the slice, nothing else changes; beyond the data, and reported so, are exactly the reads whose 32-bit sum wraps to at most the size |
| ByteArrayBuffers.ByteArray.TruncateData | inetmanet-3.x/src/inet/common/ByteArray.cc:90-105 | cuts exactly the given numbers of bytes off both ends |
| ByteArrayBuffers.ByteArrayBuffer.Push | inetmanet-3.x/src/inet/common/ByteArrayBuffer.cc:46-52 | appends the bytes as a chunk of its own; bytes removed followed by the contents stay the bytes pushed, in every run |
| ByteArrayBuffers.ByteArrayBuffer.GetBytesToBuffer | inetmanet-3.x/src/inet/common/ByteArrayBuffer.cc:54-71 | reads the slice at the offset across chunks, empty ones included, and changes neither queue nor the rest of the target; beyond the data, and reported so, are exactly the reads that wrap in the chunk of the offset |
| ByteArrayBuffers.ByteArrayBuffer.PopBytesToBuffer | inetmanet-3.x/src/inet/common/ByteArrayBuffer.cc:73-76 | moves the first bytes out; they are the next of those pushed |
| ByteArrayBuffers.ByteArrayBuffer.Drop | inetmanet-3.x/src/inet/common/ByteArrayBuffer.cc:78-100 | removes exactly the given number of bytes, the next of those pushed, and keeps the length right |
| ByteArrayBuffers.ByteArrayBuffer.PopChunk | inetmanet-3.x/src/inet/common/ByteArrayBuffer.cc:87-91 | a whole chunk leaves at the front |
| ByteArrayBuffers.ByteArrayBuffer.CutChunk | inetmanet-3.x/src/inet/common/ByteArrayBuffer.cc:92-97 | the front of the first chunk leaves, no other chunk changes |
| ByteArrayBuffers.ByteArrayBuffer.Clear | inetmanet-3.x/src/inet/common/ByteArrayBuffer.cc:102-109 | empties the queue; the bytes held count as removed |

## Left out

- Int128s.Int128.Div: asks for a divisor other than INT128_MIN, because with it the code never returns (`DivisionByMinNeverReturns`).
- Int128s.Int128.DivAssign: the same divisor is excluded.
- Int128s.Int128.ModAssign: the same divisor is excluded.
- Int128s.Int128.Set: texts hold no NUL character, as C strings do not.
- Int128: conversions from and to floating point, assignment from negative integers, the bitwise operators on whole numbers; signed overflow of a half is taken to wrap.
- IntervalTrees.IntervalTree.DeleteInterval: what deleting the root sentinel does to the tree, after a null pointer was asked for.
- IntervalTrees.IntervalTree.Insert: a new node's links start at the nil sentinel instead of the null pointer; the code overwrites them before reading them.
- Interval tree: freeing nodes and the intervals they own, printing; a deleted node only leaves the set of nodes. The stack of the query is a sequence whose length is the allocated size.
- Topologies.Topology.CalculateUnweightedSingleShortestPathsTo: both searches ask for a consistent graph and a target in it, as Topology.h does ("the given graph node"); the code clears the labels of no other node.
- Topologies.Topology.AddLink: after a failed assertion nothing is claimed of the stale ends outside the graph; a null end is not modelled.
- Topologies.Topology.CalculateWeightedSingleShortestPathsTo: rounding of doubles and NaN are left out; when an assertion fails nothing is claimed of the labels.
- Topology: extraction from a network, gates and modules (their ids are parameters), deleting objects.
- PatternMatchers.PatternMatcher.SetPattern: characters compare by code, not as signed bytes, and only the letters of ASCII have case.
- Pattern matcher: `patternPrefixMatches`, the debug text.
- Macho: parametrised initializers, aliases and boxes handed in by the caller, snapshots, lazy creation of state instances (all exist from the start), contents of boxes; event objects are reduced to whether one is pending.
- Macho.Machine.RattleOn: the user's handlers are finite scripts, so an endless exchange of events is covered only up to each finite prefix.
- X-MAC: durations and random numbers (only which message is due next), radio modes and the channel, display, packet contents beyond addresses, kinds and preamble numbers, 32-bit wrap of the preamble counter, null casts of frames of other types. Whether a finished transmission triggers `receiveSignal` is left open, because `transmissionState` is never written.
- X-MAC statistics: counters other than those of data frames sent, attempts and dropped packets are kept, but little is claimed of them.
- XmacLayer.AnyMacXmacLayer.HandleSelfMessage: the number of sending attempts is not bounded, because the attempt counter is reset with every series of preambles.
- Reassembly.ReassemblyBuffer.AddFragment: of fragments that end before they begin only what `Run` computes is said.
- ByteArrayBuffers.ByteArray.CopyDataToBuffer: what a copy beyond the data does, which the code makes where the 32-bit sum wraps.
- Byte arrays: `copyDataFromBuffer` and the other operations the queue does not use; the 64-bit length is taken as unbounded.
- `dijktraKShortest`, `WirelessNumHops` and the modules that only glue, configure or display.
