# Isolario core, modelled and verified in Dafny

The Isolario library handles BGP routing data: it indexes IP prefixes, reads and
writes BGP UPDATE messages, rebuilds them from MRT dumps, filters them with a
small virtual machine, and has its own thread pool, 128-bit integers and JSON
reader and writer. This project models those parts and proves what the rest of
the library relies on. Where the source changes things step by step, so does
the model: classes with the fields of the C structures, loops over buffers and
stacks. Each such method is proved against a function or a predicate about
values, and the main results are theorems about those.

`dafny verify dfyconfig.toml` checks everything.

## What the files are about

**Prefix trie.** `Netaddr` has addresses, bits and the word-wise search for the
first differing bit. `PatriciaShape` says what a well-formed trie in memory is:
nodes live in one growing memory of cells, a ghost map gives the bits each live
cell stands for, and glue cells, which carry no address, have two children.
`PatriciaTrie` is `patinsertn`, `patsearchexactn` and `patremoven`, all branches
of them. `PatriciaQueries`, `PatriciaWalk` and `PatriciaCoverage` are the
queries, the iterator and the address count; `PatriciaRuns` is about whole runs,
`PatriciaAgree` holds the searches and queries against each other. Two branches
of the source do not do what its interface promises, and the model keeps them as
they are:

- Inserting a prefix that properly contains a stored one without being stored
  itself leaves a trie in which it cannot be found (a glue node is returned as
  if it were the prefix, or a glue node with the prefix's own length is put
  above it; the branch meant for the second case repeats the condition of the
  one before it, so it is never taken). `InsertN` shows that a search misses the
  inserted prefix if and only if this is the case; otherwise the trie is well
  formed and holds exactly one prefix more. `LoseTenSlashEight` inserts
  10.0.0.0/9 and then 10.0.0.0/8, which is lost.
- Removing a prefix with stored prefixes on both sides below it puts its node on
  the free list and leaves it in the trie. `RemoveN` shows that the memory stops
  being a well-formed trie, for any reading of it, if and only if this is the
  case. `BreakTenSlashEight` removes 10.0.0.0/8 from above its two halves.

**UPDATE messages** (section 4.3 of RFC 4271, section 3 of RFC 7911). `BgpWire`
has the encodings, `WireOctets` says what they are octet by octet, `BgpWriter`
is an abstract machine whose state is three lists and a session, `BgpMsg` the
message in its 4096 octet buffer with the tail that is saved and put back,
`BgpRuns` whole runs. `BgpAttribs` and `BgpMsg.Seek` are the table of attribute
offsets that is filled while reading, and `BgpSeeks` is about seeks and reads in
any order on one message. A repeated attribute makes the table remember the last
one met, where a scan finds the first: `SeeksAreScans` shows that every seek in
every interleaving is a scan if and only if the attribute is there at most once,
and `LaterRepeatWins` writes a message with two ORIGINs, reads both, and then
seeks.

**AS paths** (section 4.2.3 of RFC 6793). `AsPath` is the iterator that merges
AS_PATH and AS4_PATH. Counting gives an empty SET one hop and iterating none, so
merging keeps the hops of AS_PATH if and only if the path it ends in has no
empty SET: `RealPathKeepsHops`, with an input in `EmptySetHidesAs4`.
`MessagePath` goes from a finished message over the lookups and the merged
iteration to the answer of a filter test. **MRT** (section 4.3.4 of RFC 6396).
`MrtRoute` says what becomes of each attribute of a RIB entry, `MrtRebuild`
writes the UPDATE, and `MrtMeaning` joins the two: what a scan or a seek finds
in the UPDATE means what the entry meant.

**Thread pool.** `PoolSystem` is the pool as atomic steps of workers and a
dispatcher, in any interleaving and with wakeups for no reason; `Pool` does the
same steps on the circular list of job cells and is shown to refine it. With no
worker at all joining returns with jobs never handled, as in
`NoWorkersNothingHandled`; `JoinedMeansHandled` says that this is the only
exception.

**Packet filter.** `FilterCode` has instructions, blocks and extended operands,
`FilterWords` says what each instruction word does by its octets, `FilterVm` the
machine and what structured filters mean, `AspMatch` the AS path patterns. The
instructions that look at the packet are a parameter: each either replaces the
stack or stops the machine. What is proved of blocks and decisions holds
whatever they do. Any run of instructions may be a test of a filter if, from the
stack it is started on, it leaves one value on that stack; in a decision list
this is the empty stack, so the tests that pop all of it are among them, as
`PathTestIsValid` shows for those of the AS path. CFAIL is modelled as coded: a
true top becomes 0 and decides.

**128-bit numbers.** `U128` and `U128Shift` are the portable arithmetic,
`NumberText` conversion from and to text, `NumberReads` what is read of spaces,
signs, marks of the base and digits, and the form of what is printed. `stou128`
takes a number that got smaller for the sign of overflow, which not every
overflow shows: `OverflowMissed` is one that does not, `ExactOutcome` says for
all digits what is returned and when overflow is reported.

**JSON.** `JsonText` is the encoder, `JsonParse` the pull parser, `JsonGrammar` says which
texts it accepts, which it calls incomplete and which it refuses,
`JsonRoundTrip` what parsing gives for an encoded tree, `JsonMeaning` what the
text keeps of the tree, and `JsonDecode` decodes strings by section 7 of RFC
8259 and builds the tree again from the tokens. The scan for the closing quote
looks one character back only, so a string that ends in a backslash does not end
where it was written to end: `StringReadsBack` has both directions,
`BackslashRunsOn` an input. The first element of an array may be a comma or a
colon, as in `LoneComma`. A vertical tab is escaped as if it were a newline, so
`TabIsLost` has two trees with one text; `TextDeterminesTree` shows that nothing
else is lost.

`Wrappers.dfy` has what the modules share.

## Model

| member | source | states |
|---|---|---|
| Netaddr.CompWithMaskIsPrefixEquality | src/patriciatrie.c:172-183 | whole octets and one masked octet compare equal if and only if the first `mask` bits do |
| Netaddr.DifferBit | src/patriciatrie.c:243-259 | the loop over 32-bit words stops at the first bit in which two addresses differ, or at the cap, and everything before it agrees |
| Netaddr.MasksAreShifts | src/patriciatrie.c:176 | the masks used on octets are the shifts of the source, for every distance |
| PatriciaShape.Descend | src/patriciatrie.c:354-359 | from a live cell the bits of any live prefix below it lead to a child still above or at that prefix |
| PatriciaShape.SameKey | src/patriciatrie.c:267-276 | no two live cells, glue or not, stand for the same bits |
| PatriciaShape.NoneBetween | src/patriciatrie.c:354-359 | nothing live lies strictly between a cell and its child, which is what makes a descent exhaustive |
| PatriciaShape.AddLeaf | src/patriciatrie.c:285-294 | hanging a new leaf on an empty side keeps every invariant of the trie: growing lengths, agreement below each cell, parent links, two children under glue |
| PatriciaShape.SpliceGlue | src/patriciatrie.c:308-332 | putting a glue cell with the new leaf and the old subtree under it between a cell and its parent keeps every invariant |
| PatriciaShape.DropLeaf | src/patriciatrie.c:434-448 | unhooking a leaf from a parent that is not glue keeps every invariant |
| PatriciaShape.CutOutOk | src/patriciatrie.c:450-479 | replacing a cell by its only remaining child, with or without the leaf beside it, keeps every invariant |
| PatriciaShape.ForkIsTwoChildren | src/patriciatrie.c:425 | a stored prefix's node has two children exactly when prefixes are stored on both sides below it |
| PatriciaShape.StoredIsHit | src/patriciatrie.c:347-368 | in a well-formed trie no exact search for a stored prefix can end without a hit |
| PatriciaShape.WalksAgree | src/patriciatrie.c:354-359 | any two searches for a prefix in the same memory end in the same place, well formed or not |
| PatriciaTrie.Trie.constructor | src/patriciatrie.c:140-147 | an empty well-formed trie of the family's width |
| PatriciaTrie.Trie.AllocPage | src/patriciatrie.c:102-117 | a page of 128 fresh cells joins the free list, live cells untouched, free list and live cells still disjoint and together everything |
| PatriciaTrie.Trie.GetFreeNode | src/patriciatrie.c:119-131 | the cell handed out was not live, and the free list loses exactly it |
| PatriciaTrie.Trie.PutFreeNode | src/patriciatrie.c:133-138 | the cell goes to the front of the free list; of all memory only its overlaid prefix and link may change |
| PatriciaTrie.Trie.DescendToward | src/patriciatrie.c:208-217 | the descent reaches a real node, without the wanted child when it is shorter, below which any live cell under the new prefix lies |
| PatriciaTrie.Trie.Climb | src/patriciatrie.c:261-265 | climbing stops at the highest node that is not shorter than the first differing bit |
| PatriciaTrie.InsertCases | src/patriciatrie.c:267-296 | which outcome of insertion the descent, the differing bit and the climb lead to, for every trie and prefix |
| PatriciaTrie.SupernetIsUnseen | src/patriciatrie.c:296-332 | reaching the splice with the prefix's own length means it properly contains a stored prefix and is not stored |
| PatriciaTrie.GlueIsUnseen | src/patriciatrie.c:268-269 | the early return of a glue node means the same, and an exact search misses the prefix afterwards |
| PatriciaTrie.Trie.InsertN | src/patriciatrie.c:185-336 | unless the prefix is an unseen supernet the trie stays well formed, holds one prefix more and keeps all others with their payloads, and the flag says whether it was new; a search misses it afterwards if and only if it was an unseen supernet |
| PatriciaTrie.Trie.SearchExactN | src/patriciatrie.c:347-368 | the node that holds the prefix if it is stored, NULL if and only if it is not |
| PatriciaTrie.Trie.RemoveN | src/patriciatrie.c:414-480 | returns the payload and, unless prefixes are stored on both sides below, removes exactly that prefix, collapsing a glue parent; the memory stops being a well-formed trie if and only if they are |
| PatriciaQueries.SearchBestN | src/patriciatrie.c:379-403 | the longest stored prefix that properly contains the given one, NULL when there is none |
| PatriciaQueries.IsSubnetOfN | src/patriciatrie.c:535-547 | true exactly when some stored prefix contains the given one; of a prefix longer than the addresses of the trie only those shorter than the addresses are seen |
| PatriciaQueries.IsSupernetOfN | src/patriciatrie.c:628-664 | true exactly when the given prefix contains some stored one |
| PatriciaQueries.GetSupernetsOfN | src/patriciatrie.c:491-524 | all stored prefixes that contain the given one, itself included, in increasing length, NULL last, within bitlen + 2 slots; of a prefix longer than the addresses of the trie those shorter than the addresses |
| PatriciaAgree.AskAll | src/patriciatrie.c:347-664 | on any trie the answers about one prefix agree: the list of supernets gets longer and ends in the node an exact search finds, the best match is the last before it, there is a list exactly when the prefix is a subnet, and a prefix that is found is a supernet |
| PatriciaAgree.OrderInOctets | src/patriciatrie.c:903-920 | of two prefixes in the order of the walk the first contains the second or is smaller at the first octet in which they differ |
| PatriciaWalk.MoveKeeps | src/patriciatrie.c:903-920 | one move visits exactly the current cell and keeps what is on the stack in order |
| PatriciaWalk.StackDepth | src/patriciatrie.c:903-920 | the stack never holds more than the current prefix has bits, so 129 slots are enough |
| PatriciaWalk.InOrder | src/patriciatrie.c:903-920 | everything still to come is after the current cell in address order, a prefix before its subnets |
| PatriciaWalk.Iterator.MoveNext | src/patriciatrie.c:903-920 | takes exactly the current cell off what is to come, inside the stack |
| PatriciaWalk.Iterator.SkipGlue | src/patriciatrie.c:922-926 | never passes a stored prefix and stops at a real node or the end |
| PatriciaWalk.Iterator.constructor | src/patriciatrie.c:928-933 | a fresh iterator has every stored prefix ahead of it |
| PatriciaWalk.Iterator.Get | src/patriciatrie.c:935-938 | the current node holds the first of the prefixes ahead |
| PatriciaWalk.Iterator.Next | src/patriciatrie.c:940-944 | exactly the current prefix is no longer ahead |
| PatriciaWalk.Iterator.End | src/patriciatrie.c:946-949 | true exactly when nothing is ahead |
| PatriciaWalk.Enumerate | src/patriciatrie.c:903-949 | from start to end every stored prefix comes up once, in address order, glue never |
| PatriciaCoverage.AddressesAre | src/patriciatrie.c:795-829 | the addresses counted for a prefix are those of full width that start with it |
| PatriciaCoverage.CountSplit | src/patriciatrie.c:795-829 | what is covered under a prefix is what is covered under its two halves |
| PatriciaCoverage.CountGap | src/patriciatrie.c:795-829 | bits skipped by path compression hide no covered address |
| PatriciaCoverage.CountOfOne | src/patriciatrie.c:795-829 | one prefix covers two to the number of bits it leaves, the default route nothing, alone or beside others; the addresses covered are those of full length of which some other prefix is the beginning |
| PatriciaCoverage.Coverage | src/patriciatrie.c:795-829 | the number of addresses matched by some stored prefix other than the default route, nested ones counted once, modulo 2^128; the walk stays inside its stack |
| PatriciaRuns.Step | src/patriciatrie.c:185-480 | one allowed insertion or removal keeps the trie well formed and changes its set accordingly |
| PatriciaRuns.Replay | src/patriciatrie.c:185-480 | after any run of allowed insertions and removals the trie is well formed and holds the set the run describes |
| PatriciaRuns.ReplayAndSearch | src/patriciatrie.c:347-368 | after any such run a search finds a prefix exactly when the set has it |
| PatriciaRuns.InsertSupernet | src/patriciatrie.c:267-332 | inserting any prefix into a trie that holds only a longer one within it loses it |
| PatriciaRuns.LoseTenSlashEight | src/patriciatrie.c:267-332 | an input that reaches the failing branch of insertion: 10.0.0.0/9, then 10.0.0.0/8, which an exact search misses |
| PatriciaRuns.RemoveForked | src/patriciatrie.c:425-429 | removing any prefix that has one stored on each side below it leaves memory that is no trie |
| PatriciaRuns.BreakTenSlashEight | src/patriciatrie.c:425-429 | an input that reaches the failing branch of removal: 10.0.0.0/8 above 10.0.0.0/9 and 10.128.0.0/9 |
| U128.AddIsModular | include/isolario/u128_t.h:137-152 | the portable addition with its carry test is addition modulo 2^128 |
| U128.NegIsModular | include/isolario/u128_t.h:180-191 | negation is the additive inverse modulo 2^128 |
| U128.CmpIsOrder | include/isolario/u128_t.h:420-434 | comparing halves is comparing numbers |
| U128.Accumulate | src/u128_t.c:142-169 | the rows added into four accumulators give the digit products at their places modulo 2^128; no accumulator overflows |
| U128.Combine | src/u128_t.c:160-169 | the accumulators shifted to their places and added give their weighted sum modulo 2^128 |
| U128.Schoolbook | src/u128_t.c:135-158 | the ten products kept differ from the whole product by a multiple of 2^128 |
| U128.Mul | src/u128_t.c:119-170 | the portable product of any two numbers is their product modulo 2^128 |
| U128.MulAddU | include/isolario/u128_t.h:220-236 | multiply and add modulo 2^128 |
| U128Shift.ShlIsModular | include/isolario/u128_t.h:356-379 | the portable left shift multiplies by a power of two modulo 2^128, across the halves |
| U128Shift.ShrIsDivision | include/isolario/u128_t.h:381-405 | the portable right shift divides by a power of two, rounding down |
| U128Shift.ShlThenShr | include/isolario/u128_t.h:356-405 | shifting up and down again keeps exactly the bits that stayed in |
| NumberText.InRangeIsExact | src/u128_t.c:73-87 | digits are read as the number they write, in range, if and only if it is below 2^128 |
| NumberText.ExactOutcome | src/u128_t.c:73-87 | for all digits: overflow is reported, and the largest number returned, exactly when some step makes the number modulo 2^128 smaller; otherwise the number modulo 2^128 is |
| NumberText.OverflowMissed | src/u128_t.c:76-80 | 6 followed by 38 zeros does not fit and is not reported |
| NumberText.ReadDigits | src/u128_t.c:73-87 | the loop takes all digits of the base and nothing else, and computes their outcome |
| NumberText.StoU128 | src/u128_t.c:49-93 | spaces, sign, base prefix, digits, overflow flag, end of the number and negation, for every text |
| NumberText.WriteDigits | src/u128_t.c:283-291 | the numeral without leading zeros stands at the end of the buffer, at least two places left before it |
| NumberText.U128ToS | src/u128_t.c:268-301 | the text of the number in the base, with its prefix, never before the buffer |
| NumberText.HornerOfDigits | src/u128_t.c:73-87 | reading the digits that printing produces gives the number back without a false overflow |
| NumberText.TextReadsBack | src/u128_t.c:49-93 | the text of every number in every base reads back as it, base 0 included for bases 8, 10 and 16 |
| NumberText.RoundTrip | src/u128_t.c:49-301 | `stou128(u128tos(u, base), base)` is u, read to its end, in range |
| NumberReads.Read | src/u128_t.c:49-93 | `stou128` gives the outcome the following laws are about, for every text and every base |
| NumberReads.SpacesInFront | src/u128_t.c:51 | any run of the six space characters in front of any text moves the end and changes nothing else |
| NumberReads.SignInFront | src/u128_t.c:53-55 | a plus in front of a text moves the end; a minus also makes the number 2^128 less it, modulo 2^128, and leaves the overflow flag |
| NumberReads.SpacesAndSign | src/u128_t.c:49-93 | spaces, then a sign or none, then a text that begins with neither |
| NumberReads.BaseMarks | src/u128_t.c:57-71 | 0x and 0X in bases 0 and 16, 0 in base 0, and no mark: in which base the digits behind are read, and how far the end moves |
| NumberReads.DigitValues | src/u128_t.c:37-47 | 0 to 9 and the letters, small or capital, by their codes |
| NumberReads.DigitsAreTheNumber | src/u128_t.c:73-87 | digits up to something that is none: the number they write modulo 2^128, or the largest and the flag exactly when some step makes it smaller |
| NumberReads.PrintedForm | src/u128_t.c:268-301 | what is printed is 0x, 0 or nothing, and then the digits of the number in small letters without zeros in front |
| BgpWire.Memcpy | src/bgp.c:1230 | copying octets changes the buffer at their place only |
| BgpWire.RouteReadsBack | src/bgp.c:1133-1234 | the octets written for one prefix, with or without path identifier, read back as it and end where it ends |
| BgpWire.RoutesReadBack | src/bgp.c:1133-1234 | a list of prefixes that fills a field reads back entry by entry |
| BgpWire.AttrReadsBack | src/bgp.c:1309-1372 | the octets of one attribute, short or extended, read back as it |
| BgpWire.AttrsReadBack | src/bgp.c:1309-1372 | a list of attributes that fills the field reads back as the list |
| BgpWire.ImageFields | src/bgp.c:1113-1276 | where the three fields lie in a message follows from the two lengths in it |
| WireOctets.ExtendedIsBit | include/isolario/bgpattribs.h:96 | the length of an attribute takes two octets exactly when bit 0x10 of the flags is set, whatever the others are |
| WireOctets.AttrInOctets | src/bgp.c:1333-1372 | which octets are a whole attribute, where it ends, and what it holds |
| WireOctets.RouteInOctets | src/bgp.c:1210-1234 | the path identifier most significant octet first, the length in bits, and as many octets as these take |
| WireOctets.SegmentInOctets | src/bgp.c:1743-1779 | a segment of an AS path: kind, count, and the numbers in two octets or four, most significant first |
| WireOctets.MessageInOctets | src/bgp.c:724-743 | a finished UPDATE: sixteen octets of ones, length, type 2, and the three fields with the lengths before the first two |
| WireOctets.NotableCodes | src/bgp.c:2021-2057 | the twelve codes the offset table has a slot for |
| BgpWriter.OtherSessionsKeepTheField | src/bgp.c:984-1010 | a run that does not start a field leaves it alone whatever it does to the other two |
| BgpWriter.LastListWritten | src/bgp.c:984-1598 | each field ends with the list of its last session, whatever came before and after |
| BgpWriter.FailureStays | src/bgp.c:189-216 | after an operation out of session nothing has any effect |
| BgpWriter.StartedWithdrawn | src/bgp.c:1027-1047 | opening the field cuts it out of the buffer and preserves the tail |
| BgpWriter.StartedAttribs | src/bgp.c:1283-1302 | the same for the attributes |
| BgpWriter.PutOneWithdrawn | src/bgp.c:1210-1234 | a put extends the open field by the encoding of the route, the preserved tail unharmed |
| BgpWriter.PutOneAttrib | src/bgp.c:1309-1326 | the same for an attribute |
| BgpWriter.PutOneNlri | src/bgp.c:1562-1586 | the same for the last field, which has no tail |
| BgpWriter.ClosedWithdrawn | src/bgp.c:1241-1253 | restoring the tail and writing the length makes the buffer hold the three lists |
| BgpWriter.ClosedAttribs | src/bgp.c:1379-1390 | the same for the attributes |
| BgpWriter.Finished | src/bgp.c:724-743 | with its length written the message carries exactly the three lists |
| BgpMsg.BgpMsg.constructor | src/bgp.c:608-632 | a message open for writing with three empty fields |
| BgpMsg.BgpMsg.EndPending | src/bgp.c:161-185 | whichever session is open is closed and no field changes its contents |
| BgpMsg.BgpMsg.GetWithdrawn | src/bgp.c:1113-1126 | where the withdrawn routes are, and how many octets |
| BgpMsg.BgpMsg.GetAttribs | src/bgp.c:1260-1276 | the field the two lengths delimit |
| BgpMsg.BgpMsg.GetNlri | src/bgp.c:1397-1409 | the rest of the message |
| BgpMsg.BgpMsg.StartWithdrawn | src/bgp.c:1027-1053 | ends what is pending; writing, the abstract start; reading, the message is unchanged and the cursor is at the field |
| BgpMsg.BgpMsg.StartAttribs | src/bgp.c:1283-1302 | the same for the attributes |
| BgpMsg.BgpMsg.StartNlri | src/bgp.c:1447-1469 | the same for the announced routes |
| BgpMsg.BgpMsg.PutWithdrawn | src/bgp.c:1210-1234 | does what the abstract put does, or sets the error of an operation out of session |
| BgpMsg.BgpMsg.PutAttrib | src/bgp.c:1309-1326 | does what the abstract put does, or sets the error of an operation out of session |
| WireOctets.PutInOctets | src/bgp.c:1309-1326 | a put leaves flags, code, a length in one octet or two by bit 0x10, and the data before the cursor |
| BgpMsg.BgpMsg.PutNlri | src/bgp.c:1562-1586 | the same for an announced route |
| BgpMsg.BgpMsg.EndWithdrawn | src/bgp.c:1241-1253 | closes the session and leaves the buffer with the abstract contents, or sets the error |
| BgpMsg.BgpMsg.EndAttribs | src/bgp.c:1379-1390 | the same for the attributes |
| BgpMsg.BgpMsg.EndNlri | src/bgp.c:1593-1598 | the same for the announced routes |
| BgpMsg.BgpMsg.NextWithdrawn | src/bgp.c:1133-1203 | the next prefix of the field, its end, or the error for one that runs over the end |
| BgpMsg.BgpMsg.NextNlri | src/bgp.c:1490-1555 | the same for the announced routes |
| BgpMsg.BgpMsg.NextAttrib | src/bgp.c:1333-1372 | the next attribute, noted in the offset table, or the end, or the error |
| WireOctets.NextInOctets | src/bgp.c:1333-1372 | by the octets at the cursor: the next attribute ends at p + 4 + 256 b[p + 2] + b[p + 3] if bit 0x10 of b[p] is set and at p + 3 + b[p + 2] if not, or is cut short, or there is none |
| WireOctets.NextRouteInOctets | src/bgp.c:1133-1203 | by the octets at the cursor: nothing at the end of the field, a prefix of as many octets as its length in bits takes, zeros behind them, path identifier most significant octet first, or an error if one octet of it is missing |
| BgpAttribs.ScanStep | src/bgp.c:1333-1372 | a step of a walk notes the attribute it passes and fails only on a list that is cut short |
| BgpAttribs.RemappedOk | src/bgp.c:2043-2050 | after a whole walk every code not met may be marked absent |
| BgpAttribs.StartsApart | src/bgp.c:1333-1372 | no attribute starts inside another |
| BgpAttribs.ScanFindsTheFirst | src/bgp.c:2021-2057 | the plain scan that is the reference finds the first occurrence, or none exactly when there is none |
| BgpMsg.BgpMsg.FillTable | src/bgp.c:2030-2056 | the walk that fills the table saves and restores the iteration in progress and makes the wanted entry known |
| BgpMsg.BgpMsg.Seek | src/bgp.c:2021-2057 | gives an occurrence, or none exactly when the code is absent, and leaves message and iteration as they were, at any moment of any reading session |
| BgpAttribs.FoundAgreesWithScan | src/bgp.c:2021-2057 | every answer of that kind is the one of a plain scan if and only if the code is in the list at most once |
| BgpMsg.BgpMsg.Finish | src/bgp.c:724-743 | the message is sealed, open for reading, and carries the lists of the last sessions |
| BgpMsg.BgpMsg.Opened | src/bgp.c:597-600 | a finished buffer with its table becomes a message open for reading |
| BgpSeeks.SoughtOk | src/bgp.c:2021-2057 | a seek keeps every entry of the table an occurrence or a true absence, and so is its answer |
| BgpSeeks.ReadToEnd | src/bgp.c:1333-1372 | reading on to the end leaves the last occurrence in the table |
| BgpSeeks.SeekFindsOne | src/bgp.c:1333-1372 | after any run of reads and seeks, in session or not, a seek gives an occurrence, or none exactly when there is none |
| BgpSeeks.RepeatShows | src/bgp.c:1366-1369 | for every list in which a code is repeated there is a run after which a seek is not a scan |
| BgpSeeks.SeeksAreScans | src/bgp.c:2021-2057 | over all interleavings on a message just opened, every seek for a code is a scan if and only if the code is there at most once |
| BgpSeeks.Perform | src/bgp.c:1283-1390 | each reading operation, and a seek, does to the message what it does in the abstract run |
| BgpSeeks.Interleave | src/bgp.c:1333-1372 | any run of them in session, then a seek, carried out on a message: the answer is the one of the abstract run |
| BgpSeeks.LaterRepeatWins | src/bgp.c:1366-1369 | a message written with two ORIGINs, both read, then a seek: the second is found, where a scan finds the first |
| BgpRuns.Perform | src/bgp.c:984-1598 | every writing operation does to the buffer what it does to the abstract lists; the first error stays |
| BgpRuns.Replay | src/bgp.c:984-1598 | so does every run of them, in any order and with repeats |
| BgpRuns.ReadWithdrawn | src/bgp.c:1049-1203 | reading the field of a finished message gives its list |
| BgpRuns.ReadAttribs | src/bgp.c:1283-1372 | the same for the attributes |
| BgpRuns.ReadNlri | src/bgp.c:1465-1555 | the same for the announced routes |
| BgpRuns.WriteThenRead | src/bgp.c:984-1598 | any run of sessions, then finishing, then three reads: success exactly when no operation was out of session, and each field gives back the list the run left in it |
| AsPath.HopsOfWire | src/bgp.c:1692-1727 | the hops counted over the octets of a path are the hops of its segments |
| AsPath.HopsAre | src/bgp.c:1696-1702 | a segment of kind 1 counts once, any other by its numbers |
| AsPath.CountedIsAPath | src/bgp.c:1692-1727 | a count exists if and only if the octets are those of a path, the last segment ending where they end |
| AsPath.CountHops | src/bgp.c:1692-1708 | the counting loop computes them, and notices a segment over the end |
| AsPath.HopsOfEntries | src/bgp.c:1692-1708 | the hops counted are the hops an iteration yields and one more for each empty SET |
| AsPath.CountsAgree | src/bgp.c:1692-1708 | so the two counts agree if and only if no SET is empty |
| AsPath.MergedIsRunThenAs4 | src/bgp.c:1779-1795 | when the hops that are missing are reached before AS_PATH ends, the merged iteration is the shortest run with these hops and then all of AS4_PATH, and its hops add up |
| AsPath.MergedIsLeft | src/bgp.c:1779-1795 | when they are not reached, it is all of AS_PATH |
| AsPath.RealPathKeepsHops | src/bgp.c:1654-1796 | for all paths: which of the two the real path is, and that it has the hops of AS_PATH if and only if the path it ends in has no empty SET |
| AsPath.EmptySetHidesAs4 | src/bgp.c:1692-1734 | a path with an empty SET whose iteration ends before AS4_PATH is turned to |
| AsPath.RealPathIsMerge | src/bgp.c:1654-1796 | so without empty SETs: that merge where AS4_PATH applies and is no longer, all of AS_PATH otherwise, and no hop lost |
| AsPath.AsPathIterator.Missing | src/bgp.c:1692-1734 | the difference of the two counts, or that AS4_PATH must be ignored |
| AsPath.AsPathIterator.StartReal | src/bgp.c:1670-1736 | given what the lookups found, refuses exactly a path over its end, and otherwise has the real path ahead |
| AsPath.AsPathIterator.Next | src/bgp.c:1743-1796 | yields what is ahead, one entry a call |
| AsPath.AsPathIterator.Switch | src/bgp.c:1786-1795 | going over to AS4_PATH drops the entry in hand and nothing else |
| AsPath.Collect | src/bgp.c:1743-1796 | a whole iteration yields exactly what was ahead |
| MessagePath.FoundGives | src/bgp.c:2021-2057 | a seek for a code that is not repeated gives the attribute of the list, or none exactly when it is not listed |
| MessagePath.LookUp | src/bgp.c:1670-1714 | the four lookups, those that do not matter left out, give what the real path depends on |
| MessagePath.PathOfIsReal | src/bgp.c:1654-1736 | the path the iterator is proved to yield is that one, stated from codes 2, 7, 17 and 18 and the octets of the aggregator |
| MessagePath.StartRealPath | src/bgp.c:1654-1736 | on any message open for reading, by the codes and octets of its attributes: nothing without AS_PATH; all of AS_PATH with 32-bit numbers, without AS4_PATH, if there are both aggregators and the AS of AGGREGATOR is not 23456, or if AS4_PATH has more hops; otherwise, without empty SETs, the shortest run and then all of AS4_PATH |
| MessagePath.AskMessage | src/filterintrin.c:470-600 | a match against a message: lookups, merged iteration and matcher together answer whether the real path of its attributes matches the pattern |
| MessagePath.WriteThenAsk | src/bgp.c:984-1796 | any run of writing, finishing, and a match: the answer is about the attributes of the last session |
| MrtRoute.NarrowKeepsThePath | src/bgp.c:516-546 | a path of 32-bit numbers is narrowed exactly when all of them fit 16 bits, and is the same path then |
| MrtRoute.NarrowedIsAPath | src/bgp.c:525-546 | whatever octets are narrowed without an error are a path of 32-bit numbers |
| MrtRoute.MpReachGivesTheRoute | src/bgp.c:431-491 | the rebuilt MP_REACH has the family, the next hop of the entry and the route as its only prefix, as `getmpnlri` and the prefix reader see it |
| MrtRoute.OthersStayInOrder | src/bgp.c:562-565 | all other attributes stay as they are, in order; no code becomes more frequent and only MP_UNREACH may go away |
| MrtRebuild.EmitMpReach | src/bgp.c:446-490 | the octets written are those of the rebuilt MP_REACH |
| MrtMeaning.NextHopOfEntry | src/bgp.c:441-461 | for every next hop: behind three octets of family and its length in an entry taken as full, behind its length alone in one taken as truncated, it is the next hop taken; which of them it is depends on the full flag, then the standard flag, then whether the entry begins with 0, 2, 1 |
| MrtMeaning.LegacyOverrides | src/bgp.c:368-373 | what the flag for legacy dumps makes of the others |
| MrtRebuild.EmitAsPath | src/bgp.c:516-559 | the octets written are those of the narrowed path with its length; refused exactly when it cannot be narrowed |
| MrtRebuild.CopyAttributes | src/bgp.c:397-572 | fails exactly on a list cut short or a refused attribute; otherwise buffer and table are as the rebuilt list wants |
| MrtRebuild.GrownTable | src/bgp.c:425-427 | noting the attribute being written keeps the table complete |
| MrtRebuild.CompleteIsTableOk | src/bgp.c:420-427 | a complete table is one that a message may be opened with |
| MrtRebuild.Rebuild | src/bgp.c:366-606 | when it succeeds, exactly, and that the UPDATE then carries the rebuilt attributes and an IPv4 route, with a table that answers every code |
| MrtRebuild.CompleteAgreesWithScan | src/bgp.c:420-427 | a complete table answers as a scan does for every code that is not repeated |
| MrtRebuild.OccurrencesCounted | src/bgp.c:397-572 | what is once in the list is once in its octets |
| MrtRebuild.PrefilledTableIsAScan | src/bgp.c:383-427 | for every code the entry does not repeat, the table filled while writing is what a scan of the UPDATE finds |
| MrtMeaning.KeptIsFound | src/bgp.c:397-572 | what a scan finds for an attribute that is kept and not repeated is the attribute as it was kept |
| MrtMeaning.NarrowedIsFound | src/bgp.c:516-559 | what it finds for an AS_PATH of 32-bit numbers that is narrowed is the same path in 16-bit numbers |
| MrtMeaning.StrippedIsAbsent | src/bgp.c:493-500 | it finds no MP_UNREACH when that is stripped |
| MrtMeaning.RebuiltMeansTheEntry | src/bgp.c:366-606 | for every attribute the entry does not repeat, what a scan of the UPDATE finds means what the entry meant: attribute 14 is 0, 1 or 2, 1, the next hop of the entry with its length, 0 and the route, with flags 0x80 or 0x90; attribute 2, where narrowed, is the same path; all others are unchanged; the NLRI field is the IPv4 route, or empty |
| MrtMeaning.RebuildAndSeek | src/bgp.c:366-606 | when rebuilding succeeds, exactly, and that a seek in the message it returns is a scan for every code the entry does not repeat |
| PoolSystem.StepKeepsOrder | src/pool.c:106-108 | jobs leave the list in the order they entered it |
| PoolSystem.StepKeepsPlaces | src/pool.c:76-115 | a started job is in the hands of one worker or was handled once |
| PoolSystem.StepKeepsWakeups | src/pool.c:89-92 | while anybody waits there are at least as many workers on their way as jobs, and nobody waits after the broadcast |
| PoolSystem.StepKeepsExits | src/pool.c:94-95 | a worker leaves only an empty list, told to |
| PoolSystem.RunKeepsInv | src/pool.c:72-214 | all of this in every reachable state |
| PoolSystem.PoolIsSafe | src/pool.c:72-214 | in every interleaving every dispatched job is in exactly one of queued, running, handled, and starts in order |
| PoolSystem.JoinedMeansHandled | src/pool.c:197-214 | when joining is over all jobs were handled once, if and only if there was a worker or nothing to do |
| PoolSystem.NoWorkersNothingHandled | src/pool.c:124-214 | a run of a pool without workers in which joining is over and the job dispatched was not handled |
| PoolSystem.ShutdownProceeds | src/pool.c:89-121 | after the broadcast nobody waits, every worker not gone can move and every move brings the end nearer |
| PoolSystem.NotDoneMeansEnabled | src/pool.c:89-121 | joining never gets stuck |
| PoolSystem.ShutdownEnds | src/pool.c:210-211 | no run after the broadcast is longer than a bound, and at the bound everybody has left |
| Pool.PushedRing | src/pool.c:185-190 | linking a cell in before the head appends it to the list |
| Pool.PoppedRing | src/pool.c:106-108 | unlinking the first cell removes it and keeps the ring and all payloads |
| Pool.FreedRing | src/pool.c:114 | freeing a cell outside of the ring does not touch the ring |
| Pool.OneHolder | src/pool.c:106-114 | two workers never hold the same job, so none frees another's |
| Pool.DispatchKeeps | src/pool.c:177-195 | dispatching on cells is dispatching in the abstract system |
| Pool.JoinKeeps | src/pool.c:197-208 | so is the critical section of joining |
| Pool.TakeKeeps | src/pool.c:106-110 | so is taking a job |
| Pool.LookKeeps | src/pool.c:89-95 | so is waiting and so is leaving |
| Pool.FinishKeeps | src/pool.c:112-114 | so is finishing and freeing a job |
| Pool.Pool.constructor | src/pool.c:124-170 | an empty ring, and as many workers at the top of their loop as asked for |
| Pool.Pool.Dispatch | src/pool.c:177-195 | the writes to the cells refine the abstract step |
| Pool.Pool.Check | src/pool.c:77-110 | one pass with the mutex held waits, leaves or takes, as the abstract step does |
| Pool.Pool.Take | src/pool.c:106-110 | the unlinking of the first cell refines the abstract step of taking a job |
| Pool.Pool.Join | src/pool.c:197-208 | the writes to the cells refine the abstract step |
| Pool.Pool.Finish | src/pool.c:112-114 | the job is recorded as handled and its cell freed |
| Pool.Run | src/pool.c:72-214 | every interleaving, carried out on the ring, ends where the abstract system does |
| FilterCode.MakeOpReadsBack | include/isolario/filterintrin.h:146-159 | opcode and operand of an instruction can be read back |
| FilterCode.BreakCloses | include/isolario/filterintrin.h:287-302 | the scan of a break stops at the ENDBLK of the block it is in, or at the end exactly when there is none |
| FilterCode.SomethingCloses | include/isolario/filterintrin.h:287-302 | in a properly nested program there is one |
| FilterCode.BreakLands | include/isolario/filterintrin.h:287-302 | inside a block of a properly nested program a break lands on the ENDBLK of that block |
| FilterCode.DecideKeepsDepth | src/filterpacket.c:211-236 | a decision keeps the block counter the nesting depth, breaking or not |
| FilterCode.StepKeepsDepth | src/filterpacket.c:151-236 | the block counter is the nesting depth after every step, and a jump is to the ENDBLK of the block left, whatever the other instructions do |
| FilterCode.NestedNeverDangles | src/filterpacket.c:162-166 | a properly nested program never fails for its blocks |
| FilterCode.EmitEx | src/filterintrin.c:636-656 | the words emitted for an operand are its octets without leading zero octets |
| FilterCode.LoadFolds | src/filterpacket.c:171-189 | the extended words push the operand they spell |
| FilterCode.LoadReadsBack | src/filterintrin.c:636-656 | a load emitted for any 32-bit operand pushes it without its sign bit, so itself if and only if it is not negative |
| FilterWords.WordsDo | src/filterpacket.c:151-210 | the instructions without a decision by opcode and operand in the octets of the word |
| FilterWords.WordsDecide | src/filterpacket.c:211-236 | words 10 and 11: a false top is dropped, a true one is kept or made 0, and ends the program or the block |
| FilterWords.EndDecides | src/filterpacket.c:340-362 | what a program that has ended gives |
| FilterWords.ScanOf | include/isolario/filterintrin.h:287-302 | the scan of a break counts words 1 and 2 |
| FilterWords.WordsOfLoad | src/filterintrin.c:636-656 | the words of a load of any number that is not negative, as few as it has octets |
| FilterVm.FilterMachine.Break | include/isolario/filterintrin.h:287-302 | leaves the program counter where the scan ends |
| FilterVm.FilterMachine.Decide | src/filterpacket.c:211-236 | CPASS keeps a true top and CFAIL makes it 0, either ends the program or breaks; a false top is dropped |
| FilterVm.FilterMachine.Perform | src/filterpacket.c:151-236 | each instruction but the decisions does what the step function says |
| FilterVm.FilterMachine.Execute | src/filterpacket.c:151-236 | one turn of the dispatch loop, errors included |
| FilterVm.FilterMachine.Filter | src/filterpacket.c:140-362 | the run ends, because the program counter only grows, with the result of the step function |
| FilterVm.SkipChain | include/isolario/filterintrin.h:287-302 | a break passes over whole decision lists, nested blocks and all |
| FilterVm.StraightAnywhere | src/filterpacket.c:151-236 | what a run does depends on the stack and the operand register alone, not on where it stands or in which block |
| FilterVm.RunReaches | src/filterpacket.c:151-236 | a run of instructions without blocks and decisions does to the stack what it does one by one, and goes on after it |
| FilterVm.ExprPushes | src/filterpacket.c:151-236 | an expression whose runs push one value each on the stack it is started on pushes its worth on it and changes nothing else |
| FilterVm.ChainDecides | src/filterpacket.c:151-236 | inside a block a decision list pushes its decision, by falling through or by a break |
| FilterVm.BlockPushes | src/filterpacket.c:158-169 | a block pushes exactly one value, the decision of its list |
| FilterVm.ProgramMeansDecision | src/filterpacket.c:151-362 | every filter that is a decision list of nested decision lists, started on the empty stack, passes exactly the packets it says |
| FilterVm.RunProgram | src/filterpacket.c:151-362 | and so does the machine |
| MessagePath.PathTestIsValid | src/filterintrin.c:470-600 | a pattern loaded and a question about the AS path asked, which pops the whole stack, is a test that any such filter may have, and it is worth the answer |
| MessagePath.PathFilterDecides | src/filterpacket.c:151-362 | a filter of one such test passes exactly the packets whose path the pattern matches |
| MessagePath.QuestionWords | include/isolario/filterintrin.h:71-103 | which opcode asks which question, and the operand for a new iteration over the real path |
| MessagePath.LoadkWord | include/isolario/filterintrin.h:58 | the word 256 k + 4 pushes constant k |
| MessagePath.AskWord | include/isolario/filterintrin.h:89-129 | the word 256 * 132 + op puts the answer in the place of the whole stack, the pattern |
| AspMatch.HowTheyRelate | src/filterintrin.c:470-600 | how window, prefix, suffix and exact matching relate on every pattern and path |
| AspMatch.AnswersAre | src/filterintrin.c:470-600 | the four answers position by position, with -1 for any AS |
| AspMatch.Matcher.NextAs | src/bgp.c:1743-1796 | the AS numbers compared are those the iteration over the message yields, one a call |
| AspMatch.Matcher.TryWindow | src/filterintrin.c:484-507 | the buffer holds the current window as far as read; the answer is whether it matches, or that the path ended |
| AspMatch.Matcher.ExecMatch | src/filterintrin.c:470-513 | true exactly when some window of the path matches the pattern |
| AspMatch.Matcher.ExecStarts | src/filterintrin.c:515-535 | true exactly when the beginning of the path matches |
| AspMatch.Matcher.ExecEnds | src/filterintrin.c:537-575 | true exactly when the end of the path matches |
| AspMatch.Matcher.ExecExact | src/filterintrin.c:577-600 | true exactly when the whole path matches |
| JsonText.StrEscape | src/strutil.c:289-320 | the loop escapes every character that needs it and no other |
| JsonText.Encoder.ValueNeedsComma | src/json.c:49-58 | decides from the last character that is not a space |
| JsonText.Encoder.IsFirstField | src/json.c:60-69 | tells whether an object was just opened |
| JsonText.TextEndsSolid | src/json.c:49-69 | whatever value was written last, the next value or field needs a comma |
| JsonText.Encoder.Write | src/json.c:115-287 | the calls for a tree write its text with commas exactly where structure wants them |
| JsonText.TextHasNoNul | src/json.c:115-287 | the text of a tree has no NUL, which would end it |
| JsonParse.ParseRec | src/json.c:511-575 | one token from a position on, by its first character and what is allowed |
| JsonParse.ParseAggregate | src/json.c:449-508 | the look ahead over an aggregate: its size and end, or its error |
| JsonParse.Parse | src/json.c:577-598 | the next token, punctuation passed over |
| JsonGrammar.TokenIff | src/json.c:400-575 | a value is read as a token with its kind, size, start and end if and only if it stands there by the grammar: strings to the first quote without a backslash before it, numbers, words, and brackets around elements with commas and spaces between them |
| JsonGrammar.RestIff | src/json.c:449-508 | by induction on what is left of the text: the loop ends at a bracket with a count if and only if so many elements, separated by commas, lie before it |
| JsonGrammar.CutIff | src/json.c:419-575 | the text is called incomplete if and only if it ends in spaces, in a string, or in brackets, after whole elements |
| JsonGrammar.RootAccepted | src/json.c:577-598 | the first call accepts a text if and only if an aggregate stands in it behind spaces, with its number of elements |
| JsonGrammar.RootIncomplete | src/json.c:577-598 | the first call says END if and only if there are only spaces, and incomplete if and only if an aggregate is cut short |
| JsonGrammar.Check | src/json.c:577-598 | both of jsonparse as it runs: accepted, ended, incomplete or bad syntax, for every text |
| JsonGrammar.InsideYields | src/json.c:588-590 | inside an aggregate that was accepted, reading on token by token does not fail before its end |
| JsonGrammar.AcceptedIsRead | src/json.c:577-598 | an accepted text with nothing but spaces behind it is read to JSON_END |
| JsonGrammar.LoneComma | src/json.c:460-475 | "[,]" is accepted with one element, and has no token inside |
| JsonRoundTrip.StringReadsBack | src/json.c:419-439 | a written string ends at its closing quote if and only if it does not end in a backslash |
| JsonRoundTrip.BackslashRunsOn | src/json.c:419-439 | the text of a string that is one backslash is taken for an incomplete one |
| JsonRoundTrip.ValueReads | src/json.c:511-575 | the text of a value gives the token of the value, whatever surrounds it |
| JsonRoundTrip.ItemsRead | src/json.c:449-508 | the look ahead over an array counts its items and ends at its bracket |
| JsonRoundTrip.FieldsRead | src/json.c:449-508 | the look ahead over an object counts its fields and ends at its brace |
| JsonRoundTrip.ValueStreams | src/json.c:577-598 | repeated calls over the text of a value yield its tokens in preorder |
| JsonRoundTrip.PrintedTreeParses | src/json.c:577-598 | for every tree the stream of tokens is the preorder of the tree with exact sizes, and then JSON_END |
| JsonMeaning.EscapeIsPlain | src/strutil.c:289-320 | two strings are escaped alike if and only if they are alike once vertical tabs are read as newlines |
| JsonMeaning.TextDeterminesTree | src/json.c:115-287 | two trees have the same text if and only if they are the same once every vertical tab in a string is read as a newline |
| JsonMeaning.TextIsTheTree | src/json.c:115-287 | without vertical tabs the text determines the tree |
| JsonMeaning.TabIsLost | src/strutil.c:289-320 | two different trees with one text and one stream of tokens |
| JsonDecode.EscapedCodes | src/strutil.c:291-301 | which nine characters are escaped, and that each is by a backslash and what section 7 of RFC 8259 gives for it, 11 as 10 |
| JsonDecode.UnescapeEscape | src/strutil.c:289-320 | decoding an escaped string gives the string, but for vertical tabs |
| JsonDecode.LeafForms | src/json.c:165-269 | numbers, strings and truth values as text |
| JsonDecode.ArrayForms | src/json.c:130-278 | brackets, and commas between values |
| JsonDecode.ObjectForms | src/json.c:115-287 | braces, names in quotes, colons, and commas between members |
| JsonDecode.ValueBuilt | src/json.c:577-598 | the tokens of a value build the value, by kinds, sizes and the text between start and end, decoded |
| JsonDecode.PrintThenParse | src/json.c:49-598 | the encoder, then the parser to JSON_END: the tokens are the preorder of the tree, they build the tree again but for vertical tabs, and the text is that of no other tree up to those |

## Left out

- Prefix trie: `nprefs`, which is not the number of prefixes after a repeated insertion or a failed removal; `patclear` and `patdestroy`; failing allocation; `patgetsubnetsofn`, `patgetrelatedofn`, `patisrelatedofn` and `patgetfirstsubnetsofn`; the functions that take prefixes as text.
- Trie memory: a sequence of cells indexed by address, with parent and glue flag as two fields where the source packs them into one word. A freed cell's prefix, overlaid by the free list link, may hold anything.
- UPDATE messages: other message types; `setwithdrawn_r`, `setnlri_r` and `setbgpdata_r`; iteration over MP_REACH and MP_UNREACH prefixes; communities and next hops; sessions other than the three fields and the AS path.
- Buffer growth: a message stays within the 4096 octets it starts with, which the writing operations require.
- Reading and writing messages: prefix lengths that need more than 16 octets, and attribute code 255, for which the table of codes has no entry; the source checks for neither.
- AsPath.AsPathIterator.StartReal: takes what the lookups found as arguments; `MessagePath.StartRealPath` makes them. Hop counts are unbounded, where the source keeps them in 16 bits.
- MessagePath.StartRealPath: attributes that hold whole paths and are not repeated, and an aggregator with room for its AS; whether AS numbers have 32 bits is an argument, where the source has a flag of the message.
- MessagePath.AskMessage: the same messages, and iterations that start anew; without the settle flag a match goes on where the last one stopped.
- AsPath.RealPathIsMerge: paths without empty SETs; `RealPathKeepsHops` is about all paths.
- MrtRebuild.Rebuild: entries whose MP_REACH has its next hop where the source looks for it, since the source does not check; families other than IPv4 and IPv6; reading MRT files.
- Pool: transient workers, which nothing creates; failing thread creation and allocation; what a handler does.
- Filter: what the instructions other than NOP, BLK, ENDBLK, LOAD, EXARG, NOT, CPASS, CFAIL, SETTLE and HASATTR do is a parameter, as a function of operand and stack, so what one of them leaves for the next outside of the stack (tries, iterations over the packet) is not captured; of them the four AS path matches are modelled, in `AspMatch` and `MessagePath`; growth of the stack; computed goto; the compiler of filter expressions; HASATTR's look at the message, which is a set of codes here.
- FilterCode.LoadReadsBack: the operand register is 0 before the load, as it is at the start and after every instruction that uses it.
- AspMatch.Matcher.ExecEnds: an empty pattern only against an empty path; along any other path the source moves a window that has no room.
- U128Shift.ShlIsModular: distances from 1 to 127; a distance of 0 shifts a half by 64, which C does not define.
- Portable `u128sub`, `u128xor` and `u128divqr`; printing divides exactly, as the compiler's own 128-bit type does.
- NumberText.StoU128: texts without a NUL inside, which would end them.
- PatriciaTrie.InsertCases: prefixes no longer than the width of the trie, as those of its family are; the source takes longer ones and reads the bits past the width as 0.
- PatriciaTrie.Trie.InsertN: prefixes no longer than the width of the trie, for the same reason.
- BgpMsg.BgpMsg.constructor: the UPDATE type of message only, without the check of the type.
- BgpMsg.BgpMsg.EndPending: the sessions of the three fields; the other four belong to parts that are left out.
- BgpMsg.BgpMsg.PutWithdrawn: needs room in the buffer, whose growth is left out.
- BgpMsg.BgpMsg.PutNlri: needs room in the buffer, for the same reason.
- BgpMsg.BgpMsg.NextWithdrawn: stays in its field, where the source can go on into MP_UNREACH.
- BgpMsg.BgpMsg.NextNlri: stays in its field, where the source can go on into MP_REACH.
- WireOctets.NextRouteInOctets: stays in the field, too.
- MrtMeaning.RebuildAndSeek: the same entries as `MrtRebuild.Rebuild`.
- Pool.Pool.constructor: creation of threads that fails part way.
- JsonParse.ParseRec: numbers that are decimal integers, and texts without a NUL inside; a token has the place of a number and not its value.
- JsonGrammar.TokenIff: the same numbers and texts; `strtod` takes more, which is then bad syntax here.
- JsonRoundTrip.ValueReads: no floating point numbers in a tree.
- JSON: numbers are integers in decimal, kept as their digits, since `strtod` and `snprintf` are outside of the model; `strunescape`; indented output.
- JsonRoundTrip.PrintedTreeParses: field names without quotes and backslashes, which the encoder does not escape, and strings that do not end in a backslash, which `StringReadsBack` shows to be necessary.
- Input and output, logging, sockets, compression and the text form of addresses.
