# A verified model of the market-data engine and its pool allocator

This project models, in Dafny, the two stacks of protocol-parser that carry
state from message to message, and proves what they keep.

**The engine.** A feed of Nasdaq TotalView-ITCH 5.0 messages, each behind a
16-bit length, is read from a plain file or from a decompressor's chunks,
framed, decoded and dispatched. The handlers update a table of orders, indexed by
reference number, and a two-sided book of price levels for every instrument. A
live order points to its level; a level knows only its price and the sum of
its orders' quantities, and disappears with the order that has all of that sum.

**The allocator.** The nodes of a book's lists come from a memory pool: an
intrusive free list with a first-fit search for runs of neighbouring nodes, over
an arena of ever larger blocks that are themselves chained through their own
first bytes.

## How the model is built

| part | modules | what they hold |
|---|---|---|
| values of the engine | `Core`, `Ladder`, `BookOps`, `Ledger`, `Session` | sorted levels, calls on a book, the order table, messages and whole runs |
| bytes | `Wire`, `Encoding` | layout and framing as the function `Scan`; an encoder to invert it |
| values of the allocator | `Arith`, `Growth`, `Nodes`, `Carving` | node counts, binary32 block sizes, who owns which node, how blocks are carved |
| memory objects | `Memory`, `FreeLists`, `Arenas`, `MemoryPools` | a mutable store of words, and the allocator's classes over it |
| book objects | `LevelLists`, `ListBooks`, `HashedBooks`, `LevelMaps`, `MapBooks`, `Books`, `BookEquivalence` | the four books, one interface to them, and their equivalence |
| engine objects | `Parsers`, `ByteBuffers`, `FileReaders` | order table, handlers, framing loop, buffer, and the two ways to read a file |

Objects the C++ code updates in place are classes with the same fields. Each of
their methods is proved against a specification on values. The link is ghost state: a free
list carries the sequence of its free nodes, the live allocations and an owner for every
node ever inserted; a book carries the calls it received (`history`); the parser
carries the messages it handled (`trace`). The validity predicate of the parser says that its
orders and books are exactly what `Session.Run` and `Session.OpsFor` compute from
the trace, so every theorem about runs is a theorem about its heap. Every validity
predicate is established by a constructor. The operations of a class keep it; the steps an operation is
made of (`TakeCell` and `Link` of the containers, `PlaceOrder` and its kin of the parser, `AllocateBlock` of the
pool) state what they keep instead.

The parser is written over the interface `Books.Book`, so everything proved about it holds with any of the
four books; the original has `mp_book` (src/itch/instrument.hpp:17) and leaves the choice to the
programmer.

Theorems speak through shared definitions: which price is better, which letter means what, how long a
header is. Each of these is also stated once in plain terms, with literal letters, bytes and numbers and without the
definition's name: `Ladder.SortedDescends`, `Session.StepEffect`, `Session.CallEffect`, `Session.AcceptsWhen`, `Wire.DecodedFrom`,
`Wire.KnownLetters`, `Growth.FloatIsNearest`, `FreeLists.FirstFitMeans` and their neighbours.

**What a feed may send.** `Session.Accepts` is the well-formedness the handlers rely on: a
new reference number is not live; quantities added are positive; the locate of a
message is that of the order's book; a level's sum stays below 2^32; indices lie inside the
tables. It asks less than the code's debug assertions: a cancel, execution, deletion or replacement may name
an order that is not live, and a cancel or execution may take more shares than remain. Where the code is wrong without a
condition, an if-and-only-if says so, next to an input that fails:

- a level's sum fits in 32 bits: `Ledger.ArriveAgrees`, and `Ledger.SumWrapsToZero`, where 2^32 shares show as 0;
- a departing order has less than the aggregate exactly when others rest on its level:
  `Ledger.DepartAgrees`, and `Ledger.ZeroShareOrderLosesItsLevel`;
- the locate is that of the order's book, or the order has less than its level's aggregate:
  `Ledger.WrongLocateAgrees`, and `Ledger.WrongLocateErasesWrongLevel`;
- the number of an added order, and the new number of a replacement, is not live:
  `Session.AddNeedsUnusedNumber`, `Session.ReplaceNeedsUnusedNumber`, and `Ledger.ReuseDisagrees` for every failing table.
  A replacement of a live order naming its own number is excluded without such a result, as the assertion
  `new_order.pl == nullptr` excludes it (src/itch/mp_book.cpp:115);
- the framing loop meets no message of a known type with length field 65534, which the 16-bit sum turns into a step
  of 0: `Wire.LoopEnds`, and `Wire.StuckBuffer`. An unknown type ends the loop by ending the process. A message
  shorter than its structure makes no difference here: the framing goes by the length field alone.

**Places where the obvious claim is false.** Returning an array leaves `used` as
it was: `FreeList.DeallocateRun` states it, and `Valid` keeps the true account
`used + capacityLeft == inserted + returned`. A byte count above one node that is no multiple of the
node size loses a node on the way back: `FreeList.DeallocateBytes` states exactly when, `FreeLists.OddReleaseLosesNode` gives an instance. A
pool for `count` nodes starts with fewer, because the header takes the first ones:
`Carving.CarvedClosed`. The block size is multiplied as a binary32 float, so it doubles
if and only if it has at most 24 significant bits: `Growth.NextSizeFacts`, with
`Growth.RoundedSize` as the witness.

The assertions that an order deleted or replaced rests on a level and that `remove_qty <= order.qty` hold in debug
builds only; the model follows the branches of the release build, which accept both. A replacement of an order
that is not live then enters the new one on the bid side, the side of cleared orders.

## Model

| member | source | states |
|---|---|---|
| `Parsers.Parser.LevelIsItsOrders` | src/itch/parser.hpp:216-254 | after any accepted run, a level in any book has as its aggregate the sum over exactly the orders whose pointer is that level, which is positive: no level survives its last order |
| `Parsers.Parser.OrderOnItsLevel` | src/itch/parser.hpp:328-435 | after any accepted run, an order's pointer is non-null exactly when the ledger has the order live; then it is a level now in the book of the ledger's instrument, on the ledger's side, at its price: no level is erased under a live order |
| `Parsers.Parser.TableFields` | src/itch/core.hpp:46-79 | after any accepted run every order object has the side, price and shares the ledger says, and an unused one is cleared |
| `Parsers.Parser.PointsByKey` | src/itch/mp_book.cpp:33-94 | an order points to a level if and only if the ledger has it live at that instrument, side and price |
| `Parsers.Parser.Shared` | src/itch/mp_book.cpp:79-91 | of two live orders on one level neither has all of its aggregate, so the erase branch is not taken for either |
| `Parsers.Parser.NoneLosesItsLevel` | src/itch/mp_book.cpp:79-91 | whatever live order departs, no other order's pointer is left on an erased level |
| `Parsers.Parser.BestPrice` | src/itch/mp_book.cpp:136-152 | the front level of a side in the heap is the best live price of the ledger with the total of its orders; (0, 0) exactly when nobody rests |
| `Parsers.Parser.SideHoldsItsShares` | src/itch/mp_book.cpp:33-122 | the aggregates of a side in the heap add up to the shares of its live orders |
| `Parsers.Parser.DepthStatistic` | src/itch/mp_book.cpp:154-164 | the pool's `used` is the number of levels now, its `max_used` the greatest number at any moment of the whole run |
| `Parsers.SameTraceSameState` | src/itch/parser.hpp:113-166 | parsers that handled the same messages agree on the ledger, on every order's side, price, shares, liveness and level pointed to, and on every book's calls and levels; whatever the kinds of their books |
| `Parsers.Parser.constructor` | src/itch/parser.hpp:83-95 | a valid parser with unused orders, empty books of the kind asked for, and all objects distinct |
| `Parsers.Parser.PlaceInBook` | src/itch/parser.hpp:231-231 | an order whose fields are set and that rests nowhere is in the table and on its level; all other orders keep their levels, and only this book receives a call |
| `Parsers.Parser.SwapInBook` | src/itch/parser.hpp:434-434 | the same for the call that replaces |
| `Parsers.Parser.PlaceOrder` | src/itch/parser.hpp:224-231 | the table gains the order, all other orders keep their levels, and only this instrument's book receives a call |
| `Parsers.Parser.ReduceOrder` | src/itch/parser.hpp:330-341 | the table loses the shares, or the order when they are all; all other orders keep their levels |
| `Parsers.Parser.RemoveOrder` | src/itch/parser.hpp:343-355 | the order is gone and cleared, all other orders keep their levels; nothing happens to the book when it rested nowhere |
| `Parsers.Parser.SwapOrder` | src/itch/parser.hpp:417-435 | the old order is gone, the new one rests on the old one's side at the new price, all other orders keep their levels; if there was no old one, the new one rests on the bid side |
| `Parsers.Parser.HandleAddOrder` | src/itch/parser.hpp:216-254 | the order object has the side, price and shares of the message and points to a level at that price; all other orders are as before; the objects are still what the trace, with this message, computes |
| `Parsers.Parser.HandleOrderCancel` | src/itch/parser.hpp:328-415 | fewer shares than remain are taken from the order, otherwise it is cleared; the same for both kinds of execution; all other orders as before |
| `Parsers.Parser.HandleOrderDelete` | src/itch/parser.hpp:343-355 | the order is cleared, all others are as before |
| `Parsers.Parser.HandleOrderReplace` | src/itch/parser.hpp:417-435 | the new order has the side the old one had, and the message's price and shares; the old one is cleared; all others as before |
| `Parsers.Parser.HandleOther` | src/itch/parser.hpp:256-306 | the other types leave orders and books alone |
| `Parsers.Parser.Dispatch` | src/itch/parser.hpp:127-160 | every known type reaches a handler that appends its message to the trace and keeps the invariant |
| `Parsers.Parser.Handle` | src/itch/parser.hpp:127-160 | any sequence of messages the abstract ledger accepts is handled, each handler's needs met, and becomes the trace |
| `Parsers.Parser.Parse` | src/itch/parser.hpp:111-166 | on messages as long as their structures, the halt message's two codes aside, the loop ends, never reads outside the buffer, and dispatches exactly the messages of `Scan`, returning the bytes it used; it aborts exactly at an unknown type |
| `Parsers.AcceptedPrefix` | src/itch/parser.hpp:113-166 | every prefix of an accepted run is accepted |
| `Parsers.NextAccepted` | src/itch/parser.hpp:113-166 | in the middle of an accepted run the next message satisfies what its handler relies on |
| `Parsers.ScanTurn` | src/itch/parser.hpp:118-163 | one turn of the loop moves one message from what is still to scan to what is done |
| `Session.RunAgrees` | src/itch/parser.hpp:216-254 | ledger refinement: after every accepted run, each side of each book is the group-by-price of the live orders |
| `Session.StepAgrees` | src/itch/parser.hpp:328-435 | every accepted message, of any kind, keeps every side of every book in agreement with the ledger |
| `Session.StepEffect` | src/itch/parser.hpp:216-435 | slot by slot what each kind of message makes of the table: an added order as the message says, a replacement on the side of the order it replaces, fewer shares or none after a cancel, and all other slots as they were |
| `Session.CallEffect` | src/itch/parser.hpp:216-435 | the calls each kind of message makes, all on its own instrument: a replacement drops the old order and adds the new one on the same side |
| `Session.AcceptsWhen` | src/itch/parser.hpp:216-435 | exactly when each kind of message is acceptable |
| `Session.CountEffect` | src/itch/parser.hpp:328-435 | the shares a message takes from what rests go to the column of its kind: executed, cancelled or dropped |
| `Session.AddNeedsUnusedNumber` | src/itch/parser.hpp:216-234 | after any accepted run, an added order with shares keeps all books in agreement if and only if its number is not live and the sum at its level stays below 2^32 |
| `Session.ReplaceNeedsUnusedNumber` | src/itch/parser.hpp:417-435 | the same for the new number of a replacement, of a live order by another number or of one that is not live |
| `Session.ReplaceAgrees` | src/itch/mp_book.cpp:111-122 | delete then add keeps the agreement, also when both prices are one level |
| `Session.ReduceAgrees` | src/itch/mp_book.cpp:69-109 | a cancel, execution or deletion keeps the agreement, partial, total, excessive or of a dead order |
| `Session.BestOfRun` | src/itch/mp_book.cpp:136-152 | after every accepted run the best price is the extreme live price with its total quantity, or (0, 0) |
| `Session.SharesConserved` | src/itch/parser.hpp:328-435 | per reference number: shares added are those executed, cancelled, dropped by delete or replace, and still resting |
| `Session.SharesOnSide` | src/itch/basic_book.cpp:54-107 | per instrument and side: levels total what rests |
| `Ledger.ArriveAgrees` | src/itch/price_level.hpp:34-38 | an arriving order keeps the agreement if and only if the level's sum with it is below 2^32 |
| `Ledger.DepartAgrees` | src/itch/basic_book.cpp:63-76 | a departing order keeps the agreement if and only if its quantity is below the aggregate exactly when another order rests on the level |
| `Ledger.ShrinkAgrees` | src/itch/basic_book.cpp:86-88 | a partial cancel keeps the agreement |
| `Ledger.ElsewhereAgrees` | src/itch/basic_book.cpp:19-107 | what happens at another instrument or side keeps the agreement |
| `Ledger.PositiveDepart` | src/itch/basic_book.cpp:61-76 | with positive quantities only, the condition of `DepartAgrees` always holds |
| `Ledger.ZeroShareOrderLosesItsLevel` | src/itch/basic_book.cpp:63-76 | with a zero-share order it can fail: a concrete table whose order outlives its level |
| `Ledger.WrongLocateAgrees` | src/itch/mp_book.cpp:78-91 | a deletion sent to another instrument keeps both books in agreement if and only if the order has less than its level's aggregate |
| `Ledger.WrongLocateErasesWrongLevel` | src/itch/mp_book.cpp:81-91 | a whole-level deletion sent to another instrument that has the price: that instrument's level goes, the order's own stays, and neither book agrees |
| `Ledger.SumWrapsToZero` | src/itch/price_level.hpp:34-38 | two orders of 2^32 - 1 and 1 shares at one price: the level shows 0 while 2^32 rest on it |
| `Ledger.ReuseDisagrees` | src/itch/parser.hpp:224-231 | an order entered over any live one with shares breaks the agreement of the old order's side, always |
| `Ledger.AgreesUnique` | src/itch/basic_book.cpp:19-52 | the level list that agrees with a ledger is unique |
| `Ledger.LevelTotalByPrice` | src/itch/price_level.hpp:12-12 | aggregates summed over a sorted list are the shares at its prices |
| `Ledger.SideTotal` | src/itch/price_level.hpp:12-12 | a side in agreement with the ledger totals the shares resting on it |
| `Ledger.SumChange` | src/itch/price_level.hpp:12-12 | changing one slot of the table changes a sum by that slot's part |
| `BookOps.ReplayOrdered` | src/itch/basic_book.cpp:19-107 | whatever calls a book receives, both sides stay strictly sorted, best price first |
| `BookOps.BidsDescendAsksAscend` | src/itch/mp_book.cpp:45-48 | whatever calls a book receives, each bid price is above the next and each ask price below the next |
| `BookOps.PeakBounds` | src/itch/mp_book.cpp:154-164 | `Peak` is at least the depth at every moment of the run |
| `BookOps.PeakAttained` | src/itch/mp_book.cpp:154-164 | and is the depth at one of them |
| `BookOps.ArrivalsCommute` | src/itch/basic_book.cpp:19-52 | two arrivals can be exchanged on any sorted book, at one price or two, on one side or two |
| `BookOps.MoveLast` | src/itch/basic_book.cpp:19-52 | an arrival can be moved behind all arrivals that follow it, in any book |
| `BookOps.ArrivalOrder` | src/itch/basic_book.cpp:19-52 | any two permutations of the same arrivals leave identical level lists |
| `Ladder.SortedUnique` | src/itch/basic_book.cpp:28-46 | a strictly sorted level list is the only representation of its price-to-quantity map |
| `Ladder.BestIsExtreme` | src/itch/basic_book.cpp:121-137 | the front of a sorted side is better than every other price in it |
| `Ladder.SortedDescends` | src/itch/mp_book.cpp:45-48 | a sorted side of bids descends, one of asks ascends, and its best is the highest bid or the lowest ask |
| `Ladder.AddContent` | src/itch/basic_book.cpp:26-46 | adding keeps the side sorted and adds to exactly one price of its map, wrapping at 2^32 |
| `Ladder.DecContent` | src/itch/basic_book.cpp:86-88 | a partial cancel keeps the side sorted and changes exactly one price of its map |
| `Ladder.DropContent` | src/itch/basic_book.cpp:63-76 | a departure keeps the side sorted and lowers or removes exactly one price of its map |
| `Ladder.AddByRank` | src/itch/basic_book.cpp:26-46 | inserting or adding at the place `find_if` stops is adding to the sorted list |
| `Ladder.DropByFind` | src/itch/basic_book.cpp:63-76 | lowering or erasing the node found by price is dropping from the sorted list |
| `Ladder.AddsCommute` | src/itch/basic_book.cpp:26-46 | two additions to one side commute |
| `Ladder.FindsItself` | src/itch/basic_book.cpp:67-75 | on a sorted side both searches find a level by its own price |
| `Wire.ScanAppend` | src/itch/parser.hpp:113-166 | framing a stream in two parts is framing the first part and then what it left together with the second |
| `Wire.ScanMaximal` | src/itch/parser.hpp:117-123 | what is left holds no complete message and at most 65534 bytes |
| `Wire.LoopEnds` | src/itch/parser.hpp:117-163 | the loop ends, for lack of bytes or at an unknown type, if and only if it meets before that no message whose 16-bit length sum is 0 |
| `Wire.StuckBuffer` | src/itch/parser.hpp:119-163 | an add message with length field 65534 keeps the loop going forever |
| `Wire.ZeroLength` | src/itch/parser.hpp:119-119 | the sum is 0 exactly for a length field of 65534 |
| `Wire.ScanNeverStuck` | src/itch/parser.hpp:117-163 | where `Scan` ends for lack of bytes or at an unknown type, the loop ends |
| `Wire.ScanIsWhereItStops` | src/itch/parser.hpp:117-163 | and it ends after as many turns as `Scan` finds messages, with exactly the bytes `Scan` leaves |
| `Wire.ScanFirst` | src/itch/parser.hpp:117-163 | the first message is dispatched, or refused, without regard to the bytes behind it |
| `Wire.Scan` | src/itch/parser.hpp:113-166 | never consumes more than there is |
| `Wire.StructSizes` | src/protocol/itch/itch.cppgen.json:24-345 | the size of each message's structure, of the halt message's without its two codes, is the header's 13 bytes and the sum of its packed fields' widths |
| `Wire.LetterSizes` | src/protocol/itch/itch.cppgen.json:24-345 | the size of the structure for each of the 21 letters |
| `Wire.KnownLetters` | src/itch/parser.hpp:127-149 | exactly the 21 letters of the `switch` are known |
| `Wire.FramedBy` | src/itch/parser.hpp:117-123 | the loop goes on exactly when more than 13 bytes are there and the big-endian length plus 2, modulo 2^16, is no more than what is there |
| `Wire.BigEndianWords` | src/itch/parser.hpp:222-227 | words of 2, 4 and 8 bytes are read in network order |
| `Wire.DecodedFrom` | src/itch/parser.hpp:216-435 | for each letter, which message it is and which bytes each of its fields comes from; an order is a bid exactly when byte 21 is the letter B |
| `Wire.DecodedPlaces` | src/protocol/itch/itch.cppgen.json:178-280 | the byte positions the decoder reads are those of the packed fields |
| `Wire.FrameOfPrefix` | src/itch/parser.hpp:117-123 | a complete message stays complete, and the same, when bytes follow |
| `Encoding.RoundTrip` | src/protocol/itch/itch.cppgen.json:178-280 | decoding an encoded message gives the message back, for every order message, with attribution or without, and every field value |
| `Encoding.StreamRoundTrip` | src/itch/parser.hpp:113-166 | scanning any sequence of encoded messages, attributed ones among them, gives the sequence back and consumes every byte |
| `Encoding.AddRoundTrip` | src/protocol/itch/itch.cppgen.json:178-210 | the layouts of both add messages, of 38 and of 42 bytes, are inverted by the encoder |
| `Encoding.ReplaceRoundTrip` | src/protocol/itch/itch.cppgen.json:266-280 | the layout of the replace message is inverted by the encoder |
| `Encoding.ReduceRoundTrip` | src/protocol/itch/itch.cppgen.json:211-253 | the layouts of cancel and both execution messages are inverted by the encoder |
| `Encoding.DeleteRoundTrip` | src/protocol/itch/itch.cppgen.json:254-265 | the layout of the delete message is inverted by the encoder |
| `FileReaders.FileReader.ProcessGz` | src/file_reader/file_reader.hpp:78-130 | for every stream and every way the decompressor splits it, the loop ends, the buffer always has room, and messages, counts, bytes and unread tail are those of one scan of the whole stream; it never fails without corrupt input |
| `FileReaders.FileReader.ProcessRaw` | src/file_reader/file_reader.hpp:66-76 | the same trace, message count and byte count, from one call |
| `FileReaders.BothWays` | src/file_reader/file_reader.hpp:66-130 | chunk independence: two parsers in step, one fed by `ProcessRaw` and one by `ProcessGz` with any split, are in the same state again, with the same outcome, message and byte counts |
| `FileReaders.FileReader.Refill` | src/file_reader/file_reader.hpp:104-115 | exactly the next bytes of the stream come behind what is unread |
| `FileReaders.FileReader.ParseUnread` | src/file_reader/file_reader.hpp:117-122 | the parser handles one scan of what is unread, and exactly what that leaves stays unread, at the front of the buffer |
| `FileReaders.NextChunk` | src/file_reader/file_reader.hpp:103-124 | one more chunk continues the scan of the bytes so far, and stays within what the whole stream may do |
| `FileReaders.LeftAppend` | src/util/byte_buffer.hpp:81-98 | the bytes left in the end do not depend on where the stream was split |
| `FileReaders.RoomLeft` | src/file_reader/file_reader.hpp:15-18 | of the 10485760 bytes of the buffer at least 10420226 are free after every shift |
| `FileReaders.Inflater.Inflate` | src/file_reader/file_reader.hpp:104-112 | the decompressor as the loop may rely on it: next bytes in order, never more than there is room for, progress |
| `ByteBuffers.ByteBuffer.Shift` | src/util/byte_buffer.hpp:81-98 | the unread bytes are the same, now at the front, though the two ranges may overlap; all other room is free |
| `ByteBuffers.ByteBuffer.BytesWritten` | src/util/byte_buffer.hpp:74-79 | the stored bytes become unread behind the others |
| `ByteBuffers.ByteBuffer.BytesRead` | src/util/byte_buffer.hpp:67-72 | the first unread bytes are gone |
| `ByteBuffers.ByteBuffer.constructor` | src/util/byte_buffer.hpp:38-45 | an empty buffer of the capacity |
| `ByteBuffers.ByteBuffer.BytesUnread` | src/util/byte_buffer.hpp:107-112 | the number of unread bytes |
| `BookEquivalence.FourTables` | src/itch/map_book.cpp:33-125 | four-way equivalence: one message sequence, asked only to be acceptable to the abstract ledger, drives four order tables over the four kinds of books, and they end with the same live orders on the same levels, the same calls received and the same levels shown |
| `BookEquivalence.SameBest` | src/itch/map_book.cpp:139-155 | and with the same best prices |
| `BookEquivalence.FourBooksAgree` | src/itch/map_book.cpp:33-125 | books of the four kinds with the same calls received show the same ordered levels on both sides |
| `BookEquivalence.ArrivalOrderDoesNotShow` | src/itch/basic_book.cpp:19-52 | book objects that received the same orders in different sequence show the same lists |
| `BookEquivalence.IndexAgrees` | src/itch/hashed_book.cpp:39-128 | the keys of the index are exactly the prices of the replayed levels |
| `ListBooks.ListBook.AddOrder` | src/itch/mp_book.cpp:33-67 | the book shows one more `Add`, the order points to its level, and every level object is still there |
| `ListBooks.ListBook.RemoveOrder` | src/itch/mp_book.cpp:76-94 | the book shows one more `Drop`, the order is cleared, and no level object disappears but the order's own, when the order has all of its quantity |
| `ListBooks.ListBook.DeleteOrder` | src/itch/mp_book.cpp:69-94 | the same; an order on no level is left alone |
| `ListBooks.ListBook.CancelOrder` | src/itch/mp_book.cpp:96-109 | fewer shares than remain shrink order and level; all or more remove the order |
| `ListBooks.ListBook.ShrinkOrder` | src/itch/mp_book.cpp:101-104 | the partial branch: same level objects, order and level lowered |
| `ListBooks.ListBook.ReplaceOrder` | src/itch/mp_book.cpp:111-122 | the book shows a `Drop` and an `Add`, the old order is cleared and the new one rests; of an old order on no level, the book shows the `Add` alone |
| `ListBooks.ListBook.BestBid` | src/itch/mp_book.cpp:136-143 | the front of the replayed bids, or (0, 0) |
| `ListBooks.ListBook.BestAsk` | src/itch/mp_book.cpp:145-152 | the front of the replayed asks, or (0, 0) |
| `ListBooks.ListBook.MaxBookDepth` | src/itch/mp_book.cpp:154-164 | the largest number of levels the side had at once after any call |
| `ListBooks.ListBook.Basic` | src/itch/basic_book.cpp:12-17 | an empty book without pools |
| `ListBooks.ListBook.Pooled` | src/itch/mp_book.cpp:24-31 | an empty book with a pool of 24-byte nodes and 1200 bytes for each side |
| `ListBooks.AddToList` | src/itch/basic_book.cpp:22-47 | the list becomes the sorted list with the quantity added, and the pool's statistic the larger of itself and the depth |
| `ListBooks.RemoveFromList` | src/itch/basic_book.cpp:63-76 | the list becomes the sorted list with the quantity dropped; the found node is the order's own |
| `ListBooks.ShrinkInList` | src/itch/basic_book.cpp:86-88 | the list becomes the sorted list with the quantity taken off one level |
| `ListBooks.FindPlace` | src/itch/basic_book.cpp:30-33 | stops at the first bid that is at most the price, or the first ask that is at least the price |
| `ListBooks.FindPrice` | src/itch/basic_book.cpp:68-69 | stops at the first level with the price |
| `ListBooks.LevelPlace` | src/itch/basic_book.cpp:68-75 | on a sorted list the search by price finds the order's own level object, which is there once |
| `Books.Book.AddOrder` | src/itch/basic_book.cpp:19-52 | in every kind of book, an added order rests and every other resting order still rests |
| `Books.Book.DeleteOrder` | src/itch/basic_book.cpp:54-79 | in every kind of book, after a deletion every other order still rests unless it stood on the level the departed order emptied |
| `Books.Book.CancelOrder` | src/itch/basic_book.cpp:81-94 | the same for cancels |
| `Books.Book.ReplaceOrder` | src/itch/basic_book.cpp:96-107 | the same for replacements |
| `Books.Book.BestOn` | src/itch/basic_book.cpp:121-137 | in every kind of book, the highest bid or lowest ask of the levels an iterator meets |
| `Books.Book.ShowsReplay` | src/itch/basic_book.cpp:109-119 | every kind of book shows, in order, exactly what its calls make of an empty book |
| `Books.Book.OneAtPrice` | src/itch/basic_book.cpp:28-46 | one level object for each price of a side |
| `Books.Book.StandingSum` | src/itch/price_level.hpp:12-12 | a level object's aggregate is the ledger's sum at its place, and positive |
| `Books.Book.DepthShown` | src/itch/mp_book.cpp:154-164 | in every pooled book, used nodes are levels and the statistic is the greatest depth of the run |
| `Books.NewBook` | src/itch/instrument.hpp:3-7 | an empty book of the kind asked for |
| `HashedBooks.HashedBook.AddOrder` | src/itch/hashed_book.cpp:39-76 | as for the lists, and each price leads to its one node again |
| `HashedBooks.HashedBook.RemoveOrder` | src/itch/hashed_book.cpp:85-100 | the book shows one more `Drop`, the order is cleared, and no level object disappears but the order's own, when the order has all of its quantity |
| `HashedBooks.HashedBook.DeleteOrder` | src/itch/hashed_book.cpp:78-100 | the same; an order on no level is left alone |
| `HashedBooks.HashedBook.CancelOrder` | src/itch/hashed_book.cpp:102-115 | fewer shares than remain shrink order and level and keep every level object; all or more remove the order, and no level object disappears but the order's own, when the order has all of its quantity |
| `HashedBooks.HashedBook.ReplaceOrder` | src/itch/hashed_book.cpp:117-128 | a `Drop` and an `Add`, or the `Add` alone when the old order rests on no level; the new order rests, and no level object disappears but the old order's own, when it has all of its quantity |
| `HashedBooks.HashedBook.BestBid` | src/itch/hashed_book.cpp:142-149 | the front of the replayed bids, or (0, 0) |
| `HashedBooks.HashedBook.BestAsk` | src/itch/hashed_book.cpp:151-158 | the front of the replayed asks, or (0, 0) |
| `HashedBooks.HashedBook.MaxBookDepth` | src/itch/hashed_book.cpp:160-170 | the largest number of levels the side had at once after any call |
| `HashedBooks.AddIndexed` | src/itch/hashed_book.cpp:47-71 | list and index stay in step while the list becomes the sorted list with the quantity added |
| `HashedBooks.RemoveIndexed` | src/itch/hashed_book.cpp:87-97 | list and index stay in step while the quantity is dropped |
| `MapBooks.MapBook.AddOrder` | src/itch/map_book.cpp:33-75 | the map is the content of the calls so far, and the order points to the level under its price |
| `MapBooks.MapBook.RemoveOrder` | src/itch/map_book.cpp:84-97 | the book shows one more `Drop`, the order is cleared, and no level object disappears but the order's own, when the order has all of its quantity |
| `MapBooks.MapBook.DeleteOrder` | src/itch/map_book.cpp:77-97 | the same; an order on no level is left alone |
| `MapBooks.MapBook.CancelOrder` | src/itch/map_book.cpp:99-112 | fewer shares than remain shrink order and level and keep every level object; all or more remove the order, and no level object disappears but the order's own, when the order has all of its quantity |
| `MapBooks.MapBook.ReplaceOrder` | src/itch/map_book.cpp:114-125 | a `Drop` and an `Add`, or the `Add` alone when the old order rests on no level; the new order rests, and no level object disappears but the old order's own, when it has all of its quantity |
| `MapBooks.MapBook.BestBid` | src/itch/map_book.cpp:139-146 | the front of the replayed bids, or (0, 0) |
| `MapBooks.MapBook.BestAsk` | src/itch/map_book.cpp:148-155 | the front of the replayed asks, or (0, 0) |
| `MapBooks.MapBook.MaxPoolUsed` | src/itch/map_book.cpp:157-167 | the largest number of levels the side had at once after any call |
| `MapBooks.IterationShowsReplay` | src/itch/map_book.cpp:139-155 | iterating over the ordered map meets exactly the replayed levels, in the list books' order |
| `MapBooks.AddMapped` | src/itch/map_book.cpp:38-69 | the map of a side takes up one more `Add` of the calls so far, and all level objects stay |
| `MapBooks.RemoveMapped` | src/itch/map_book.cpp:86-94 | the map of a side takes up one more `Drop`, and only an emptied level of that price goes |
| `MapBooks.ShrinkMapped` | src/itch/map_book.cpp:104-106 | the map of a side takes up one more `Dec` |
| `MapBooks.AddToMap` | src/itch/map_book.cpp:38-53 | adds to exactly one price of the map, all level objects stay |
| `MapBooks.RemoveFromMap` | src/itch/map_book.cpp:86-94 | lowers or removes exactly one price of the map |
| `LevelLists.LevelList.Emplace` | src/allocator/mp_allocator.hpp:64-72 | one more level at the place, and at the same place one more pool node that nobody held |
| `LevelLists.LevelList.Erase` | src/allocator/mp_allocator.hpp:74-82 | the level at the place is gone, and its own node, no other, is back in the pool |
| `LevelMaps.LevelMap.Emplace` | src/allocator/mp_allocator.hpp:64-72 | one more map element, and under its price one more pool node that nobody held |
| `LevelMaps.LevelMap.Erase` | src/allocator/mp_allocator.hpp:74-82 | the element is gone, and its own node, no other, is back in the pool |
| `Core.PriceLevel.IncQty` | src/itch/price_level.hpp:34-38 | unsigned 32-bit addition, wrapping |
| `Core.PriceLevel.DecQty` | src/itch/price_level.hpp:40-44 | unsigned 32-bit subtraction, wrapping |
| `Core.WordArithmetic` | src/itch/price_level.hpp:34-44 | both are addition and subtraction modulo 2^32 |
| `Core.Order.Clear` | src/itch/core.hpp:70-78 | an order on no level, without shares |
| `FreeLists.ListSearchArray` | src/allocator/free_list.hpp:85-118 | sound and complete first fit: the earliest run of exactly ceil(bytes / node size) list-consecutive adjacent nodes with its two neighbours; null exactly when there is no such run |
| `FreeLists.FirstFitMeans` | src/allocator/free_list.hpp:96-113 | first fit in plain arithmetic: each node of the run is one node size above its predecessor, and no earlier place of the list has such a run |
| `FreeLists.FreeList.AllocateRun` | src/allocator/free_list.hpp:228-240 | exactly that run is spliced out, order kept, counters by its length; a failed search changes nothing |
| `FreeLists.FreeList.AllocateBytes` | src/allocator/free_list.hpp:221-241 | one node for up to a node's size, else the first run |
| `FreeLists.FreeList.Allocate` | src/allocator/free_list.hpp:206-219 | the first node, and `max_used` the running maximum of `used` |
| `FreeLists.FreeList.Deallocate` | src/allocator/free_list.hpp:243-252 | the node is in front of the list again |
| `FreeLists.FreeList.DeallocateRun` | src/allocator/free_list.hpp:254-261 | floor(n / node size) nodes are in front of the list in address order; `used` stays as it was |
| `FreeLists.FreeList.DeallocateBytes` | src/allocator/free_list.hpp:254-261 | all of an allocation comes back if and only if it is one node or a whole number of them |
| `FreeLists.OddReleaseLosesNode` | src/allocator/free_list.hpp:221-261 | 24 bytes in nodes of 16: two nodes are taken, one comes back, the other is neither free nor held |
| `FreeLists.FreeList.Insert` | src/allocator/free_list.hpp:198-204 | the region's whole nodes are in front of the list, apart from all others; nothing outside the region's nodes is written |
| `FreeLists.FreeList.InsertImpl` | src/allocator/free_list.hpp:304-321 | the loop chains a region in address order in front of the list and writes nothing else |
| `FreeLists.FreeList.constructor` | src/allocator/free_list.hpp:162-168 | an empty list with the rounded node size |
| `FreeLists.FoundRun` | src/allocator/free_list.hpp:228-240 | whatever interval the search returned, storing one next-word or moving the head takes exactly its nodes, and its computed size is their number |
| `FreeLists.TakeFirstFit` | src/allocator/free_list.hpp:228-240 | taking the first run keeps chain, tiling and owners |
| `FreeLists.ChainSplice` | src/allocator/free_list.hpp:232-235 | bending one link, or the head, around a run leaves exactly the chain without the run |
| `FreeLists.ChainFrame` | src/allocator/free_list.hpp:47-59 | the chain depends on nothing but its own nodes' words |
| `FreeLists.ChainRow` | src/allocator/free_list.hpp:311-318 | a row linked front to back extends the chain |
| `FreeLists.NoRowAcross` | src/allocator/free_list.hpp:97-104 | no long enough run starts in a row that breaks off too early: restarting behind it misses none |
| `FreeLists.RowGrown` | src/allocator/free_list.hpp:111-113 | the byte count first suffices at exactly the ceiling of nodes |
| `FreeLists.RowSize` | src/allocator/free_list.hpp:70-78 | the size of a found interval is its number of nodes |
| `Nodes.Facts` | src/allocator/free_list.hpp:206-261 | free and held nodes are owned, none of them twice, and no two overlap |
| `Nodes.Take` | src/allocator/free_list.hpp:221-241 | moving a run from the list to an allocation keeps every node with exactly one owner |
| `Nodes.Give` | src/allocator/free_list.hpp:243-261 | moving an allocation's first nodes back keeps every node with exactly one owner, the rest counted lost |
| `Nodes.Grow` | src/allocator/free_list.hpp:304-321 | a region apart from all nodes adds nodes apart from all nodes |
| `Arith.FloorCeil` | src/allocator/free_list.hpp:254-261 | the nodes that come back are those taken if and only if the bytes are a whole number of nodes |
| `Arenas.BlockStack.Push` | src/allocator/memory_block_stack.cpp:45-53 | the block is on top, and only its two header words are written |
| `Arenas.BlockStack.Pop` | src/allocator/memory_block_stack.cpp:55-62 | the latest block, with its original address and size |
| `Arenas.BlockStack.Top` | src/allocator/memory_block_stack.hpp:68-75 | the latest block without its header |
| `Arenas.BlockStack.Size` | src/allocator/memory_block_stack.hpp:83-90 | the number of blocks, by walking the chain |
| `Arenas.StackPush` | src/allocator/memory_block_stack.cpp:45-53 | writing a further block's header breaks no header in the chain |
| `Arenas.HeadersApart` | src/allocator/memory_block_stack.cpp:45-53 | the headers of different blocks do not overlap |
| `Arenas.GrowingAllocator.AllocateBlock` | src/allocator/growing_block_allocator.hpp:41-49 | a fresh block of the current size; the next size is the float product, and twice the size up to 16777216 bytes |
| `Arenas.Arena.AllocateBlock` | src/allocator/memory_arena.hpp:78-85 | a fresh block on the stack; the region handed out starts 16 bytes behind it and has 16 bytes less |
| `Arenas.Arena.DeallocateBlock` | src/allocator/memory_arena.hpp:94-99 | the latest block goes back, whole |
| `Arenas.Arena.Destroy` | src/allocator/memory_arena.hpp:54-59 | the draining loop ends and returns every outstanding block exactly once, the latest first |
| `Memory.Memory.Malloc` | src/allocator/growing_block_allocator.hpp:45-45 | the operating system may return any aligned block that overlaps no live one |
| `Memory.RoundUpToAlign` | src/allocator/detail.hpp:14-19 | the least multiple of 8 that is not below |
| `Growth.NextSizeFacts` | src/allocator/growing_block_allocator.hpp:47-47 | the size doubles if and only if it has at most 24 significant bits, and it never shrinks |
| `Growth.SizesDouble` | src/allocator/growing_block_allocator.hpp:41-49 | a first size of at most 24 significant bits is doubled exactly every time |
| `Growth.ShortSizesDouble` | src/allocator/growing_block_allocator.hpp:47-47 | every size up to 16777216, and every such size times a power of two, is doubled exactly |
| `Growth.ExactMeans` | src/allocator/growing_block_allocator.hpp:65-70 | the exact sizes are the products of a number below 2^24 and a power of two |
| `Growth.FloatIsNearest` | src/allocator/growing_block_allocator.hpp:47-47 | the float of a size is an exact size, and none is nearer |
| `Growth.RoundedSize` | src/allocator/growing_block_allocator.hpp:47-47 | 16777217 is followed by 33554432 and 16777219 by 33554440: not doubled, ties to even |
| `Growth.LeadingBounds` | src/allocator/growing_block_allocator.hpp:65-70 | how much of a size the 24 bits of a float keep |
| `Carving.CarvedClosed` | src/allocator/memory_pool.hpp:48-53 | after k blocks exactly count * (2^k - 1) - k * h nodes are carved, h of them lost to each header |
| `Carving.HeaderCost` | src/allocator/memory_block_stack.cpp:26-29 | a block of n nodes' bytes has n - ceil(16 / node size) nodes |
| `Carving.CarveNoHeader` | src/allocator/memory_block_stack.hpp:68-75 | no carved node of any block overlaps a header word of any block |
| `Carving.NodeInside` | src/allocator/memory_pool.hpp:136-141 | every carved node lies inside one block, behind its header |
| `MemoryPools.PoolTiled` | src/allocator/memory_pool.hpp:70-102 | in every reachable state each carved node is in the list or in exactly one outstanding allocation |
| `MemoryPools.PoolSeparate` | src/allocator/memory_pool.hpp:136-141 | in every reachable state nodes overlap neither each other nor block headers |
| `MemoryPools.ArrayInOneBlock` | src/allocator/memory_pool.hpp:79-90 | no array allocation reaches across a block boundary |
| `MemoryPools.GrowthFollowsUse` | src/allocator/memory_pool.hpp:70-77 | under single-node traffic, for k >= 2, count * (2^(k-1) - 1) - (k-1) * h < max_used: blocks are logarithmic in peak use |
| `MemoryPools.NodesAfterGrowth` | src/allocator/memory_pool.hpp:136-141 | the nodes free or held are exactly those of the closed form |
| `MemoryPools.MemoryPool.constructor` | src/allocator/memory_pool.hpp:48-53 | one block, nothing held, counters zero |
| `MemoryPools.MemoryPool.AllocateNode` | src/allocator/memory_pool.hpp:70-77 | the first node of the list; when the list was empty, of the one new block, 16 bytes behind its start |
| `MemoryPools.MemoryPool.AllocateArray` | src/allocator/memory_pool.hpp:79-90 | the first run of n nodes in the list, and no growth; if and only if the list has none, one more block and the first run of the grown list; succeeds whenever the next block holds at least n nodes |
| `MemoryPools.MemoryPool.TryArray` | src/allocator/memory_pool.hpp:82-82 | the list's first run of n nodes, or no change |
| `MemoryPools.MemoryPool.DeallocateNode` | src/allocator/memory_pool.hpp:92-96 | the node is free again, everything else held as before |
| `MemoryPools.MemoryPool.DeallocateArray` | src/allocator/memory_pool.hpp:98-102 | the whole array is free again; none of its nodes is lost |
| `MemoryPools.MemoryPool.AllocateBlock` | src/allocator/memory_pool.hpp:136-141 | one more block, carved behind its header into nodes in front of the list |
| `MemoryPools.MemoryPool.Construct` | src/allocator/mp_allocator.hpp:84-91 | writing any aligned word of a held node disturbs neither list nor block chain |
| `MemoryPools.FreshBlockApart` | src/allocator/memory_pool.hpp:136-141 | a fresh block meets no carved node |

## Left out

- Opening and mapping files, the choice between raw and compressed by extension, logging, printing and CSV output: input and output.
- zlib: `Inflater` is an arbitrary source of chunks that stores no more than there is room for and makes progress in the end; `avail_in` as a 32-bit field (files of 4 GiB and more) is not modelled.
- Clock, time strings and order timestamps: opaque, nothing depends on them.
- Price, volume and order-count statistics of an instrument, its name and trading state, the market state: folds and assignments no book depends on; the handlers that only update them are `HandleOther`.
- The operational-halt message's two code fields: declared 32 bits wide in the layout, one byte each in the standard; the size of type 'h' counts them out, so a halt message of 21 bytes is accepted although its handler reads 8 more.
- `max_bid_order_depth`, `max_ask_order_depth`, `bytes_shifted` and `memory_block_stack::owns`: never updated, counted once too often, or testing a region other than the one handed out.
- Operating-system allocators: `Memory.Malloc` returns any aligned block apart from the live ones, never null; each pool has an address space of its own, and addresses are not bounded by 2^64.
- Move, swap and copy of the allocator classes, the allocator template's rebinding, and the paths from exceptions to abort.
- `std::list`, `std::unordered_map` and `std::map`: sequences of level objects and maps to level objects, with one pool node for each element; the pointers inside the containers' own nodes are not modelled, and the hash index's own buckets use the default allocator.
- `basic_book` and `mp_book` have the same operations and are one class, `ListBook`, with two constructors.
- The handlers for orders with and without attribution do the same and are one method; so are those for cancels and the two kinds of executions, which differ in statistics only.
- The numbers of instruments and orders are parameters of the parser in place of the two constants; indices outside the tables are undefined in the original and excluded by `Accepts`, also for the handlers that look up an instrument only to update its statistics.
- Parsers.Parser.Parse: excludes messages shorter than the structure their handler reads (and prints, where logging is on), as the original reads beyond them then; of the halt message it does not count the two codes.
- MemoryPools.MemoryPool.AllocateArray: returns null where the original terminates the process.
- MemoryPools.MemoryPool.constructor: requires that the first block has room for at least one node behind its header; for less the original underflows.
- MemoryPools.GrowthFollowsUse: for first blocks of at most 24 significant bits, for which the float factor is exact.
