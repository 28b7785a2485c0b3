# A model of the huffman compressor's codec

This project models in Dafny the codec engine of a Huffman file compressor written in C. It also proves what that engine promises. The model covers:

- **Encoder:**
  - it counts the bytes of the file;
  - it adds stand-in symbols so that the tree has at least two leaves;
  - it builds the Huffman tree with a priority queue whose `enqueue` is an insertion sort;
  - it writes a 16-byte header in canonical little-endian order;
  - it dumps the tree in post order;
  - it assigns each symbol its root-to-leaf path as a code;
  - it appends the codes bit by bit, LSB first, through a buffered bit writer.
- **Decoder:**
  - it checks the header and loads the saved tree with a stack;
  - it reads the remaining bytes one bit at a time and walks the tree, emitting a symbol at each leaf.

The end-to-end theorem is `Compressor.Compress`. For any input, either tree option, any permission bits, any positive buffer sizes (`KB`, `BLK`), codes of at least 256 bits (`CODE >= 256`, so that every root-to-leaf path fits), and either byte order on the encoding host, the bytes the encoder writes decode to the input and its permission bits. This holds on a little-endian reader and on a big-endian one.

How the source's parts are modelled:

- **In-place state becomes classes:**
  - the circular queue is `Priority.Queue`, over an `array`;
  - the scratch stack is `Stack.Stack`, over an `array` that doubles;
  - the static bit-writer state `codeB`/`codeP`/`codeC` is `Codes.BitWriter`;
  - the static block buffer of `buffered_write` is `BlockWrite.BlockWriter`;
  - the static state of `nextBit` is `Decode.BitReader`.
- **Loops become methods** with loop invariants. Each method is proved against a specification function:
  - `enqueue`'s shifting loop against `Priority.Insert`;
  - `freqCnt` against `Occ`, which counts occurrences;
  - the merge loop against `TreeBuild.Merge`;
  - `loadTree` against `TreeCodec.Load`;
  - `decodeFile` against `Decode.Walk`;
  - `appendCode`/`encodeFile` against `Encode.EncodeBits`.
- **Pure parts become datatypes and functions:**
  - tree nodes are the `Huffman.Tree` datatype;
  - the `code` struct is the `Codes.Code` value, because C passes it by value;
  - the byte swaps, the header layout, `dumpTree`'s output and `buildCode`'s table are functions.
- **Files and sinks** are `seq<bv8>`.
- **Inputs the program gets from the host:**
  - the host's byte order is the parameter `big`;
  - `KB`, `BLK` and `CODE / 8` are the parameters `kb`, `blk` and `width`;
  - `BYTE` is 256.

## Model

| member | source | states |
|---|---|---|
| Huffman.Join | huffman.c:24-33 | join gives an interior node with l on the left, r on the right and the sum of their counts |
| Huffman.FullBinary | huffman.c:24-33 | a tree built by joins has L leaves and L - 1 interior nodes, and L symbols and leaves |
| Huffman.DepthBound | huffman.h:13-18 | every root-to-leaf path passes fewer nodes than there are leaves |
| Huffman.Compare | huffman.h:38-40 | definition of compare as written, the 64-bit difference cast to a 32-bit int; the result lies in [-2^31, 2^31); see CompareExact and CompareMisorders |
| Huffman.CompareExact | huffman.h:38-40 | while two 64-bit counts differ by less than 2^31, compare is their difference, so its sign is that of CompareCounts |
| Huffman.CompareMisorders | huffman.h:38-40 | compare as written reports a count of 2^31 smaller than a count of 0, where the count order says greater, and 2^32 equal to 0 |
| Huffman.CompareCounts | huffman.h:38-40 | the intended comparison: positive, zero or negative exactly when l's count is greater, equal or smaller |
| Huffman.CompareCountsOrders | huffman.h:38-40 | that comparison is antisymmetric and transitive, as an insertion sort needs |
| Huffman.NoDupUnique | huffman.h:13-18 | a tree whose symbol multiset has no repetition has distinct symbols on its leaves |
| Huffman.PostOrder | huffman.h:29-36 | definition of delTree's order of visits: left subtree, right subtree, then the node; the node itself comes last; see PostOrderVisitsAll |
| Huffman.PostOrderVisitsAll | huffman.h:29-36 | delTree visits every one of the 2L - 1 nodes once, children before their parent and the root last |
| Endian.Swap16 | endian.h:25-30 | swap16 exchanges the low and the high byte |
| Endian.Swap32 | endian.h:32-39 | swap32 moves byte i to byte 3 - i |
| Endian.Swap64 | endian.h:41-52 | swap64 moves byte i to byte 7 - i |
| Endian.Swap16Involution | endian.h:25-30 | swap16 undoes itself |
| Endian.Swap32Involution | endian.h:32-39 | swap32 undoes itself |
| Endian.Swap64Involution | endian.h:41-52 | swap64 undoes itself |
| Endian.Memory16 | header.h:8-9 | a 16-bit field occupies two bytes of memory, in host order |
| Endian.Memory32 | header.h:7 | a 32-bit field occupies four bytes of memory |
| Endian.Memory64 | header.h:10 | a 64-bit field occupies eight bytes of memory |
| Endian.Canonical16 | encode.c:290 | definition of `isBig() ? swap16(x) : x`; stored on a host of either order, the result has x's little-endian bytes |
| Endian.Canonical32 | encode.c:289 | definition of `isBig() ? swap32(x) : x`; the same for the 32-bit magic number |
| Endian.Canonical64 | encode.c:291 | definition of `isBig() ? swap64(x) : x`; the same for the 64-bit file size |
| Endian.LoadMemory16 | decode.c:189-191 | reading back the two stored bytes gives the stored word |
| Endian.LoadMemory32 | decode.c:189-191 | reading back the four stored bytes gives the stored word |
| Endian.LoadMemory64 | decode.c:189-191 | reading back the eight stored bytes gives the stored word |
| Endian.WordBytes | encode.c:125 | the word made from a high and a low byte has them as bytes 1 and 0 |
| Endian.Word16Value | encode.c:124-125 | a number below 2^16 stored as a uint16 reads back as the same number |
| HeaderFormat.Image | header.h:6-11 | the header's memory image is 16 bytes: magic, permissions, tree size, file size |
| HeaderFormat.Canonical | encode.c:288-292 | definition of the header with every field conditionally swapped, as the encoder builds it and the decoder reads it back (decode.c:193-196); its image has the same bytes on any host, h's little-endian image; see HeaderRoundTrip |
| HeaderFormat.HeaderRoundTrip | decode.c:193-196 | a header written on a host of either byte order reads back field for field on a host of either order |
| Priority.Succ | priority.c:6 | succ, computed in uint32, lies in [0, n) |
| Priority.Pred | priority.c:11 | pred, computed in uint32, lies in [0, n) |
| Priority.SuccStep | priority.c:6 | for a queue of fewer than 2^31 slots, succ steps one slot forward around the ring |
| Priority.PredStep | priority.c:11 | for such a queue, pred steps one slot backward around the ring |
| Priority.SuccPred | priority.c:6-11 | succ and pred undo each other |
| Priority.Insert | priority.c:75-79 | enqueueing adds one entry |
| Priority.InsertAsWritten | priority.c:75-79 | definition of enqueue's insertion as written, ordering by compare; it adds one entry |
| Priority.InsertAgrees | priority.c:75 | while every count is below 2^31, the insertion as written equals Insert |
| Priority.InsertMisorders | priority.c:75 | with counts 2^31 and 0, the insertion as written leaves the entries out of count order, where Insert sorts them |
| Priority.InsertAt | priority.c:75-79 | x is stored at the insertion point; every entry after it is strictly greater and the one before is not |
| Priority.InsertSorted | priority.c:68-84 | enqueue keeps the entries in ascending count order |
| Priority.InsertAdds | priority.c:68-84 | enqueue adds exactly x to the multiset of entries |
| Priority.InsertStable | priority.c:75 | the new entry goes after every entry of equal or smaller count; the entries before it keep their places |
| Priority.InsertStep | priority.c:75-78 | moving past a strictly greater entry keeps the result of the insertion |
| Priority.InsertStop | priority.c:75 | the loop stops at the tail or below an entry that is not greater, and x goes there |
| Priority.SlotStep | priority.c:77 | pred of the slot k past tail is the slot k - 1 past tail |
| Priority.ShiftStart | priority.c:73 | before the loop the gap is at head, just past every live entry; nothing has moved yet |
| Priority.ShiftPast | priority.c:75-77 | while the entry below the gap compares greater than x, the gap is above Insert's insertion point, and moving it down keeps that point |
| Priority.ShiftStop | priority.c:75-79 | where the loop stops, at the tail or below an entry not greater than x, is Insert's insertion point |
| Priority.RotateNext | priority.c:91-92 | advancing tail by one slot drops the first entry of the ring's view |
| Priority.ShiftOne | priority.c:76-77 | copying the entry below the gap into it moves the gap down one place and keeps the contents |
| Priority.ShiftFill | priority.c:79 | storing x in the gap gives the contents with x at the gap's position |
| Priority.Queue.constructor | priority.c:16-29 | newQueue: both cursors at slot 0, no entries, size slots |
| Priority.Queue.Capacity | priority.c:52-60 | a queue of size slots holds at most size - 1 entries |
| Priority.Queue.IsEmpty | priority.c:44-50 | empty holds exactly when there are no entries |
| Priority.Queue.IsFull | priority.c:54-60 | full, succ(head) == tail, holds exactly when size - 1 entries are stored |
| Priority.Queue.Enqueue | priority.c:68-84 | on a full queue it gives false and changes nothing; otherwise it gives true, the contents become Insert(contents, i), and they stay sorted |
| Priority.Queue.ShiftGreater | priority.c:73-78 | the while loop moves every strictly greater entry up one slot and leaves the gap at the insertion point |
| Priority.Queue.MoveUp | priority.c:76-77 | one pass of the loop: the entry below the gap moves up, and the gap moves one slot down |
| Priority.Queue.Dequeue | priority.c:86-96 | on an empty queue it gives None and changes nothing; otherwise it gives the tail entry, which has the least count, and removes only it |
| Stack.Stack.constructor | stack.c:12-24 | newStack: MIN_STACK (256) slots and top 0 |
| Stack.Stack.IsEmpty | stack.h:31 | emptyS holds exactly when no entry is live |
| Stack.Stack.Pop | stack.c:28-35 | pop gives None on an empty stack and leaves top at 0; otherwise it gives the top entry and removes only it |
| Stack.Stack.Push | stack.c:40-50 | push stores i on top of the live entries; when the array is full it first doubles its size, keeping every entry |
| Stack.PushPop | stack.c:28-50 | a push followed by a pop gives back the pushed item and the previous contents |
| Codes.SetBit | code.h:79-84 | setting or clearing bit i of a byte makes bit i the given value |
| Codes.SetBitOther | code.h:79-84 | the other bits of the byte are left alone |
| Codes.PendingAt | code.h:9-12 | bit i of a packed bit string is bit i % 8 of byte i / 8, LSB first |
| Codes.PendingSet | code.h:79-86 | storing v at position p of the first p bits gives those p bits followed by v |
| Codes.BitsOfConcat | code.h:88 | writing two byte strings one after the other writes their bits in order |
| Codes.BitAppended | code.h:79-86 | one bit more at codeP extends the file's bit stream followed by the buffer's first codeP bits by that bit |
| Codes.PendingPrefix | code.h:68 | the first codeP bits of the buffer lie within its first codeP / 8 + 1 bytes |
| Codes.NewCode | code.h:17-24 | newCode has length 0 and every bit cleared |
| Codes.PushCode | code.h:26-37 | pushCode fails and leaves the code unchanged exactly when it is full; otherwise it appends the bit k != 0 |
| Codes.PopCode | code.h:39-47 | popCode fails and leaves k and the code unchanged exactly at length 0; otherwise it removes the last bit and gives it as 0 or 1 |
| Codes.PushThenPop | code.h:26-47 | pushing k then popping gives k != 0 as 0 or 1 and restores the length and bits |
| Codes.EmptyCode | code.h:49-51 | emptyCode holds exactly when the code has no bits |
| Codes.FullCode | code.h:53-55 | fullCode holds exactly when the code is at capacity, which is when neither bit can be pushed |
| Codes.BitWriter.constructor | code.h:61-63 | the writer starts with an empty buffer, codeP and codeC at 0, and nothing written |
| Codes.BitWriter.AppendCode | code.h:76-93 | appendCode adds c.l to codeC, appends the code's bits to the stream in index order, and writes only whole KB-byte blocks |
| Codes.BitWriter.PutBit | code.h:79-90 | one pass of the loop adds one bit to the stream; when the buffer fills, exactly KB bytes are written and codeP restarts at 0 |
| Codes.BitWriter.StoreBit | code.h:79-84 | the bit at codeP of the buffer gets the value v |
| Codes.BitWriter.Advance | code.h:86 | codeP moves one bit on and the stored bit joins the stream; the buffer, codeC and the file are unchanged |
| Codes.BitWriter.WriteFull | code.h:87-90 | a full buffer is written out whole and codeP returns to 0, the stream unchanged |
| Codes.BitWriter.FlushCode | code.h:67-70 | flushCode writes codeP / 8 + 1 bytes of the buffer; the file then holds the whole stream followed by 1 to 8 stale bits |
| BlockWrite.BlocksGrow | encode.c:69-74 | writing nothing or one more whole block keeps the output a whole number of blocks |
| BlockWrite.BlockWriter.constructor | encode.c:64-65 | the static buffer starts empty with blkP 0 |
| BlockWrite.BlockWriter.Put | encode.c:67-74 | one byte goes into the buffer; a full buffer goes to the file as one BLK block |
| BlockWrite.BlockWriter.BufferedWrite | encode.c:63-83 | the bytes are handed over in order; without flush only whole blocks reach the file; a flush writes the rest and leaves blkP 0 |
| TreeBuild.Occ | encode.c:51-57 | definition of the occurrences of a byte value in the file, which freqCnt adds to hist; at most the file's length; see FreqCnt |
| TreeBuild.OccPositive | encode.c:51-57 | every byte of the file is counted at least once |
| TreeBuild.Histogram | encode.c:44-61 | the histogram has 256 entries |
| TreeBuild.NonZeroSet | encode.c:53-56 | changing one histogram entry changes the count of nonzero entries by that entry alone |
| TreeBuild.WrapInc | encode.c:54 | the uint8 counter increments modulo 256 |
| TreeBuild.CountStep | encode.c:53-56 | the counter goes up, modulo 256, exactly when an entry goes from zero to nonzero |
| TreeBuild.CountByte | encode.c:53-56 | one byte adds one to its histogram entry and keeps unique the number of new nonzero entries, modulo 256 |
| TreeBuild.FreqCnt | encode.c:44-61 | hist[k] grows by the occurrences of k in the file, and unique is the number of entries that became nonzero, modulo 256 |
| TreeBuild.StandIns | encode.c:96-107 | definition of the stand-ins; the histogram keeps 256 entries; see StandInsTwo for what they achieve |
| TreeBuild.StandInsTwo | encode.c:96-107 | after the stand-ins at least two entries are nonzero, even with all 256 symbols present; only 0x00 and 0xFF change, each by at most one |
| TreeBuild.AddStandIns | encode.c:96-107 | the method changes the histogram array to StandIns of it |
| TreeBuild.Selected | encode.c:111-116 | at most one leaf is selected per symbol |
| TreeBuild.SelectedSyms | encode.c:111-116 | each symbol i with fullTree or hist[i] > 0 is a leaf exactly once, and no other symbol is |
| TreeBuild.SelectedNext | encode.c:112-115 | symbol i adds its leaf to the selection and the queue exactly when fullTree or hist[i] > 0 |
| TreeBuild.SelectedAtLeast | encode.c:111-116 | there are at least as many leaves as nonzero entries |
| TreeBuild.SelectedSize | encode.c:111-116 | there is one symbol per leaf |
| TreeBuild.EnqueueLeaves | encode.c:111-116 | the loop enqueues the selected leaves in symbol order, counts them in leaves (at most 256), and no enqueue into the 257-slot queue fails |
| TreeBuild.InsertAllSorted | encode.c:113 | the queue stays sorted under repeated enqueues |
| TreeBuild.InsertAllForest | encode.c:113 | repeated enqueues hold exactly the enqueued leaves, symbols and weight |
| TreeBuild.ForestInsert | encode.c:137 | enqueueing a tree adds its leaves, symbols and weight to the queue's |
| TreeBuild.ForestPair | encode.c:133-137 | the join of two dequeued trees holds their leaves, symbols and weight |
| TreeBuild.Merge | encode.c:128-142 | definition of the merge loop on the queue's contents; it gives a tree exactly when the queue is not empty; see MergeForest |
| TreeBuild.MergeForest | encode.c:130-142 | the merge loop gives a tree exactly when the queue is not empty; that tree has the queue's leaves, symbols and total count, and is interior when there were two entries or more |
| TreeBuild.MergeQueue | encode.c:128-142 | the merge loop on the queue object ends with an empty queue and gives Merge of its contents |
| TreeBuild.UniqueValue | encode.c:88 | freqCnt's result is the number of distinct bytes modulo 256 |
| TreeBuild.LeafSetShape | encode.c:88-116 | buildTree enqueues between 2 and 256 leaves with distinct symbols, one for every byte of the file |
| TreeBuild.BuiltTreeShape | encode.c:85-143 | buildTree returns an interior root whose leaves are the enqueued leaves, with distinct symbols covering every byte of the file and 2 to 256 leaves |
| TreeBuild.QueueLeaves | encode.c:86-116 | counting, the stand-ins and the enqueue loop leave the queue holding the leaf set, inserted in order, and leaves its size |
| TreeBuild.BuildTree | encode.c:85-143 | buildTree returns the built tree; leaves counts the enqueued leaves and treeBytes is 3 leaves - 1; the header gets the conditionally swapped tree size and is written and flushed |
| TreeBuild.ZeroNonZero | encode.c:86 | the zeroed histogram has no nonzero entry |
| TreeCodec.Dump | encode.c:145-159 | definition of dumpTree's output; it is at least two bytes long and starts with an 'L', the tag of the leftmost leaf; see DumpPostOrder and LoadDump |
| TreeCodec.DumpPostOrder | encode.c:145-159 | dumpTree writes the tags of the nodes in post order, 3L - 1 bytes for L leaves |
| TreeCodec.DumpTree | encode.c:145-159 | the method hands exactly Dump(t) to the block writer, without a flush |
| TreeCodec.Reload | decode.c:43-64 | the reloaded tree is a leaf exactly when the original is |
| TreeCodec.ReloadShape | decode.c:43-64 | reloading keeps the shape, symbols, leaf count and depth; every leaf count becomes 1 and every interior count is the sum of its children |
| TreeCodec.SameShapeReload | decode.c:43-64 | trees of the same shape reload to the same tree |
| TreeCodec.Scan | decode.c:42-67 | definition of loadTree's scan and its stack; a successful scan holds at most one more entry per byte scanned; see ScanDump and LoadTree |
| TreeCodec.Load | decode.c:38-72 | definition of loadTree's result; an empty saved tree gives no tree, and a single byte is always rejected; see LoadDump, LoadErrors and LoadTree |
| TreeCodec.ScanDump | decode.c:42-67 | scanning a dumped tree pushes its reloaded copy on the stack |
| TreeCodec.ScanLeaf | decode.c:43-46 | an 'L' consumes the next byte and pushes a leaf of count 1 with that symbol |
| TreeCodec.ScanNode | decode.c:48-64 | any other tag pops the right then the left child and pushes their join |
| TreeCodec.LoadDump | decode.c:38-72 | loadTree on dumpTree's output gives a tree of the same shape and symbols, the counts reloaded |
| TreeCodec.LoadErrors | decode.c:43-62 | an interior tag with fewer than two entries is "Incorrect tree"; a trailing 'L' overruns; an empty saved tree gives no tree |
| TreeCodec.LoadIgnoresResidue | decode.c:69-71 | entries left below the top are not checked: two dumped trees load as the second |
| TreeCodec.LoadTree | decode.c:38-72 | the loop with the stack gives exactly Load of the saved bytes, errors included |
| CodeTable.HasSyms | encode.c:161-165 | a symbol is on a leaf exactly when it is in the tree's symbol multiset |
| CodeTable.PathOfIsPath | encode.c:161-180 | the path to a symbol's leaf leads there, is at most the depth long, and is nonempty under an interior root |
| CodeTable.IsPathHas | encode.c:163-164 | a path ends at a leaf of its symbol |
| CodeTable.IsPathUnique | encode.c:161-180 | with distinct symbols there is one path to each symbol |
| CodeTable.PathsPrefixFree | encode.c:161-180 | a root-to-leaf path that begins another is the same path, to the same leaf |
| CodeTable.BuildCode | encode.c:161-180 | definition of buildCode on the table; it keeps every entry already present; see BuildCodeStores, BuildCodeKeeps and CodesPrefixFree |
| CodeTable.ChildCodes | encode.c:169-175 | the left child gets s plus 0; after the pop, the right child gets s plus 1 |
| CodeTable.BuildCodeKeeps | encode.c:161-180 | buildCode leaves the entries of symbols not in the tree as they were |
| CodeTable.BuildCodeStores | encode.c:161-180 | when every path fits in the code, each symbol of the tree gets s followed by its path |
| CodeTable.CodesPrefixFree | encode.c:161-180 | from a fresh code, every symbol's code is its root-to-leaf path, nonempty under an interior root, and no symbol's code is a prefix of another's |
| Encode.EncodeBits | encode.c:189-194 | definition of encodeFile's code bits: the code of each byte in turn; they begin with the first byte's code; see EncodeConcat and EncodeFile |
| Encode.CoversSplit | encode.c:189-193 | both parts of a covered input are covered |
| Encode.EncodeConcat | encode.c:189-193 | the code bits of a concatenation are the code bits of each part in turn |
| Encode.EncodeSnoc | encode.c:190-191 | encoding one more byte appends its code |
| Encode.EncodeFile | encode.c:182-196 | the stream grows by the codes of the input bytes in order, codeC by their number; after the flush the output holds the stream and 1 to 8 stale bits |
| Decode.BitValue | decode.c:90 | `(b >> i) & 0x1` is bit i of b |
| Decode.ReaderStep | decode.c:90-91 | the next bit handed out is bit bitNo % 8 of byte bitNo / 8, and the rest follows it |
| Decode.BitReader.constructor | decode.c:77-80 | the reader starts with nothing buffered; the bits it will hand out are those of the whole input |
| Decode.BitReader.Read | decode.c:84 | read fills the buffer with the next min(KB, remaining) bytes of the input |
| Decode.BitReader.Refill | decode.c:83-89 | refilling an exhausted buffer fails exactly when nothing is left; otherwise the remaining bits are unchanged |
| Decode.BitReader.NextBit | decode.c:74-93 | nextBit gives -1 exactly when no bits are left; otherwise it gives the next bit, LSB first within each byte, and removes only it |
| Decode.Walk | decode.c:106-121 | definition of decodeFile's walk; on success it emits at most len symbols, and no more than there are bits; see WalkBounds, DecodeFile and Compressor.WalkEncoded |
| Decode.WalkStep | decode.c:109-120 | one step goes left on 0 and right on 1, and at a leaf emits its symbol and restarts at the root |
| Decode.WalkBounds | decode.c:106-121 | under an interior root the walk never fails and emits at most len symbols, and no more than there are bits |
| Decode.WalkEdges | decode.c:106-112 | a single-leaf root fails on the first bit; nothing is decoded when len is 0 or no bits are left |
| Decode.Descend | decode.c:109-120 | one pass of the loop advances the walk by one bit, handing a reached symbol to the output buffer |
| Decode.DecodeFile | decode.c:95-128 | decodeFile succeeds exactly when the walk does; it then flushes, and the output is the walk's symbols; the walk's failure is reported as the crash |
| Compressor.DecodeCodes | decode.c:233 | the decoder run on the code bytes with a fresh reader and writer gives the walk of their bits |
| Compressor.RestoreFile | decode.c:221-233 | loading the saved tree and decoding the rest gives Restore: an error for a rejected or empty tree, otherwise the decoded bytes |
| Compressor.Decompress | decode.c:187-233 | the decoder's main gives Decompressed: short header, bad magic, short tree, loadTree's errors, the crash, or the restored file and permissions |
| Compressor.SameShapePath | decode.c:109-112 | trees of the same shape have the same paths |
| Compressor.PathToLeaf | decode.c:112-114 | a path from a leaf is empty and names that leaf's symbol |
| Compressor.WalkPath | decode.c:106-120 | walking a symbol's path from the root emits that symbol and continues at the root on the remaining bits |
| Compressor.WalkCons | decode.c:106-121 | the path to s, followed by bits that decode to rest, decodes to s and then rest |
| Compressor.CodesArePathsDrop | encode.c:189-191 | every code in the rest of the input is still a path |
| Compressor.WalkEncoded | decode.c:95-128 | walking the concatenated codes of S followed by any bits, with len = \|S\|, emits exactly S, since every code is a path |
| Compressor.InputInTree | encode.c:85-143 | every byte of the file is a symbol of the built tree |
| Compressor.TableDecodes | encode.c:161-180 | each symbol's code is its path in the tree loadTree rebuilds |
| Compressor.HeaderPart | decode.c:188-217 | a header with the magic number and the saved tree's size, written on either host, hands the saved tree and the rest of the file to loadTree and decodeFile |
| Compressor.CodesDecode | decode.c:233 | bytes that start with the code bits of S decode to S |
| Compressor.BuiltCodesDecode | encode.c:295-300 | buildCode's table for the built tree covers the file, and each code is the path to its byte in the reloaded tree |
| Compressor.TreePart | decode.c:221-233 | the dumped tree followed by bytes starting with the file's code bits restores the file |
| Compressor.FileRoundTrip | encode.c:287-307 | header, dumped tree and code bytes laid out as the encoder writes them decode to the file and its permissions on either host |
| Compressor.HeaderFields | encode.c:288-292 | main's header with the tree size buildTree fills in is the canonical form of the full header |
| Compressor.WriteHead | encode.c:288-304 | the encoder writes the canonical header image followed by the dumped built tree |
| Compressor.WriteCodes | encode.c:305-307 | encodeFile's bytes start with the code bits of the file and carry 1 to 8 bits more |
| Compressor.Compress | encode.c:287-307 | what the encoder writes decodes, on a little- or a big-endian host, to the file and its permission bits |

## Left out

- Command line, file opening, `fstat`/`fchmod`, `close`, `exit`, `perror`, the temporary file and the stdin copy (encode.c:32-40, encode.c:246-262): process and file-system I/O. The file is a `seq<bv8>`. Its size and permission bits are parameters.
- `usage.c`, `entropy.c`, `printTree` and the verbose statistics: reporting on stderr, with floating point in the entropy and the percentages.
- `isBig`/`isLittle` (endian.h:7-23): the host's byte order is found by type punning in C; here it is the parameter `big`.
- `sizes.h` is not part of this model. `KB`, `BLK` and `CODE` are the positive parameters `kb`, `blk` and `width`, with `width` the number of bytes of a code (`CODE / 8`). The end-to-end result assumes `CODE >= 256` bits.
- Allocation failures in `newNode`, `newQueue`, `newStack` and `push`, and all freeing (`delQueue`, `delStack`, `delNode`): memory management has no counterpart in the model.
- `newNode` (huffman.c:10-22) has no member of its own. A leaf node is the datatype value `Leaf(s, c)`, built with no children. Interior nodes exist only through `Huffman.Join`, so the `'$'` symbol an interior node carries is not modelled.
- `delTree` frees memory, so only its order of visits is modelled (`Huffman.PostOrder`).
- Raw `read`/`write` calls:
  - the short-read retry loop for the saved tree (decode.c:209-217), and the header read as a raw struct, are modelled as slices of the file;
  - `freqCnt` and `encodeFile` read the file `KB` bytes at a time, and the model reads all of it at once;
  - `write` never fails in the model, so `BlockWrite.BlockWriter.BufferedWrite` always returns true.
- Integer widths:
  - histogram counts and the queue's counts are unbounded, so the 64-bit wrap of a count is not modelled;
  - `codeC` is unbounded and nothing reads it;
  - `unique`'s 8-bit wrap and the uint32 arithmetic of `succ`/`pred` are modelled exactly;
  - the queue needs fewer than 2^31 slots (buildTree uses 257).
- Priority.Insert: orders by `Huffman.CompareCounts`, the sign of the count difference, while `enqueue` uses `compare`. `Priority.InsertAsWritten` is the insertion as the source writes it. The two are equal while every count is below 2^31 (`Priority.InsertAgrees`). Beyond that, see Findings.
- Codes.BitWriter.FlushCode: does not ensure `Valid()` afterwards. Like the source, it leaves `codeP` where it was after writing the partial buffer, so the state no longer describes a writer that could go on.
- Decode.BitReader.NextBit: after it returns -1 the buffer length is 0 and the state no longer satisfies `Valid()`, as in the source. The model does not describe calls after that point.
- Decode.DecodeFile: a single-leaf tree makes the source dereference a NULL child. The model reports it as the error `NullChild` and leaves the output unflushed. When the bits run out before `len` symbols, the output is silently short, as in the source.
- TreeCodec.LoadTree: on an `'L'` as the last byte, the source reads one byte past the saved tree. The model reports it as the error `Overrun`.
- CodeTable.BuildCode: the array `c[]` is a map from symbol to code. Entries buildCode never writes are absent rather than uninitialised. The results of `pushCode`/`popCode` are ignored, as in the source. Codes are proved correct for trees no deeper than `CODE`; a deeper tree, which the stand-ins and 256 symbols rule out when `CODE >= 256`, is not analysed.
- The encoder's main computes the code table before dumping the tree. Both are pure in the model, so `Compressor.Compress` computes the table after the head is written.
- Endian.Word16Value: `treeBytes` is converted to a uint16 byte by byte, and `Endian.Value16` reads a uint16 back as a number.
- The header's `file_size` is the parameter `origSize` of type bv64, equal to the input's length, as `fstat` reports it.

## Findings

| source | as written | input that shows it | evidently intended | confidence | as-written member | corrected member |
|---|---|---|---|---|---|---|
| huffman.h:38-40 | `compare` returns `(int)(l->count - r->count)`, the low 32 bits of the 64-bit difference as a signed int | full-tree option on a file of 2^31 bytes all 0x41: leaf 0x42 (count 0) is compared with leaf 0x41 (count 2^31), compare gives -2^31, and `enqueue` leaves 0x42 behind 0x41, out of count order | the sign of the difference of the counts (`Huffman.CompareCounts`, used by `Priority.Insert`), so the queue stays in ascending count order for any file size | not executed | Priority.InsertMisorders | Priority.InsertSorted |
