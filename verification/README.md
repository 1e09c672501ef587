# Verified models of the arithmetic, container, worker and parser code

This project models the hard, self-contained logic of the libraries that are
built into the application: the multi-precision integers of mbedtls, its
streaming block cipher interface, its DER and Base64 code; libuv's intrusive
queues, red-black and splay trees, binary heaps, worker pool and address
conversion; and the JSON tokenizer. `dafny verify dfyconfig.toml` checks
everything.

**Multi-precision integers** (`powers.dfy` to `modinv.dfy`). A number is a
sign and a sequence of limbs below a base of 2^32 or 2^64; one record is one
object, so an operation may be called with the same record as operand and
result, as the source allows. Every operation is proved against one equation on
integers. On top of addition, subtraction, multiplication and shifts stand
Knuth's division with its trial digits, Montgomery multiplication with the
Newton iteration for its constant, sliding-window exponentiation, the binary
gcd and the extended binary gcd.

**Worker pool** (`threadpool.dfy`, `pool_order.dfy`, `queue.dfy`). Any number of workers and one
loop thread take atomic steps: one lock or unlock, or one access to shared
state under the locks that the source holds there. Spurious wake-ups are
allowed. An inductive invariant over all interleavings gives the properties of
every run: where requests can be, which callbacks run, what a cancel means, who
gets woken, how the pool ends, and that there is no deadlock: whenever a mutex
is held or the queue is not empty, somebody has a step to take. Scheduling
itself is not modelled, so no step is promised to be taken. In which order
requests are served is stated on the steps of a run alone: first come, first
served, for the workers and for the done callbacks. The queue macros are proved
to implement the sequences that the protocol works on.

**Red-black trees** (`rb_shape.dfy`, `rb_memory.dfy`, `rb_insert.dfy`,
`rb_remove.dfy`, `rb_tree.dfy`). Nodes are objects with left, right and parent
pointers and a colour. A position in the tree is a subtree and the path above
it; a tree is in memory when the pointers of every node on the path and in the
subtree agree with it. Single writes and rotations are described on memory
first, and the two mirror images of every macro and branch are written once,
with the side as a parameter.

**Splay tree** (`splay.dfy`). While a tree is splayed it is in three pieces:
what is left of it and two spines of nodes put aside, which hang on one header
node. Every step of the search keeps the order of all nodes together, and the
final assembly is proved with its writes in the order of the macro, since the
header may itself be the last node of either spine.

**Binary heap** (`heap.dfy`). The level order of the nodes is a sequence; the
links are those of the complete tree with that level order.

**Streaming CBC** (`cbc.dfy`, `cbc_law.dfy`, `cipher.dfy`). The block cipher is
any pair of inverse block functions. The context keeps a history of what it has
read and written; the invariant says that the output so far is the chaining of
the input so far, except for what is cached. What chaining and padding compute
is proved block by block, with the exclusive or of bit-vectors.

**JSON tokenizer** (`jsmn.dfy`, `jsmn_items.dfy`, `jsmn_brackets.dfy`,
`json_text.dfy`). The parser is a class that works on the caller's token array
and is proved against a step function on its state, running out of tokens
included. Where strings and primitives end is characterised by their characters,
and success exactly by complete items, enough tokens and balanced brackets. A
grammar of printed values, with all their blanks, says what the tokens of a text
should be; the texts of RFC 8259 are among them.

**Addresses** (`inet_read.dfy`, `inet_grammar.dfy`, `inet.dfy`). The readers are
proved to accept exactly a grammar of addresses and to return what a spelling
denotes; the printed text is proved to be such a spelling.

**Base64, DER** (`base64.dfy`, `mpi_bytes.dfy`, `der.dfy`, with `bytes.dfy`).
Writers fill an array through a moving pointer, as the source does; readers are
proved against functions on the bytes, with what they accept stated in terms of
the format; and what was written is read back.

Where the code and its comments or the usual expectations differ, the model
follows the code, and the exact condition is proved:

- `mbedtls_mpi_gcd` returns 0 when B is zero and A is not
  (`ModInverse.BinaryGcd`, with 1 and 0 in `ModInverse.ZeroSecond`).
- `mbedtls_mpi_exp_mod` with a negative base and an odd exponent returns the
  modulus itself, and not 0, when the modulus divides the power
  (`ModExp.ExpMod`, `ModExp.NegativeBase`, with the base -3 in
  `ModExp.NegativeBaseFails`). For a base coprime to a modulus above 1 that
  cannot happen.
- In its default build the tokenizer takes `{`, `[` and quotes inside a
  primitive as part of it, so a text such as `[a[]` succeeds
  (`JsmnBrackets.PrimitiveTakesBracket`). After success the brackets outside
  strings are balanced if and only if no primitive contains an opening bracket
  (`JsmnBrackets.OutsideStringsIff`).
- `mbedtls_asn1_write_int` writes only the low byte of its argument: what it
  writes is read back exactly for 0 to 255 (`Der.IntBack`, with 256 in
  `Der.HighByteLost`). The sign of a negative number is not written by
  `mbedtls_asn1_write_mpi`: the number read back is the one written if and only
  if that was not negative (`Der.MpiBack`, with -1 in `Der.MinusOneLost`). For
  zero it looks at the top bit of the byte above the pointer, which must
  therefore exist (`Der.WriteMpi`).
- The test for seven zero groups in `inet_ntop6` is never reached
  (`InternetAddresses.Ntop6`).
- The test `child == heap->min` in `heap_remove` never holds where it stands:
  unlinking the last node has cleared `heap->min` already
  (`Heaps.Heap.Remove`).

## Model

| member | source | states |
|---|---|---|
| Limbs.ValInjective | 3rd/mbedtls/library/bignum.c:808-833 | Two limb arrays of one length with the same value are the same array: the value decides comparisons |
| Mpi.Significant | 3rd/mbedtls/library/bignum.c:812-818 | The scan for the highest non-zero limb finds the least prefix that has the whole value |
| Mpi.CmpAbs | 3rd/mbedtls/library/bignum.c:808-833 | The result is the sign of \|X\| - \|Y\|, whatever leading zero limbs either has |
| Mpi.Cmp | 3rd/mbedtls/library/bignum.c:838-866 | The result is the sign of X - Y; zeros of either sign are equal |
| Mpi.AddAbs | 3rd/mbedtls/library/bignum.c:887-940 | X becomes \|A\| + \|B\| for every aliasing and all lengths; the carry run stays in the grown array |
| Mpi.SubHlp | 3rd/mbedtls/library/bignum.c:945-959 | Subtracting the low limbs of one array from another lets the borrow run no further than the array when the difference is not negative |
| Mpi.SubAbs | 3rd/mbedtls/library/bignum.c:964-1002 | X becomes \|A\| - \|B\|, and the call is refused without a change exactly when that is negative |
| Mpi.Add | 3rd/mbedtls/library/bignum.c:1007-1033 | X becomes A + B with signs, for every aliasing |
| Mpi.Sub | 3rd/mbedtls/library/bignum.c:1038-1064 | X becomes A - B with signs, for every aliasing |
| Mpi.MulHlp | 3rd/mbedtls/library/bignum.c:1109-1168 | One row of the product is added at an offset, and the carry run stays in the array when the total fits |
| Mpi.Mul | 3rd/mbedtls/library/bignum.c:1173-1205 | X becomes A * B with signs, for every aliasing |
| Bits.Clz | 3rd/mbedtls/library/bignum.c:361-376 | The count leaves exactly the bit length of the limb |
| Bits.BitLen | 3rd/mbedtls/library/bignum.c:380-395 | The bit length of the absolute value: the least k with value < 2^k |
| Bits.Lsb | 3rd/mbedtls/library/bignum.c:347-357 | The number of trailing zero bits of a non-zero value, and 0 for zero |
| Bits.ShiftL | 3rd/mbedtls/library/bignum.c:715-760 | The value is multiplied by 2^count and the array grows no more than the result needs |
| Bits.ShiftR | 3rd/mbedtls/library/bignum.c:765-803 | The absolute value is divided by 2^count, rounding down; shifting everything out gives zero |
| LimbDivision.QuotientDigit | 3rd/mbedtls/library/bignum.c:1279-1290 | The guess with the half-limb correction is the exact quotient digit |
| LimbDivision.IntDivInt | 3rd/mbedtls/library/bignum.c:1227-1317 | For u1 < d the half-limb algorithm gives the double-width quotient and remainder, otherwise all ones |
| Division.TruncUnique | 3rd/mbedtls/library/bignum.c:1319-1322 | A = QB + R with \|R\| < \|B\| and R zero or of the sign of A fixes Q and R, and the truncating division satisfies it |
| Division.TestSound | 3rd/mbedtls/library/bignum.c:1371-1391 | A trial digit that fails the three-by-two-limb test is too large |
| Division.TestClose | 3rd/mbedtls/library/bignum.c:1371-1391 | A trial digit that passes the test is at most one too large |
| Division.EstimateHigh | 3rd/mbedtls/library/bignum.c:1364-1370 | The estimate from the top limbs is never too small |
| Division.TrialDigit | 3rd/mbedtls/library/bignum.c:1364-1391 | The digit left in Z is the true quotient digit or one more |
| Division.ReduceDigit | 3rd/mbedtls/library/bignum.c:1393-1405 | One subtraction and at most one add-back leave the exact digit and a reduced remainder |
| Division.LongDivide | 3rd/mbedtls/library/bignum.c:1362-1406 | The digit loop keeps X + Z*Y and ends with X below Y |
| Division.Div | 3rd/mbedtls/library/bignum.c:1322-1432 | Q and R are the truncating quotient and remainder, R may be an operand, and a zero divisor is refused without a change |
| Division.Mod | 3rd/mbedtls/library/bignum.c:1453-1471 | R is A mod B in 0..B-1 for B > 0 whatever the sign of A, with the error codes for the rest |
| Montgomery.NewtonStep | 3rd/mbedtls/library/bignum.c:1543-1544 | One round squares the error of the inverse modulo a power of two |
| Montgomery.MontgInit | 3rd/mbedtls/library/bignum.c:1533-1547 | The constant is minus the inverse of the lowest limb modulo the base |
| Montgomery.LowLimbClears | 3rd/mbedtls/library/bignum.c:1571-1578 | The multiplier u1 makes the lowest limb of the running sum zero |
| Montgomery.DummyFits | 3rd/mbedtls/library/bignum.c:1584-1587 | The subtraction that is done only for equal timing never borrows beyond T |
| Montgomery.MontMul | 3rd/mbedtls/library/bignum.c:1552-1590 | A becomes the reduced A*B/R modulo N, all carries and borrows stay inside A and T, and a T that is too small is refused |
| ModExp.BuildTable | 3rd/mbedtls/library/bignum.c:1691-1714 | The table holds a^k in Montgomery form for every k with the top window bit set |
| ModExp.TakeBit | 3rd/mbedtls/library/bignum.c:1744-1781 | Every one of the three window states keeps X equal to a to the exponent prefix before the open window |
| ModExp.Scan | 3rd/mbedtls/library/bignum.c:1722-1782 | After the scan the exponent is the prefix in X followed by the bits of the open window |
| ModExp.Leftover | 3rd/mbedtls/library/bignum.c:1784-1797 | The left-over bits complete the exponent |
| ModExp.NegativeBase | 3rd/mbedtls/library/bignum.c:1799-1804 | What the correction for a negative base leaves, and exactly when it is not reduced |
| ModExp.NegativeBaseFails | 3rd/mbedtls/library/bignum.c:1799-1804 | For the base -3, the exponent 1 and the modulus 3 the correction leaves 3, while the power is 0 modulo 3 |
| ModExp.CoprimePower | 3rd/mbedtls/library/bignum.c:1799-1804 | A power of a base coprime to a modulus above 1 is never 0 modulo it, so the exception cannot arise |
| ModExp.ExpMod | 3rd/mbedtls/library/bignum.c:1607-1810 | X is congruent to A^E modulo N, and equal to A^E mod N except exactly when A is negative, E odd and N divides the power, which excludes A coprime to N > 1; the R^2 cache is filled or used |
| Divisors.GcdIsGcd | 3rd/mbedtls/library/bignum.c:1812-1815 | The reference gcd divides both numbers and every common divisor divides it |
| Divisors.GcdUnique | 3rd/mbedtls/library/bignum.c:1812-1815 | Nothing else is a greatest common divisor |
| Divisors.GcdStrip | 3rd/mbedtls/library/bignum.c:1839-1840 | Taking twos out of one number does not change the gcd when the other is odd |
| ModInverse.BinaryGcd | 3rd/mbedtls/library/bignum.c:1815-1862 | G is the gcd if and only if B is not zero or A is zero |
| ModInverse.ZeroSecond | 3rd/mbedtls/library/bignum.c:1837-1855 | For 1 and 0 the loop leaves 0, and the gcd is 1 |
| ModInverse.ExtendedRound | 3rd/mbedtls/library/bignum.c:1919-1963 | One round keeps U1*TA + U2*TB = TU and V1*TA + V2*TB = TV, and makes TU + TV smaller |
| ModInverse.InverseNeedsCoprime | 3rd/mbedtls/library/bignum.c:1903-1909 | A number with an inverse is coprime to the modulus: refusing loses nothing |
| ModInverse.InverseUnique | 3rd/mbedtls/library/bignum.c:1888-1891 | There is one inverse in the range of the result |
| ModInverse.InvMod | 3rd/mbedtls/library/bignum.c:1891-1981 | X is the inverse of A modulo N in 0..N-1 exactly when the gcd is 1, with the error codes for the rest |
| Queues.RingUnique | 3rd/libuv/src/queue.h:41-42 | The links determine what a queue holds |
| Queues.Empty | 3rd/libuv/src/queue.h:44-45 | A node is linked to itself exactly when its queue is empty |
| Queues.InsertHead | 3rd/libuv/src/queue.h:83-90 | The node becomes the first of the queue, writing three nodes at most |
| Queues.InsertTail | 3rd/libuv/src/queue.h:92-99 | The node is appended, writing three nodes at most |
| Queues.Remove | 3rd/libuv/src/queue.h:101-106 | Exactly that node goes, wherever it stands, and it keeps its own links |
| Queues.Split | 3rd/libuv/src/queue.h:66-75 | The queue is cut before the node and the rest gets the new header |
| Queues.Move | 3rd/libuv/src/queue.h:77-86 | Everything is under the new header and the old queue is empty |
| Queues.Add | 3rd/libuv/src/queue.h:57-64 | The second queue's nodes are appended to the first |
| ThreadPool.InvKept | 3rd/libuv/src/threadpool.c:56-247 | Every step of every thread keeps the invariant |
| ThreadPool.RunInv | 3rd/libuv/src/threadpool.c:56-247 | The invariant holds in every state of every interleaving; it bounds where requests are, and PoolOrder says in which order they are served |
| ThreadPool.OnePlace | 3rd/libuv/src/threadpool.c:92-101 | A submitted request is in exactly one place, once, until its done callback runs, and that runs once |
| ThreadPool.Outcome | 3rd/libuv/src/threadpool.c:227-247 | The done callback gets UV_ECANCELED exactly when a cancel returned 0; then the work callback never ran, otherwise it ran once |
| ThreadPool.RunsTheCallback | 3rd/libuv/src/threadpool.c:77-90 | A worker only ever calls the user's callback, never null and never the aborting marker, of a request that has not run and is not cancelled |
| ThreadPool.CancelDecides | 3rd/libuv/src/threadpool.c:201-224 | The test in cancel succeeds exactly when no worker has taken the request or an earlier cancel has succeeded |
| ThreadPool.WithoutAt | 3rd/libuv/src/queue.h:101-106 | Taking a request out of the sequence is unlinking the first node that carries it |
| ThreadPool.NoLostWakeup | 3rd/libuv/src/threadpool.c:63-69 | While a worker sleeps unsignalled, every queue entry has a signalled worker, a worker about to take one, or a signal about to be sent; while the global mutex is free, a signalled worker |
| ThreadPool.OrderlyExit | 3rd/libuv/src/threadpool.c:71-84 | The exit message stays queued, last, and a worker that leaves has left no earlier request behind |
| ThreadPool.OneMutexAtATime | 3rd/libuv/src/threadpool.c:53-55 | No worker holds or asks for one mutex while it holds the other |
| ThreadPool.NoDeadlock | 3rd/libuv/src/threadpool.c:201-224 | Whenever a mutex is held, some holder of a mutex can take a step |
| ThreadPool.CompletedRun | 3rd/libuv/src/threadpool.c:227-247 | There is a run in which a request is done with status 0 |
| ThreadPool.CancelledRun | 3rd/libuv/src/threadpool.c:201-224 | There is a run in which a cancel wins and done gets UV_ECANCELED |
| ThreadPool.QueueIsServed | 3rd/libuv/src/threadpool.c:63-84 | While the queue is not empty and a worker remains, somebody can go on without a spurious wake-up |
| PoolOrder.TakenInOrder | 3rd/libuv/src/threadpool.c:63-101 | In every run, whatever was submitted before a request that a worker takes has been taken before it, or cancelled |
| PoolOrder.DoneInOrder | 3rd/libuv/src/threadpool.c:85-247 | In every run, whatever was queued for the loop before a request whose done callback runs, by a worker or by a cancel, has had its own run before, or was cancelled and queued again |
| PoolOrder.WorkLineMoves | 3rd/libuv/src/threadpool.c:63-101 | Every step moves the line of waiting work as its meaning says: a submission joins at the end, a worker takes the first, a won cancel takes its own out, nothing else changes it |
| PoolOrder.DoneLineMoves | 3rd/libuv/src/threadpool.c:85-247 | The same for the line of requests that wait for their done callback, across the move to the local queue |
| RbShape.HeightBound | 3rd/libuv/include/tree.h:297-303 | A red-black tree of n nodes is at most 2 lg(n + 1) high |
| RbMemory.Rotate | 3rd/libuv/include/tree.h:342-380 | A rotation anywhere in the tree gives the rotated tree in memory, with all links and the order right |
| RbMemory.Splice | 3rd/libuv/include/tree.h:568-581 | Cutting out a node with at most one child puts that child in its place |
| RbMemory.Replace | 3rd/libuv/include/tree.h:546-560 | A node that takes over another's fields and place is linked everywhere the other was |
| RbInsertion.UncleRed | 3rd/libuv/include/tree.h:413-419 | The three colour changes leave the same nodes in the same order, with the conflict further up |
| RbInsertion.UncleRedBalanced | 3rd/libuv/include/tree.h:413-419 | After them the subtree is balanced and only its root can conflict with the node above |
| RbInsertion.Outer | 3rd/libuv/include/tree.h:426-427 | Recolouring and rotating the grandparent keeps the order and lifts the parent |
| RbInsertion.OuterBalanced | 3rd/libuv/include/tree.h:426-427 | After that the tree above is balanced and no two red nodes meet |
| RbInsertion.BlackRoot | 3rd/libuv/include/tree.h:445 | Blackening the root completes the red-black rules |
| RbRemoval.SiblingRedBalanced | 3rd/libuv/include/tree.h:457-461 | Below a red sibling the rotation gives a black sibling and keeps the balance |
| RbRemoval.NephewsBlackBalanced | 3rd/libuv/include/tree.h:462-468 | Reddening the sibling moves the missing black node up by one |
| RbRemoval.NearNephew | 3rd/libuv/include/tree.h:470-480 | The first rotation brings the near nephew up, keeping the order |
| RbRemoval.FarNephew | 3rd/libuv/include/tree.h:481-488 | The last rotation moves the sibling to the parent's place, keeping the order |
| RbRemoval.FarNephewBalanced | 3rd/libuv/include/tree.h:481-488 | After it the missing black node is made up for |
| RbTrees.RbTree.InsertColour | 3rd/libuv/include/tree.h:407-446 | From a red node added to a balanced tree the loop reaches a red-black tree with the same order |
| RbTrees.RbTree.Insert | 3rd/libuv/include/tree.h:587-616 | A present key is returned and nothing changes; otherwise the valid tree has exactly one node more |
| RbTrees.RbTree.RemoveColour | 3rd/libuv/include/tree.h:448-521 | From a subtree one black node short, which may be empty, the loop reaches a red-black tree with the same order |
| RbTrees.RbTree.Remove | 3rd/libuv/include/tree.h:523-585 | The valid tree loses exactly the given node |
| RbTrees.RbTree.Find | 3rd/libuv/include/tree.h:618-634 | A node is found exactly when one with the key is in the tree |
| RbTrees.RbTree.FindNext | 3rd/libuv/include/tree.h:636-656 | The least node not below the key, null exactly when all are below |
| RbTrees.RbTree.Next | 3rd/libuv/include/tree.h:658-679 | The next node in key order, null exactly for the last one |
| RbTrees.SortedUnique | 3rd/libuv/include/tree.h:297-303 | The set of nodes determines the order in which a valid tree holds them |
| SplayTrees.Rotate | 3rd/libuv/include/tree.h:88-98 | Rotating the root keeps all three pieces in memory, whatever hangs on the header, and the order of all nodes |
| SplayTrees.PutAside | 3rd/libuv/include/tree.h:100-110 | Linking the root to a spine keeps the pieces in memory and the order of all nodes, also when the spine was only the header |
| SplayTrees.Assemble | 3rd/libuv/include/tree.h:112-117 | After the four writes the memory holds one tree with the spines folded under the root, for every aliasing of the header with the ends of the spines |
| SplayTrees.WholeNodes | 3rd/libuv/include/tree.h:112-117 | That tree has all nodes of the three pieces in order |
| SplayTrees.WholeClosest | 3rd/libuv/include/tree.h:218-240 | When the search ends the root has the key, or no node lies between the key and the root |
| SplayTrees.SplayTree.Splay | 3rd/libuv/include/tree.h:209-278 | Splaying ends, keeps the in-order sequence, and brings a closest node to the root |
| SplayTrees.SplayTree.Find | 3rd/libuv/include/tree.h:128-137 | A node with the key is returned exactly when there is one |
| SplayTrees.SplayTree.MinMax | 3rd/libuv/include/tree.h:153-158 | The first or last node, null exactly for the empty tree |
| SplayTrees.SplayTree.Insert | 3rd/libuv/include/tree.h:164-186 | A present key is returned and no node added; otherwise exactly that node is added, and the tree stays ordered |
| SplayTrees.SplayTree.Remove | 3rd/libuv/include/tree.h:188-207 | Exactly the node with the key goes, and the result is null exactly when there is none |
| Heaps.SwapRep | 3rd/libuv/src/heap-inl.h:72-107 | The pointer surgery of a swap exchanges two positions of the complete tree and nothing else |
| Heaps.PathTo | 3rd/libuv/src/heap-inl.h:124-128 | The path bits lead to the position they were computed from |
| Heaps.UpStep | 3rd/libuv/src/heap-inl.h:150-151 | One step up moves the only possible disorder up |
| Heaps.DownStep | 3rd/libuv/src/heap-inl.h:219-228 | Swapping with the lesser child moves the disorder down and repairs the place above |
| Heaps.Heap.Insert | 3rd/libuv/src/heap-inl.h:109-152 | The heap stays complete, linked and ordered and has exactly one node more |
| Heaps.ReplaceOrder | 3rd/libuv/src/heap-inl.h:195-213 | With the last node in the place of the removed one only that place can be out of order |
| Heaps.Heap.Remove | 3rd/libuv/src/heap-inl.h:154-237 | The heap stays complete, linked and ordered and loses exactly the node |
| Heaps.Heap.MinIsLeast | 3rd/libuv/src/heap-inl.h:68-70 | The minimum is null for the empty heap and otherwise no node is less |
| Heaps.Heap.Dequeue | 3rd/libuv/src/heap-inl.h:239-241 | A least node goes, and no other |
| Cbc.ChainAppend | 3rd/mbedtls/library/cipher.c:382-393 | Chaining a string is chaining its parts one after the other |
| Cbc.ChainInverse | 3rd/mbedtls/library/cipher.c:666-671 | CBC decryption undoes CBC encryption |
| Cbc.PaddedIff | 3rd/mbedtls/library/cipher.c:470-492 | A block is well padded exactly when it is the padding of something, and then of its first part |
| CbcLaw.XorOfBytes | 3rd/mbedtls/library/aes.c:909-924 | The exclusive or of the chaining is the one of bit-vectors |
| CbcLaw.EncryptedBlock | 3rd/mbedtls/library/aes.c:918-932 | Every ciphertext block is the enciphered exclusive or of its plaintext block and the ciphertext block before, the initial value for the first |
| CbcLaw.DecryptedBlock | 3rd/mbedtls/library/aes.c:902-917 | Every plaintext block is the exclusive or of the deciphered block and the ciphertext block before |
| CbcLaw.EncryptionLaw | 3rd/mbedtls/library/cipher.c:812-835 | One-shot encryption gives those blocks for the message followed by 1 to size bytes that hold their number, or without padding for the message itself, which is refused unless it is whole blocks |
| CbcLaw.DecryptionLaw | 3rd/mbedtls/library/cipher.c:812-835 | One-shot decryption gives those blocks less the padding that their last byte announces; a bad padding, an incomplete block and an empty padded text are refused |
| CipherStream.GetPkcsPadding | 3rd/mbedtls/library/cipher.c:470-492 | The padding check accepts exactly the well padded blocks and finds the length of the data |
| CipherStream.RoundTrip | 3rd/mbedtls/library/cipher.c:812-835 | Decrypting the encryption of any message gives the message |
| CipherStream.CipherContext.Update | 3rd/mbedtls/library/cipher.c:270-402 | After any update the output so far is the chaining of the input so far but for the cache, whose length is bounded |
| CipherStream.CipherContext.Finish | 3rd/mbedtls/library/cipher.c:626-697 | With the earlier output this is the one-shot transformation of everything read, with its error codes |
| CipherStream.CipherContext.Crypt | 3rd/mbedtls/library/cipher.c:812-835 | The packet function is the one-shot transformation of EncryptionLaw and DecryptionLaw |
| CipherStream.Feed | 3rd/mbedtls/library/cipher.c:270-402 | Every cutting of a message into updates gives the one-shot transformation |
| CipherStream.AnyCutting | 3rd/mbedtls/library/cipher.c:270-402 | Any cutting of the ciphertext of any cutting decrypts to the message |
| Jsmn.CountAgrees | 3rd/jsmn/jsmn.c:156-303 | The count of a call without tokens is the number of tokens a successful call uses |
| Jsmn.EnoughRoom | 3rd/jsmn/jsmn.c:6-19 | Unless it runs out of tokens, a call with more room gives the same result and tokens |
| Jsmn.Resume | 3rd/jsmn/jsmn.c:151-303 | After running out of tokens, going on with more room gives what one call with that room gives |
| Jsmn.RetriedIsOne | 3rd/jsmn/jsmn.c:151-303 | However often parsing stops for want of tokens, the final result and tokens are those of one call with enough |
| Jsmn.SpansNest | 3rd/jsmn/jsmn.c:182-230 | On success every token has an end and the spans of any two tokens are nested or disjoint, in the order of the tokens |
| JsmnItems.StringIs | 3rd/jsmn/jsmn.c:84-145 | A string is complete exactly when units, each one other character or one of the escapes, lead to a quote, and refused exactly when they lead to a backslash that begins none |
| JsmnItems.PrimitiveIs | 3rd/jsmn/jsmn.c:35-82 | A primitive ends at the first of tab, return, newline, space, comma, colon, closing brackets and the end of the text, and is refused exactly when a character that is not printable comes first |
| JsmnBrackets.ItemIs | 3rd/jsmn/jsmn.c:158-270 | Which characters are items by themselves, which begin a token, and where each item ends, in terms of the characters alone |
| JsmnBrackets.CountIsItem | 3rd/jsmn/jsmn.c:156-270 | One round of counting is one item, counted if it begins a token; an incomplete item is told from a wrong one |
| JsmnBrackets.FailureIs | 3rd/jsmn/jsmn.c:158-302 | Which error a failing run gives: part for a text that ends too early, invalid for a wrong item or a closing bracket that does not fit, no memory for a complete item without a token |
| JsmnBrackets.SuccessIffBalanced | 3rd/jsmn/jsmn.c:158-302 | A text succeeds exactly when its strings and primitives are complete, there are enough tokens, and its brackets outside both are balanced with matching kinds |
| JsmnBrackets.RunBalances | 3rd/jsmn/jsmn.c:158-302 | The same from any state: the remaining brackets must close what is open, the last first |
| JsmnBrackets.ContainersSpan | 3rd/jsmn/jsmn.c:164-230 | On success every container token goes from an opening bracket of its kind to a closing one |
| JsmnBrackets.OutsideStringsIff | 3rd/jsmn/jsmn.c:42-56 | After success the brackets outside strings are balanced if and only if no primitive contains an opening bracket |
| JsmnBrackets.PrimitiveTakesBracket | 3rd/jsmn/jsmn.c:42-56 | A text whose brackets outside strings are not balanced and that succeeds all the same |
| Jsmn.Parser.Parse | 3rd/jsmn/jsmn.c:151-303 | The loop over the token array does what the step function says, from any resumed state, and returns the number of tokens or the error code |
| Jsmn.Parser.ParseWithoutTokens | 3rd/jsmn/jsmn.c:151-303 | Without tokens the call returns the count or the error code, leaves the parser where the text ends or the bad item begins, and allocates nothing |
| JsonText.ParsesJson | 3rd/jsmn/jsmn.c:84-303 | Every printed value is accepted and the tokens are its preorder listing: kind, span, number of children, one child for each key |
| JsonText.JsonIsValid | 3rd/jsmn/jsmn.c:84-303 | The texts of RFC 8259, with its numbers, literals, escapes and blanks, are such printed values |
| JsonText.CountsJson | 3rd/jsmn/jsmn.c:156-170 | The count without tokens is the size of that listing |
| JsonText.ObjValSize | 3rd/jsmn/jsmn_wrapper.c:218-242 | At the token of any value the recursion gives the number of tokens of its subtree |
| AddressGrammar.RoundTrip4 | 3rd/libuv/src/inet.c:186-222 | Every IPv4 address is read back from its text |
| AddressReaders.Pton4 | 3rd/libuv/src/inet.c:186-222 | The loop over the octet buffer stays in its four bytes and computes the reading function, refusals included |
| AddressGrammar.Parse4Iff | 3rd/libuv/src/inet.c:186-222 | The only text that is read as an IPv4 address is its own: four decimal numbers without leading zeros between dots |
| AddressGrammar.NumeralMeans | 3rd/libuv/src/inet.c:54-139 | The digits of "%u" and "%x" are small, have the value, and do not begin with a zero |
| InternetAddresses.Ntop4 | 3rd/libuv/src/inet.c:53-65 | The text is given exactly when it fits, 16 bytes always suffice, and it is read back |
| InternetAddresses.BestRun | 3rd/libuv/src/inet.c:89-112 | The run chosen for "::" is the first of the longest runs of two or more zero groups |
| AddressReaders.Shift | 3rd/libuv/src/inet.c:289-304 | The overlapping shift moves every byte after the "::" to the end and leaves zeros between |
| AddressReaders.Pton6 | 3rd/libuv/src/inet.c:225-309 | The loop stays in its sixteen bytes and computes the reading function, refusals included |
| AddressGrammar.SpellingIsRead | 3rd/libuv/src/inet.c:225-309 | Every spelling of an address, groups of one to four digits of either case with at most one "::" and an IPv4 address for the last two, is read as the address it denotes |
| AddressGrammar.OnlySpellings | 3rd/libuv/src/inet.c:225-309 | Whatever is read as an address is a spelling of it |
| AddressGrammar.Parse6Iff | 3rd/libuv/src/inet.c:225-309 | A text is read as an address if and only if it is a spelling of that address |
| InternetAddresses.SpreadBack | 3rd/libuv/src/inet.c:289-304 | An address with a run of zero groups cut out is put together again by the shift |
| InternetAddresses.RoundTrip6 | 3rd/libuv/src/inet.c:68-154 | Every IPv6 address is read back from its text, with "::" anywhere and with an embedded IPv4 address, and the text fits 46 bytes |
| InternetAddresses.TextSpells | 3rd/libuv/src/inet.c:68-154 | The printed text is a spelling with "::" for exactly the chosen run and the groups as "%x" prints them |
| InternetAddresses.QuadIsShown | 3rd/libuv/src/inet.c:129-137 | Only the addresses ::a.b.c.d with a or b not zero and ::ffff:a.b.c.d are printed with dots, and just so |
| InternetAddresses.Ntop6 | 3rd/libuv/src/inet.c:68-154 | The loop never leaves its buffer, gives that text exactly when it fits, and the text is read back |
| InternetAddresses.PtonZoned | 3rd/libuv/src/inet.c:164-178 | The part before "%" is read, and refused when it does not fit the local buffer |
| InternetAddresses.ZonedIff | 3rd/libuv/src/inet.c:164-178 | Accepted are the spellings of addresses, alone or, when at most 45 characters long, with "%" and anything after it |
| InternetAddresses.RoundTripZoned | 3rd/libuv/src/inet.c:164-178 | An address with any zone after it is read back |
| Base64.FirstPassAccepts | 3rd/mbedtls/library/base64.c:151-187 | The first pass accepts exactly the texts of digits and at most two final padding signs, laid out in lines, and counts their symbols |
| Base64.WritesAtMostNeeded | 3rd/mbedtls/library/base64.c:195-225 | For every accepted text the second pass writes no more than the length computed before |
| Base64.RoundTrip | 3rd/mbedtls/library/base64.c:144-228 | Every byte string comes back from its encoding with any line breaks, and the computed length is exact |
| Base64.DecodesEncoding | 3rd/mbedtls/library/base64.c:144-228 | In particular from the encoding without any line break |
| Base64.LowBits | 3rd/mbedtls/library/base64.c:214-215 | Four symbols shifted into 32 bits make the low 24, whatever was there before |
| Base64.TablesMean | 3rd/mbedtls/library/base64.c:44-71 | Both tables are the alphabet of RFC 4648, character by character |
| Base64.EncodeMeans | 3rd/mbedtls/library/base64.c:108-118 | The k-th three bytes and the k-th four characters are the same 24 bits, the first byte and character highest |
| Base64.LastMeans | 3rd/mbedtls/library/base64.c:120-134 | One or two bytes at the end give two or three characters, with zeros for the missing bits, and padding signs |
| Base64.EmitMeans | 3rd/mbedtls/library/base64.c:207-225 | The bytes written for the k-th four characters are the 24 bits they stand for |
| Base64.EmitSize | 3rd/mbedtls/library/base64.c:207-225 | Three bytes are written for every four characters, and nothing for an incomplete group |
| Base64.EncodeTo | 3rd/mbedtls/library/base64.c:77-139 | The encoding and a null byte are written exactly when they fit, with the needed room otherwise, and nothing behind them |
| Base64.Check | 3rd/mbedtls/library/base64.c:151-187 | The loop of the first pass computes the accepting function |
| Base64.DecodeTo | 3rd/mbedtls/library/base64.c:144-228 | Invalid texts, too little room and success are told apart exactly; the bytes written are those of the second pass, and nothing behind them |
| MpiBytes.LimbByteOfValue | 3rd/mbedtls/library/bignum.c:706-707 | The byte taken from a limb is that byte of the whole value |
| MpiBytes.WriteBinary | 3rd/mbedtls/library/bignum.c:695-710 | The big-endian bytes have the value \|X\|, padded with zeros, and the call is refused exactly when they do not fit |
| MpiBytes.ReadBinary | 3rd/mbedtls/library/bignum.c:672-690 | X becomes the value of the bytes, whatever leading zeros they have |
| Der.GetLen | 3rd/mbedtls/library/asn1parse.c:54-110 | Each case of the switch assembles the big-endian value of its octets, with the refusals in order |
| Der.LenBack | 3rd/mbedtls/library/asn1parse.c:54-110 | Every length below 2^32 is read back from its octets, and refused if what it announces is not there |
| Der.LenCanonical | 3rd/mbedtls/library/asn1parse.c:54-110 | A length read from as many octets as the writer uses was written by it |
| Der.LenShortest | 3rd/mbedtls/library/asn1write.c:42-100 | No form in which a length can be read is shorter than that of the writer |
| Der.LenIff | 3rd/mbedtls/library/asn1parse.c:54-110 | A length is read exactly when a byte below 0x80, or 0x81 to 0x84 and that many octets, stand there, and what it announces is there too |
| Der.TlvBack | 3rd/mbedtls/library/asn1parse.c:112-125 | Tag and length lead to the contents |
| Der.GetTag | 3rd/mbedtls/library/asn1parse.c:112-125 | Missing data, another tag and a bad length are told apart |
| Der.WriteLen | 3rd/mbedtls/library/asn1write.c:42-100 | The length octets, the shortest there are (LenShortest), are written below the pointer exactly when they fit, and no other byte changes |
| Der.WriteTlv | 3rd/mbedtls/library/asn1write.c:178-190 | Contents, length and tag are written below the pointer exactly when they fit; a failed call changes nothing above the pointer or below the start |
| Der.WriteInt | 3rd/mbedtls/library/asn1write.c:230-258 | The integer is written exactly when it fits, with a zero byte before a top bit |
| Der.GetInt | 3rd/mbedtls/library/asn1parse.c:146-169 | The loop computes the big-endian value of one to four bytes without overflow, with its refusals |
| Der.IntIff | 3rd/mbedtls/library/asn1parse.c:146-169 | Accepted are exactly the integers of one to four bytes whose first has no top bit, with their value |
| Der.IntContentMeans | 3rd/mbedtls/library/asn1write.c:230-258 | The contents written have the value of the low byte, in the shortest form of a positive number |
| Der.IntBack | 3rd/mbedtls/library/asn1write.c:230-258 | An integer is read back if and only if it is one of 0 to 255 |
| Der.HighByteLost | 3rd/mbedtls/library/asn1write.c:230-258 | For 256 the bytes written are those of 0 |
| Der.MpiContentMeans | 3rd/mbedtls/library/asn1write.c:128-162 | The contents have the value of the number and are the shortest form of a positive one |
| Der.WriteMpi | 3rd/mbedtls/library/asn1write.c:128-162 | Those contents with length and tag are written exactly when they fit |
| Der.GetMpi | 3rd/mbedtls/library/asn1parse.c:171-186 | X becomes the value of the contents |
| Der.MpiBack | 3rd/mbedtls/library/asn1parse.c:171-186 | The value read is the magnitude of the number written, and so the number itself if and only if that was not negative |
| Der.MinusOneLost | 3rd/mbedtls/library/asn1write.c:146-154 | For -1 the bytes written are those of 1 |
| Der.WriteBitstring | 3rd/mbedtls/library/asn1write.c:290-315 | The unused-bits byte and the octets are written exactly when they fit |
| Der.GetBitstring | 3rd/mbedtls/library/asn1parse.c:189-217 | The moving pointer reaches the octets and the end as the reading function says |
| Der.BitstringBack | 3rd/mbedtls/library/asn1parse.c:189-217 | Every bit string is read back with the same number of bits |
| Der.BitstringIff | 3rd/mbedtls/library/asn1parse.c:189-217 | Accepted are exactly the bit strings with at most seven unused bits that fill what is left |
| Der.WriteAlgorithm | 3rd/mbedtls/library/asn1write.c:192-211 | Identifier, null or existing parameters, and the sequence around them are written exactly when they fit |
| Der.AlgorithmWhole | 3rd/mbedtls/library/asn1write.c:192-211 | With the parameters written before, the buffer holds the whole sequence |
| Der.GetAlgorithm | 3rd/mbedtls/library/asn1parse.c:291-333 | The nested reads stay inside the sequence and give what the reading function says |
| Der.AlgorithmBack | 3rd/mbedtls/library/asn1parse.c:291-333 | The identifier and its parameters are read back and exactly the sequence is consumed |
| Der.BareAlgorithmBack | 3rd/mbedtls/library/asn1parse.c:317-321 | A sequence with only the identifier is read as having no parameters |
| Der.AlgorithmIff | 3rd/mbedtls/library/asn1parse.c:291-333 | Accepted are exactly the sequences of an object identifier and at most one more element, whatever its tag and the forms of the lengths |
| Der.Known | 3rd/mbedtls/library/asn1write.c:192-211 | The identifier of RSA encryption, a bit string and a length of 200, byte by byte |

## Left out

- Limb buffers are sequence fields: two records never share one buffer, and freeing a buffer is not modelled. Allocation is taken to succeed, and the limit on the number of limbs is left out.
- ModExp.ExpMod: requires A and N to have limbs, because the source writes through a window slot that copying a number without limbs has freed.
- Division.Div: requires Q not to be A, because the source reads the sign of A after clearing it through Q; Q and R are distinct from each other and from B.
- The unrolled multiply-accumulate macros come from a header that is not part of this model; one limb of them is one step of `Mpi.MulHlp`.
- The variant of `mbedtls_int_div_int` for compilers with a double-width type.
- Operations of bignum.c on single machine words that only wrap the modelled ones, `mbedtls_mpi_mod_int`, conversion from and to digit strings, random numbers and primes.
- The worker pool has one loop thread; a request is not submitted again while it is pending, and cancel is not called once its done callback has begun. Waking the loop, creating and joining threads, and fork handlers are not modelled.
- Mirror-image macros and branches of tree.h are written once, with the side as a parameter. `RB_PREV`, `RB_MINMAX` and `SPLAY_NEXT` would repeat what is there. Keys are integers in place of a comparison function.
- The width of `nelts` and of the path word in the heap; the comparison function is an order by integer ranks.
- The cipher model has CBC with PKCS7 padding or none, with separate buffers or wholly in place. The block cipher is any pair of inverse functions; other modes, other paddings and buffers that overlap in part are left out, as is the wrapped length that an invalid padding leaves in the output length.
- The strict and parent-link builds of jsmn.c, and the range of its `int` positions; of jsmn_wrapper.c only `obj_val_size`.
- The dispatch on the address family in inet.c.
- In asn1parse.c and asn1write.c, `mbedtls_asn1_get_bool` and its writer, sequences of values and the named-data lists are left out, as is the range of the `int` in which the writers return a length.
- Timing behaviour, the application code, and everything that needs the network, files or devices.
