# A Dafny model of the algorithms inside NTG

NTG is an HTTP traffic generator built on nginx's C utilities. This project models its algorithmic
cores and proves what they promise. `dafny verify dfyconfig.toml` verifies all files.

* **Red-black tree** (`ntg_rbtree.c`, `ntg_rbtree.h`; files `Rb*.dfy`). `RbTree` is the code on real
  nodes: pointer fields, the root pointer, the shared sentinel. A ghost *view* of the heap (links,
  in-order sequence, slice bounds of every subtree) carries the invariants: `RbView` says that the
  links form one binary tree over that sequence, `RbBalance` adds colours and black heights and proves
  every rotation, recolouring, splice and loop turn, `RbOrder` treats the two key orders, `RbLaws`
  says what the invariants mean to somebody who follows the pointers. Keys are 64-bit words and the
  timer order is the wrapped difference. Links, colours, black heights and the node set are kept by any
  insertion and any deletion, whatever the keys; the order of the keys is kept when it held before and
  the new key is comparable with the live ones, which for the timer order means that all of them lie
  within half a cycle. The order is stated without the code's comparison: by value, or by the distance
  from the start of the half cycle.
* **Chunked bodies** (`ntg_http_parse.c`, `ntg_http_discard.c`; files `Chunked*.dfy`, `Discard.dfy`).
  `ChunkedSpec` is the 13-state machine as a step function with the count of bytes it still needs,
  `ChunkedCoding` the language it accepts, which is the coding of section 4.1 of RFC 7230 and a little more,
  written down over literal bytes, `Chunked` the resumable parser over a buffer,
  `Discard` the filter and the read loop over a socket that delivers what it likes.
* **Output chain** (`ntg_output_chain.c`, `ntg_buf.c`; files `Output*.dfy`). `OutputState` and
  `OutputSteps` are the bookkeeping as a state machine: who holds which buffer, what has left and what
  is still to come. `OutputChain` is the whole call on real buffers, against an output filter that sends
  any number of bytes, keeps what it did not send, and answers what it likes.
* **JSON text** (`cJSON.c`; files `JsonText.dfy`, `JsonRoundTrip.dfy`, `JsonLiterals.dfy`, `JsonGrammar.dfy`,
  `JsonParse.dfy`, `JsonMinify.dfy`, `JsonBuffer.dfy`, `JsonPrint.dfy`). `JsonText` holds what is printed
  and what is accepted as functions; `JsonLiterals` and `JsonGrammar` hold the texts and their values as a
  grammar over literal characters, and the parse function takes exactly those; `JsonGrammar` also fixes
  the layout of a printed text. `JsonParse` is the parser with its loops and its output buffer,
  `JsonBuffer` the printer into a growing buffer, `JsonPrint` the printer that computes the size of every
  block beforehand, `JsonMinify` the in-place minifier.
* **JSON Merge Patch** (`cJSON_Utils.c`, list operations of `cJSON.c`; files `JsonPatch.dfy`,
  `JsonPatchOps.dfy`, `JsonList.dfy`). Comparison, apply and generate, against the map-level definition
  of section 2 of RFC 7396; `JsonList` sorts, appends and detaches on the linked items themselves.
* **Cubic spline** (`ntg_user_spline.c`; files `SplineCurve.dfy`, `Spline.dfy`). The in-place
  tridiagonal solver and the evaluator, with `float` as `real`.
* **Queue** (`ntg_queue.c`, `ntg_queue.h`; files `QueueSort.dfy`, `Queue.dfy`). Sorting and halving a
  circular doubly linked list by relinking. The comparison may read anything but the links.

Methods are tied to specification functions by equations, and the properties are proved about those
functions, so a changed branch or a swapped pair of assignments breaks the equation.

Points where the model states something the code does not say openly:

* In `ntg_rbtree_delete` the branch that takes the left kid of the successor is never reached: the
  minimum of a subtree has no left kid. The parent fields of the root and of the sentinel are scratch
  and appear in no invariant, except that deletion leaves the sentinel's parent where the repair loop
  starts.
* The chunked parser's count is the fewest further bytes exactly unless the size field already
  exceeds the largest value that takes another digit; then no continuation that goes on with a
  digit succeeds, and `NeedIsExact` names that condition.
* `cJSONUtils_GenerateMergePatch` followed by `cJSONUtils_MergePatch` restores a target from every
  starting value exactly when the target has no null member outside arrays. The names in use must have
  the same order with and without regard to case, because the library sorts and looks up without regard
  to case but walks the two lists with it. From `{"_": true, "Z": true}` to `{"Z": true}` it loses `Z`
  (`JsonPatch.CapitalsFail`), and `JsonPatch.NamesRestoreExactly` shows that the condition on the names
  is the exact one.
* These are statements about values. The generator sorts `from` and `to` in place and leaves the `prev`
  pointer of a new first item as it was. A patch that then takes this item out of the very object that
  was sorted makes its list a circle; `JsonList.Owner.SortAndDetach` says that this happens exactly when
  sorting changed which item is first and the patch names that item. `{"b": 1, "a": 2}` is such an
  object (`JsonList.SwappedPair`). A patch applied to another copy of `from` meets no such pointer.
* The spline solver tests `D[i]` before the elimination updates it, while it still is 2, so the test
  cannot fire; nor would it guard the division, which is by `D[i - 1]`. The divisions are safe because
  every updated pivot lies between 1 and 2.
* `cJSON_Minify` and the string scan of the parser step over a backslash together with the byte behind
  it, and the minifier over a missing quote or comment end, without looking for the terminator.
  `JsonMinify.CleanIsClosed` and `JsonText.BodyLengthIs` say on exactly which texts they leave the text,
  and two lemmas `ScansThatGoBeyond` show such texts. The parser model answers `Fail(true)` there.

## Model

| member | source | states |
|---|---|---|
| RbTree.Tree.Insert | ntrig/src/utils/ntg_rbtree.c:20-89 | for any key the tree stays red-black, the node set grows by exactly the new node and all others keep their places; if the keys of a plain tree rise, they still do and the node stands behind all keys not greater than its own and before all greater ones; in a timer tree the same holds of the distances from the start of any half cycle that holds all the keys |
| RbTree.Tree.InsertValue | ntrig/src/utils/ntg_rbtree.c:92-114 | the plain descent ends at an empty side and hangs a red leaf there, for any key; where the keys are in order it is the side the key belongs to |
| RbTree.Tree.InsertTimerValue | ntrig/src/utils/ntg_rbtree.c:117-149 | the same for the wrapped difference: an empty side for any key, the right one when the keys are in order and lie with it in half a cycle |
| RbTree.Tree.Rebalance | ntrig/src/utils/ntg_rbtree.c:38-88 | the recolouring loop turns a tree with at most one red-red edge into a red-black tree over the same nodes |
| RbTree.Tree.Delete | ntrig/src/utils/ntg_rbtree.c:152-316 | whatever the keys, a red-black tree stays one, exactly the given node leaves, the others keep their places, and the node's fields are reset; keys that were in order stay in order |
| RbTree.Tree.DetachSuccessor | ntrig/src/utils/ntg_rbtree.c:194-245 | the successor gives its place to its kid and takes over the links and the colour of the deleted node, in every case of adjacency |
| RbTree.Tree.Repair | ntrig/src/utils/ntg_rbtree.c:253-316 | the fix-up loop removes a missing black from any position and ends |
| RbTree.Tree.LeftRotate | ntrig/src/utils/ntg_rbtree.c:319-346 | the seven pointer writes are exactly a rotation of the picture |
| RbTree.Tree.RightRotate | ntrig/src/utils/ntg_rbtree.c:349-376 | the mirror image |
| RbTree.Tree.Min | ntrig/src/utils/ntg_rbtree.h:72-79 | the walk ends at the node that stands first in its subtree's slice; from the root, where the keys rise, this is the one with the least key, or the least distance |
| RbView.RotateKeepsShape | ntrig/src/utils/ntg_rbtree.c:319-376 | a rotation keeps parent and child links consistent and the in-order sequence unchanged |
| RbBalance.InsertTurnKeeps | ntrig/src/utils/ntg_rbtree.c:40-86 | every case of the insertion loop keeps all invariants but one red-red edge, keeps order and node set, and lowers a rank, so the loop ends |
| RbBalance.InsertDone | ntrig/src/utils/ntg_rbtree.c:88-88 | when the loop stops, blackening the root gives a red-black tree |
| RbBalance.DeleteTurnKeeps | ntrig/src/utils/ntg_rbtree.c:255-313 | every case of the deletion loop keeps all invariants but one missing black, keeps order and node set, and lowers a rank |
| RbBalance.SpliceStep | ntrig/src/utils/ntg_rbtree.c:194-206 | taking out a node with an empty side leaves a red-black tree, or one that is short by one black at the kid |
| RbBalance.SuccessorStep | ntrig/src/utils/ntg_rbtree.c:207-245 | the same for a node with two kids, whose successor moves up |
| RbLaws.WalkIsOrder | ntrig/src/utils/ntg_rbtree.c:20-376 | following left and right pointers from the root visits the in-order sequence, each node once |
| RbLaws.BlackHeightsAgree | ntrig/src/utils/ntg_rbtree.c:20-316 | all ways from the root to the sentinel meet the same number of black nodes |
| RbLaws.TreeIsShallow | ntrig/src/utils/ntg_rbtree.c:20-316 | a way of length k needs 2^(k/2) - 1 nodes, so the height is at most twice the logarithm |
| RbOrder.TimerOrderNeedsWindow | ntrig/src/utils/ntg_rbtree.c:117-149 | the timer comparison is a strict order on a set of keys if and only if they lie within half a cycle |
| RbOrder.TimerBeforeIsEarlier | ntrig/src/utils/ntg_rbtree.c:125-136 | of two instants less than half a cycle apart the comparison of their low 64 bits names the earlier one |
| RbOrder.TimerOrder | ntrig/src/utils/ntg_rbtree.c:125-136 | within a half cycle, being in timer order and fitting at a place are rising distances from its start |
| RbOrder.TimerBeforeCycles | ntrig/src/utils/ntg_rbtree.c:127-140 | four keys on which the timer comparison runs in a circle |
| Chunked.ParseChunked | ntrig/src/http/ntg_http_parse.c:609-871 | one call consumes bytes as the machine does, stops before chunk data, behind the last line feed, or at the buffer's end with the count of bytes still needed, and fails only where the machine does or refuses |
| Chunked.ParseByte | ntrig/src/http/ntg_http_parse.c:642-812 | one byte in one state is the machine's step |
| ChunkedSpec.RunSplits | ntrig/src/http/ntg_http_parse.c:609-871 | running over a concatenation is running over its first part and resuming |
| ChunkedSpec.CutsDoNotMatter | ntrig/src/http/ntg_http_parse.c:609-871 | however a stream is cut into pieces, the verdict and the stopping place are the same |
| ChunkedSpec.FinishedIgnoresRest | ntrig/src/http/ntg_http_parse.c:861-866 | a finished message is finished whatever follows, at the same byte |
| ChunkedSpec.NeedIsLowerBound | ntrig/src/http/ntg_http_parse.c:819-857 | no continuation shorter than the reported count finishes the message |
| ChunkedSpec.NeedIsExact | ntrig/src/http/ntg_http_parse.c:819-857 | some continuation of exactly that length finishes it if and only if the size field has not passed the largest value that takes another byte |
| ChunkedSpec.NeedFits | ntrig/src/http/ntg_http_parse.c:819-821 | a size is refused at the end of a buffer if and only if the count would not fit a 64-bit offset |
| ChunkedSpec.RefusedIsDoomed | ntrig/src/http/ntg_http_parse.c:819-821 | what is refused at the end of a buffer for its size is what no continuation within the size limit could save |
| ChunkedCoding.WellFormedIsDecoded | ntrig/src/http/ntg_http_parse.c:609-871 | every body of section 4.1 of RFC 7230, with extensions and trailers, and with the liberties the parser takes with line ends, is accepted, its data is exactly what is passed over, and the machine stops at its last byte whatever follows |
| ChunkedCoding.FinishesExactlyBodies | ntrig/src/http/ntg_http_parse.c:609-871 | the machine finishes with the last byte of a stream if and only if the stream is such a body |
| ChunkedCoding.NumeralIsRead | ntrig/src/http/ntg_http_parse.c:642-695 | bytes are hexadecimal digits with value n if and only if they write n in the letters 0-9, a-f and A-F, with any leading zeros |
| ChunkedCoding.PrefixIsNotDone | ntrig/src/http/ntg_http_parse.c:609-871 | no proper prefix of such a body is reported done |
| ChunkedCoding.ConsumedIsData | ntrig/src/http/ntg_http_discard.c:28-202 | of a stream that begins with a well-formed body, the data passed over is the body's data as far as it was reached, all of it when the body is over, and never anything else |
| Discard.Request.FilterChunked | ntrig/src/http/ntg_http_discard.c:216-259 | the filter passes over exactly the chunk data of the buffer, and the expected length becomes 0 when the body ends and the machine's count when it does not |
| Discard.Request.Filter | ntrig/src/http/ntg_http_discard.c:211-281 | both branches: the chunked one, and the plain one that stops at the body's length |
| Discard.Request.ReadDiscarded | ntrig/src/http/ntg_http_discard.c:156-202 | over any behaviour of the socket, every byte taken is a byte of the body and exactly the payload among them is passed over; if buffer and stream begin with a whole message, the loop never fails and takes nothing behind the end of that message |
| Discard.Request.DiscardBody | ntrig/src/http/ntg_http_discard.c:28-98 | first the buffered bytes and then the socket's: a plain body that ends in the buffer moves position and remaining length by exactly its bytes, a chunked one is accounted for across both, exactly the payload of what was consumed is passed over, and a whole message is never overrun |
| Discard.Request.PieceFits | ntrig/src/http/ntg_http_discard.c:172-196 | a piece no longer than the reported count never runs past the end of the message |
| Discard.MessageIsRespected | ntrig/src/http/ntg_http_discard.c:156-202 | at every prefix of a whole message the parser neither fails nor asks for more than what is left of it |
| OutputChain.Context.Output | ntrig/src/utils/ntg_output_chain.c:52-234 | one call, short path and loop: whatever the filter does, the bytes that left, those it holds and those still waiting are the bytes submitted, in their order; no more than the configured buffers are ever made; the filter is called, and its last answer is returned, except AGAIN when something waits for a buffer after an answer that asks to go on; memory that must not be written to is never passed to a filter that needs to write |
| OutputChain.Context.Proceed | ntrig/src/utils/ntg_output_chain.c:97-233 | the loop alone: it ends, with the same account and the same answer |
| OutputChain.Context.PassDirectly | ntrig/src/utils/ntg_output_chain.c:59-83 | the short path calls the filter once with the chain and returns its answer |
| OutputChain.Context.Collect | ntrig/src/utils/ntg_output_chain.c:106-213 | the inner loop passes on, drops or copies until input or buffers run out, and lightens what waits when it hands anything over; it hands over no empty buffer without a flag, no memory that must not be written to where the filter needs to write, and copies nothing else |
| OutputChain.Context.CopyStep | ntrig/src/utils/ntg_output_chain.c:153-212 | one copy into a free or a new buffer keeps the account of buffers and bytes; it is blocked only when no buffer is free and none may be made |
| OutputChain.Context.FillBuf | ntrig/src/utils/ntg_output_chain.c:511-658 | as much of the source as fits moves into the buffer; a source that is used up leaves the input and passes on its flags |
| OutputChain.Context.RoomFor | ntrig/src/utils/ntg_output_chain.c:436-471 | a new buffer has the configured size, or that of the last piece if this is smaller, or less than a quarter larger in a pool of one buffer |
| OutputChain.Context.HandOver | ntrig/src/utils/ntg_output_chain.c:224-228 | the filter takes the chain, its answer is returned, and the account holds afterwards, however much it sent |
| OutputChain.Context.Release | ntrig/src/utils/ntg_buf.c:192-229 | the sent buffers at the head of the busy list leave it, up to the first that holds bytes; the context's own among them go to the front of the free list one by one, emptied |
| OutputSteps.RecycledIs | ntrig/src/utils/ntg_buf.c:216-227 | exactly the own buffers among the sent ones become free |
| OutputSteps.RecycledOrder | ntrig/src/utils/ntg_buf.c:209-228 | the free buffers begin with those recycled, the last one sent first |
| OutputChain.Context.Enqueue | ntrig/src/utils/ntg_output_chain.c:316-382 | a submitted chain goes behind the input, and its bytes behind the bytes submitted before |
| OutputState.DrainStream | ntrig/src/utils/ntg_output_chain.c:224-224 | the bytes a filter sent and those it still holds are the bytes it was given, in order |
| OutputSteps.FillKeeps | ntrig/src/utils/ntg_output_chain.c:183-212 | copying keeps the stream, the places of all buffers and the pool |
| OutputSteps.HandKeeps | ntrig/src/utils/ntg_output_chain.c:224-231 | handing the chain to the filter keeps them |
| OutputSteps.ReleaseKeeps | ntrig/src/utils/ntg_buf.c:209-228 | recycling a sent buffer keeps them |
| OutputSteps.DirectKeeps | ntrig/src/utils/ntg_output_chain.c:59-83 | so does the short path |
| JsonParse.ParseWithOpts | ntrig/lib/cJSON.c:324-341 | the recursive parser with its loops computes the parse function of the whole text |
| JsonGrammar.ParsesExactly | ntrig/lib/cJSON.c:360-550 | a text is read as a value with something left over if and only if it is a text of the grammar for that value, followed by something that does not belong to it |
| JsonGrammar.WholeTextsExactly | ntrig/lib/cJSON.c:327-341 | a whole text is accepted with a value if and only if it is a text of the grammar for that value between blanks |
| JsonLiterals.LiteralIsRead | ntrig/lib/cJSON.c:193-252 | a string literal made of bytes, covered bytes and escaped code points is read as what these stand for |
| JsonLiterals.LiteralOf | ntrig/lib/cJSON.c:193-252 | and nothing else is read as a string |
| JsonLiterals.PointIsRead | ntrig/lib/cJSON.c:178-245 | a \u escape with four digits of either case, most significant first, is read as the UTF-8 of its code point |
| JsonLiterals.HalvesAreRead | ntrig/lib/cJSON.c:219-245 | a pair of escapes of section 7 of RFC 8259 is read as the UTF-8 of the code point beyond 0xFFFF that it stands for |
| JsonLiterals.NumeralIsRead | ntrig/lib/cJSON.c:96-112 | a numeral, with the parts it may have and lack, is read as its digits scaled by its exponent, up to what does not prolong it |
| JsonLiterals.NumeralOf | ntrig/lib/cJSON.c:96-112 | every number is read from such a numeral, as far as it goes |
| JsonParse.ParseString | ntrig/lib/cJSON.c:193-252 | the two passes decode a string literal, escapes and surrogate pairs included, and never write outside the buffer that the first pass measured |
| JsonParse.FindEnd | ntrig/lib/cJSON.c:198-198 | the first pass stops at the closing quote or the end and counts the bytes, escapes as one; it would leave the text exactly where this ends in an escape |
| JsonText.BodyLengthIs | ntrig/lib/cJSON.c:198-198 | the first pass stops at the first quote that no backslash covers, or at the end of the text, and leaves the text if and only if there is no such quote and the text ends in an odd run of backslashes |
| JsonParse.ParseStaysInside | ntrig/lib/cJSON.c:193-341 | on a text that does not end in a backslash no string scan of the whole parse leaves the text |
| JsonParse.ScansThatGoBeyond | ntrig/lib/cJSON.c:198-198 | an open string ending in a backslash, on which the scan leaves the text |
| JsonParse.UnescapeUnicode | ntrig/lib/cJSON.c:219-245 | a \u escape or a pair of them is written as the UTF-8 of one code point that is no half of a pair, inside the measured buffer, or the literal is rejected |
| JsonText.Utf8IsRead | ntrig/lib/cJSON.c:234-242 | the bytes written for a code point read back as that code point by section 3 of RFC 3629, whatever follows |
| JsonParse.ParseArray | ntrig/lib/cJSON.c:409-434 | the element loop reads the list that the grammar says, and fails where it does |
| JsonParse.ParseObject | ntrig/lib/cJSON.c:517-550 | the member loop, likewise |
| JsonParse.ParseNumberAt | ntrig/lib/cJSON.c:96-112 | the loops over the digits before the point, behind it and in the exponent compute the number function of the text and leave the rest |
| JsonRoundTrip.LiteralReads | ntrig/lib/cJSON.c:96-112 | a literal with sign, digits, point, digits and signed exponent is read as the number it stands for, up to whatever follows |
| JsonRoundTrip.TextRoundTrip | ntrig/lib/cJSON.c:327-346 | parsing the printed text of any value of C strings and whole numbers up to 2^53 in size, formatted or not, gives the value back and leaves nothing over |
| JsonRoundTrip.StringRoundTrip | ntrig/lib/cJSON.c:193-311 | a printed string literal reads back as the string, whatever follows it |
| JsonRoundTrip.NumberRoundTrip | ntrig/lib/cJSON.c:96-176 | a printed integer reads back, when no digit, point or exponent follows |
| JsonLiterals.EscapeIs | ntrig/lib/cJSON.c:286-311 | a byte is printed as section 7 of RFC 8259 names it: quote, backslash and five controls by their letters, the other controls by four lower-case digits, the rest as they are |
| JsonLiterals.DecimalOf | ntrig/lib/cJSON.c:147-176 | a whole number is printed in its decimal digits without leading zeros |
| JsonMinify.MinifyInPlace | ntrig/lib/cJSON.c:739-754 | of a text that closes its strings and comments, the in-place rewrite leaves exactly the bytes that are kept, the write position never passing the read position |
| JsonMinify.MinifyKeeps | ntrig/lib/cJSON.c:739-754 | kept are, in their order, the bytes of strings and the bytes outside strings and comments that are none of 32, 9, 13 and 10, told by their positions |
| JsonMinify.CleanIsClosed | ntrig/lib/cJSON.c:742-752 | the scan stays within the text if and only if every opening quote is followed by one that no backslash covers and every block comment by its end |
| JsonMinify.ScansThatGoBeyond | ntrig/lib/cJSON.c:749-750 | an open string and an open comment that the scan follows beyond the terminator |
| JsonMinify.MinifyIsUnformatted | ntrig/lib/cJSON.c:739-754 | minifying the formatted text gives the unformatted text, for every value of strings and whole numbers |
| JsonBuffer.PrintBuffered | ntrig/lib/cJSON.c:349-356 | for every starting size, 0 included, the buffered printer ends with the text of the value and a terminator |
| JsonBuffer.PrintBuffer.Ensure | ntrig/lib/cJSON.c:117-136 | the buffer grows to a size that suffices and what was printed stays |
| JsonBuffer.PrintBuffer.PrintArray | ntrig/lib/cJSON.c:437-514 | the array loop appends the text of the array and nothing else |
| JsonBuffer.PrintBuffer.PrintObject | ntrig/lib/cJSON.c:553-661 | the object loop appends the text of the object and nothing else |
| JsonBuffer.PrintBuffer.PrintStringPtr | ntrig/lib/cJSON.c:255-311 | the measuring pass asks for enough room for the escaped text that the writing pass writes |
| JsonPrint.Print | ntrig/lib/cJSON.c:346-347 | the printer without a buffer leaves the same text and a terminator in a new block |
| JsonPrint.PrintArray | ntrig/lib/cJSON.c:472-512 | the block whose size was added up from the elements' texts is filled with the text of the array, never written past its end |
| JsonPrint.PrintObject | ntrig/lib/cJSON.c:611-659 | the same for the names, values and indentation of an object |
| JsonPrint.RowFits | ntrig/lib/cJSON.c:440-512 | 2 bytes an element, 3 when formatted, and 5 besides are enough for brackets, commas, blanks and terminator |
| JsonPrint.RowsFit | ntrig/lib/cJSON.c:556-659 | likewise for the names, colons, tabs and line ends of an object |
| JsonPatch.MergePatchRefines | ntrig/lib/cJSON_Utils.c:346-363 | applying a patch to a value means what section 2 of RFC 7396 says, on values as nested maps whose names do not match each other without regard to case |
| JsonPatch.MergeRefinesExactly | ntrig/lib/cJSON_Utils.c:346-363 | it means that on all values over a set of names if and only if no two names of the set match without regard to case |
| JsonPatch.SortedLaw | ntrig/lib/cJSON_Utils.c:306-342 | the merge sort keeps the members, and puts names of which no two match without regard to case in that order |
| JsonPatch.SortedKeeps | ntrig/lib/cJSON_Utils.c:306-342 | the members are kept whatever the names, as long as none repeats |
| JsonPatch.StrCmpIs | ntrig/lib/cJSON_Utils.c:376-376 | the order with regard to case is that of the bytes at the first difference, a string before its continuations |
| JsonPatch.LowerIs | ntrig/lib/cJSON_Utils.c:7-14 | without regard to case, each of the letters A-Z counts as its small one and no other byte changes |
| JsonPatch.CaseCmpIs | ntrig/lib/cJSON_Utils.c:7-14 | names match, or precede, without regard to case exactly if their lowered forms are equal, or precede |
| JsonPatch.AgreeDecides | ntrig/lib/cJSON_Utils.c:115-140 | the comparison reports equality exactly when the two values mean the same, over names of which no two match without regard to case |
| JsonPatch.AgreeDecidesExactly | ntrig/lib/cJSON_Utils.c:115-140 | it decides equality of all values over a set of names if and only if no two names of the set match without regard to case |
| JsonPatch.GenerateLaw | ntrig/lib/cJSON_Utils.c:365-395 | over names with one order with and without regard to case, and for a target without null members, a generated patch merges `from` into `to`, and none is generated only between equal values |
| JsonPatch.GeneratesDifferences | ntrig/lib/cJSON_Utils.c:365-395 | over names with one order with and without regard to case, the patch between two objects speaks of exactly the members that differ, and there is none if and only if the two mean the same |
| JsonPatch.PatchRestores | ntrig/lib/cJSON_Utils.c:346-395 | generate and then apply gives a value that means the target, for every pair over names with one order with and without regard to case and no null member in the target |
| JsonPatch.NamesRestoreExactly | ntrig/lib/cJSON_Utils.c:306-395 | every target without nulls over a set of names is restored from every start if and only if the names of the set have the same order with and without regard to case |
| JsonPatch.CapitalsFail | ntrig/lib/cJSON_Utils.c:306-395 | a concrete pair of objects between which the generated patch loses a member |
| JsonPatch.RestoresExactly | ntrig/lib/cJSON_Utils.c:346-395 | a target is restored from every starting value if and only if it has no null member |
| JsonList.SortList | ntrig/lib/cJSON_Utils.c:306-342 | the test, the two-pointer split and the merging by relinking leave one chain of the same items in sorted order, whose head still points back to where it did |
| JsonList.MergeLists | ntrig/lib/cJSON_Utils.c:321-342 | relinking two chains gives the chain of their merge |
| JsonList.ListedSorted | ntrig/lib/cJSON_Utils.c:306-342 | the order of the items is the sort of the list as a value |
| JsonList.Owner.Add | ntrig/lib/cJSON.c:675-675 | the item is chained behind the last one |
| JsonList.Owner.Sort | ntrig/lib/cJSON_Utils.c:344-344 | the first item points back nowhere afterwards if and only if it was first before |
| JsonList.Owner.Detach | ntrig/lib/cJSON.c:681-684 | the matching item leaves a proper chain of the others, except that a first item which points back into the list leaves a circle |
| JsonList.Owner.SortAndDetach | ntrig/lib/cJSON_Utils.c:346-395 | a sorted object survives the detaching of a member if and only if that member is not the first or was first before sorting |
| JsonList.CircleHasNoEnd | ntrig/lib/cJSON.c:675-684 | whoever follows the items of a circle never comes to an end of the list |
| JsonPatchOps.Compare | ntrig/lib/cJSON_Utils.c:115-140 | the loops return 0 exactly for values that agree, on lists as values |
| JsonPatchOps.ApplyPatch | ntrig/lib/cJSON_Utils.c:346-363 | the loop over the patch computes the merge, on lists as values |
| JsonPatchOps.GeneratePatch | ntrig/lib/cJSON_Utils.c:365-395 | the two-list walk computes the patch, or none, on lists as values |
| Spline.CubicSpline.Create | ntrig/src/user/ntg_user_spline.c:76-136 | for ascending abscissas the solver never fails and leaves in B a solution of the system |
| Spline.CubicSpline.EliminateRow | ntrig/src/user/ntg_user_spline.c:119-130 | one elimination step keeps the row equations and the next pivot between 1 and 2 |
| Spline.CubicSpline.BackSubstitute | ntrig/src/user/ntg_user_spline.c:130-133 | substituting back through the swept rows solves the original system |
| Spline.CubicSpline.GetYByX | ntrig/src/user/ntg_user_spline.c:188-245 | at every abscissa, beyond the ends too, the result is the value of the curve |
| Spline.CubicSpline.GetInterpolationPoints | ntrig/src/user/ntg_user_spline.c:54-180 | the points, two or more, are evenly spaced from the first to the last abscissa and lie on the curve |
| Spline.CubicSpline.Init | ntrig/src/user/ntg_user_spline.c:28-46 | exactly 3 to 24 control points, with ascending abscissas, are accepted, and they become the spline's knots |
| SplineCurve.NaturalIsSolved | ntrig/src/user/ntg_user_spline.c:94-116 | slopes solve the system if and only if neighbouring pieces meet with equal value, slope and bend and the ends do not bend |
| SplineCurve.SolutionIsUnique | ntrig/src/user/ntg_user_spline.c:94-116 | the system has at most one solution, so there is one such curve |
| SplineCurve.ThroughKnots | ntrig/src/user/ntg_user_spline.c:215-242 | the curve passes through every control point |
| SplineCurve.Taylor | ntrig/src/user/ntg_user_spline.c:188-245 | the slope and bend that the equations match are the derivatives of the value |
| Queue.Queue.Sort | ntrig/src/utils/ntg_queue.c:55-84 | with a comparison of what the elements are embedded in, relinking turns the list into its insertion-sorted order and keeps it one circle |
| Queue.Queue.Middle | ntrig/src/utils/ntg_queue.c:23-51 | the two-speed walk ends at the element that floor(n/2) others precede, or at the sentinel of an empty queue |
| Queue.RemoveKeeps | ntrig/src/utils/ntg_queue.h:86-88 | joining the neighbours of an element leaves the circle without it |
| Queue.InsertKeeps | ntrig/src/utils/ntg_queue.h:39-45 | the four writes of insert-after leave the circle with the new element at that place |
| QueueSort.SortLaw | ntrig/src/utils/ntg_queue.c:53-84 | for any total preorder the result is in order and elements that compare equal keep their order |
| QueueSort.SortKeeps | ntrig/src/utils/ntg_queue.c:53-84 | whatever the comparison, the result has the same elements |

## Left out

- Sockets, events, processes, signals, MySQL, files and logging: effects outside the program. `recv` is a script of arbitrary results that deliver any prefix of what is left of the stream.
- Static hash, pool allocator, CRC32, MD5, dispatcher, base64, URI escaping and time parsing: other cores of the repository, not modelled.
- `ntg_http_parse_header_line`, `ntg_http_parse_status_line`, JSON Pointer and JSON Patch: not modelled.
- Allocation failure: every allocation succeeds.
- RbTree.Tree.Delete: the helper methods it is split into are one function in the source; the debug-only resetting of a removed node is kept. The data byte of a node, which the tree never reads, is not a field.
- Discard.Request.ReadDiscarded: a closed or failed connection ends the loop with the success code, as in the source, so success does not mean that the body is complete.
- Discard.Request.DiscardBody: the event registration and the request states set after the loop.
- ChunkedSpec.NeedIsExact: `off_t` is 64 bits wide.
- OutputChain.Context.Output: buffers are in memory; the branches for files, sendfile, direct I/O and asynchronous I/O are left out. Chains are sequences of buffers, so their links are not modelled. A submitted buffer is not one of the context's own, appears once, does not wait already and shares no memory with another. The filter sends in order. After an error or DONE only the account of bytes is promised.
- OutputChain.Context.FillBuf: the flags sync and recycled, and the fields of a file.
- JsonParse.ParseWithOpts: numbers are reals, so the rounding and the range of `double` are left out.
- JsonRoundTrip.TextRoundTrip: the lemma covers all whole numbers of the model; above 2^53 the source rounds while it reads, and from 1.0e60 on it prints with `%e`.
- JsonParse.ParseNumberAt: `pow` is the power of ten; the exponent does not overflow.
- JsonParse.ParseString: where the source leaves the text, the model stops with `Fail(true)`.
- JsonBuffer.PrintBuffered: numbers are whole and below 1.0e60 in size, which the source prints in full; fractions and larger numbers, printed with `%f` and `%e`, are left out. Doubling by bit operations is the least power of two that suffices. A first size of 0 gets a buffer.
- JsonPrint.Print: the same numbers; lengths do not wrap. The pointers to the pieces are a sequence.
- JsonMinify.MinifyInPlace: texts that do not close what they open (`JsonMinify.Closes`), on which the source reads and writes past the terminator.
- JsonList.SortList: one level of items; the values of the items, nested objects among them, are not on the heap.
- JsonPatch.MergePatchRefines: names that repeat within one object, for which a map has no meaning.
- JsonPatchOps.Compare: works on lists as values and sorts copies; what the sorting does to the items themselves is in `JsonList`.
- JsonPatchOps.ApplyPatch: works on lists as values; detaching and appending on the items themselves are in `JsonList`.
- JsonPatchOps.GeneratePatch: works on lists as values; the reordering of both arguments in memory is in `JsonList`.
- Spline.CubicSpline.Create: rounding; the 8 and 20 bit widths of the two counters, which their limits keep exact.
- Spline.CubicSpline.GetInterpolationPoints: asking for one point divides by zero in the source and is excluded.
- Spline.CubicSpline.Init: abscissas that do not ascend, for which the source divides by zero or extrapolates.
- Queue.Queue.Sort: the debug variant of removal, which also clears the pointers of the removed element.
