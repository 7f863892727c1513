# Verified models of LibUCW algorithms

This project models the algorithmic core of LibUCW in Dafny and proves what it is for. Each
model takes the form of the C code: objects with fields that methods update, loops over buffers,
pointer structures that are relinked in place. Each such method is tied to a specification on
plain values, and the theorems are about that specification.

Check everything with `dafny verify dfyconfig.toml`.

| Files | What they model |
|---|---|
| `BinHeap`, `BinHeapShape` | the binomial heap with its destructive merge, the traversal of all nodes with a fixed stack, and sorting with the heap |
| `JsonText`, `JsonNumber`, `JsonValue`, `JsonRoundTrip`, `JsonStable`, `JsonGrammar`, `JsonSyntax`, `JsonLayout`, `JsonObject`, `JsonReader`, `JsonWriter`, `JsonFile` | the JSON printer and parser on code points, their round trip, and the grammar of RFC 7159 |
| `XmlNamespaces` | the table of namespace prefixes with its undo records, against lexical scoping |
| `XmlEvents`, `XmlPull`, `XmlTree`, `XmlFidelity` | the resumable pull parser, against the events of a document, the walk through a tree and the characters of its text |
| `XmlSource`, `XmlWhite` | line-end normalisation across buffer refills, and white-space collapsing in place |
| `Base224`, `Base224Buffers`, `Base64` | the two codecs |
| `ImageRegions`, `ImageCalm`, `ImageSplit`, `ImageSegment`, `ImagePostquant` | segmentation of an image into regions |
| `ImageMatch` | normalised weights and the greedy transport between two signatures |
| `Asio` | the life cycle of asynchronous I/O requests |
| `Adler32` | the checksum with delayed reduction |
| `DupPyramid`, `DupBuild`, `DupArea` | the pyramid of the duplicate detector and the eight walks through its blocks |
| `Basics`, `Powers`, `Sums` | optional values, machine words and shared arithmetic |

Facts about the code that the theorems establish:

- JSON: of the strings without a zero code point exactly those read back as they are whose code
  points lie in 1..0xD7FF or 0xF900..0xEFFFF; with escaping of non-ASCII characters 0xF0000 is
  readable too, because the test for a pair of escapes excludes only larger values. With escaping,
  two adjacent surrogates are read as one character and values from 0x110000 up as U+FFFD; reading
  is proved for all of these cases. Objects must have distinct keys. `JsonSyntax.TextsAre` says of
  every text whether it is read and as what, in terms of the grammar alone. Whatever is read from any text
  is written and read back without change if non-ASCII characters are escaped, and otherwise exactly
  if no string in it holds 0xF0000.
- Asynchronous I/O: the assertion in the loop of `asio_submit` fails exactly for a write-back on a
  queue with a limit of zero; `Asio.WriteBackWithoutRoom` is such a run. The program dies exactly if a
  write-back that is waited for was not complete.
- Segmentation: the variances used to choose the axis of a split are, except for the first, cut to
  32 bits. If the first is zero and all the others are multiples of 2^32, the region is stuck: an
  axis with one value is chosen and the split divides by zero. `ImageSegment.SplitRegion` shows that
  this is the only way it can happen. No stuck region is ever split, and the segmentation of every
  image is a partition of its blocks, if on each axis but the first the variance of all blocks needs
  no more than 32 bits, which holds for every image of up to 514 blocks, and no threshold multiplied
  by the number of blocks is zero in 32 bits. On the other hand the division by zero always happens
  if all blocks together are stuck and their error reaches the first threshold. For images of two
  kinds of blocks `ImageSegment.KindsAtOnce` says exactly when they are; if the kinds differ by d on
  one axis but the first, m and n blocks of them are stuck exactly if m * n * d^2 is a multiple of
  2^32. `ImageSegment.StuckExample` is a family of such images, 32768 blocks of any kind and 16384
  that differ by 8 on the second axis, for instance with the features 2, 126, 130, 0, 0, 0 and 2, 134,
  130, 0, 0, 0, and the thresholds in the configuration of the library, and
  `ImagePostquant.SegmentExample` is the run.
- Base 64: the reverse table takes a zero byte for the value 64, since the search for it finds the
  end of the alphabet.
- Base 224: the header says that the decoder ignores invalid characters, but the code asserts that
  there are none: `Base224Buffers.Decode` shows that the assertions hold exactly for strings of bytes
  from 0x20 up, and `Base224Buffers.DecodeInvalid` is a run in which one fails.
- XML: an end tag where the root element should start is taken for it, and the assertion in
  `xml_parse_etag` fails; `XmlTree.AssertionIff` shows that it fails for no other documents.
- XML: an end tag inside of an entity in which no element is open is first reported as the end of
  the innermost element, and the fatal error follows (`XmlTree.EndTagInEntity`).

## Model

| member | source | states |
|---|---|---|
| `BinHeap.HangBinomial` | ucw/binheap.h:98-107 | hanging one root below another of the same order that is not greater keeps the binomial shape and heap order and removes exactly one root |
| `BinHeap.CarryValid` | ucw/binheap.h:86-121 | a carry put back into either list, also in a collision of three trees of one order, keeps all three lists sorted and every root in exactly one of them |
| `BinHeap.JoinedValid` | ucw/binheap.h:123-124 | appending what is left of the second list gives one list of all roots with strictly increasing orders |
| `BinHeap.CarryStep` | ucw/binheap.h:86-121 | one carry on the pointer structure: unlinking, hanging below, and placing the result agree with the value-level step |
| `BinHeap.Merge` | ucw/binheap.h:66-125 | merging two linked lists of trees yields a heap at the first header whose nodes are the union of both, with shape, heap order and all links right |
| `BinHeap.LeastRoot` | ucw/binheap.h:141-151 | a root not greater than any other root is not greater than any node |
| `BinHeap.Heap.constructor` | ucw/binheap.h:174-178 | a new heap is valid and empty |
| `BinHeap.Heap.Insert` | ucw/binheap.h:128-137 | the heap stays valid and its nodes are the old ones and exactly the new one |
| `BinHeap.Heap.FindMin` | ucw/binheap.h:141-151 | null exactly for the empty heap, otherwise a node of the heap that no node is less than |
| `BinHeap.Heap.DeleteMin` | ucw/binheap.h:155-171 | null exactly for the empty heap, otherwise removes exactly one node that no node is less than |
| `BinHeapShape.TreeSize` | ucw/binheap.h:66-125 | a tree of order k has exactly 2^k nodes |
| `BinHeapShape.EveryNodeOnce` | ucw/binheap.h:182-196 | the preorder of all trees lists every node of the heap exactly once |
| `BinHeapShape.HeapSize` | ucw/binheap.h:66-125 | the number of nodes is the sum of the tree sizes, so a tree of order k needs 2^k nodes |
| `BinHeapShape.OrdersBelow32` | ucw/binheap.h:184 | in a heap of fewer than 2^32 nodes all orders are below 32 |
| `BinHeapShape.VisitRemaining` | ucw/binheap.h:188-193 | one step of the traversal takes off exactly the first node that remains to be visited |
| `BinHeapShape.Visit` | ucw/binheap.h:189-193 | popping a node and pushing its sibling and first son stays within 32 stack entries |
| `BinHeapShape.ForAll` | ucw/binheap.h:182-196 | visits every node of a heap of fewer than 2^32 nodes exactly once with a stack of 32 entries |
| `BinHeapShape.Fill` | ucw/binheap.h:128-137 | inserting distinct nodes one after the other yields a valid heap of exactly these nodes |
| `BinHeapShape.Drain` | ucw/binheap.h:155-171 | deleting minima until the heap is empty yields all of its nodes in ascending order |
| `BinHeapShape.Sort` | ucw/binheap.h:66-171 | inserting any nodes and draining the heap gives an ascending permutation of them |
| `JsonText.SurrogatesInvert` | ucw-json/format.c:53-58 | the two escapes written for a code point above 0xFFFF are a high and a low surrogate and combine to it again |
| `JsonText.CombineInverts` | ucw-json/parse.c:244-252 | a pair of surrogates combines to a code point above 0xFFFF that is written as the same pair |
| `JsonText.HexRoundTrip` | ucw-json/parse.c:166-183 | four hexadecimal digits as written are read back as their value |
| `JsonText.CharRoundTrip` | ucw-json/format.c:25-66 | a written character is read back as itself exactly if it is readable, and refused otherwise |
| `JsonText.CharsRoundTrip` | ucw-json/parse.c:185-278 | a written string is read back as its meaning if this consists of readable code points and refused otherwise |
| `JsonText.PrintMeaning` | ucw-json/format.c:25-66 | a string and its meaning are written alike |
| `JsonText.MeaningIdempotent` | ucw-json/parse.c:237-262 | the meaning of a meaning is itself |
| `JsonText.MeaningReadable` | ucw-json/parse.c:185-278 | a string of readable code points is its own meaning |
| `JsonNumber.NumberScanned` | ucw-json/parse.c:60-135 | every numeral of the grammar in section 6 of RFC 7159, followed by a character that cannot continue it, is scanned to exactly its end |
| `JsonNumber.ScannedIsNumber` | ucw-json/parse.c:60-135 | whatever is scanned as a number is a nonempty prefix of the input and has that grammar |
| `JsonValue.LexConsumes` | ucw-json/parse.c:280-333 | every token but the end of input consumes characters, and the end is reported only after nothing but white space |
| `JsonRoundTrip.ValueReadBack` | ucw-json/parse.c:353-437 | in any context that ends a value, a written value is read back as itself if acceptable and is an error otherwise |
| `JsonRoundTrip.ReadWritten` | ucw-json/parse.c:439-452 | for all four formats, parsing a written tree gives its meaning if this is acceptable and an error otherwise |
| `JsonRoundTrip.RoundTrip` | ucw-json/format.c:160-166 | parsing a written tree gives the same tree exactly if its numbers are in range, its keys distinct and its strings readable |
| `JsonRoundTrip.ReadIsStable` | ucw-json/parse.c:439-452 | what was read from a written file is written and read back without change ever after, in any indentation |
| `JsonStable.ReadIsWritable` | ucw-json/parse.c:439-452 | the tree read from any text can be written, and is read back as it is exactly if non-ASCII characters are escaped or no string holds 0xF0000 |
| `JsonGrammar.StringsAre` | ucw-json/parse.c:185-278 | a string is read with a given result exactly if it is written in the grammar of section 7 of RFC 7159, with raw characters, the eight short escapes, hexadecimal digits of either case and surrogate pairs, means that result and holds no code point the reader refuses |
| `JsonSyntax.EofIs` | ucw-json/parse.c:280-333 | the end of input is seen exactly after nothing but the four white space characters of section 2 of RFC 7159 |
| `JsonSyntax.PunctuationRead` | ucw-json/parse.c:280-333 | each of the six structural characters is a token, after any white space |
| `JsonSyntax.TextsAre` | ucw-json/parse.c:353-452 | a text is read as a given tree exactly if it has the grammar of RFC 7159, with white space around every token, and means this tree, with strings allowed, numbers in range and keys that differ |
| `JsonLayout.PlainText` | ucw-json/format.c:25-158 | written texts hold no control characters but tabs and line ends, and with escaping only ASCII characters |
| `JsonLayout.EscapesAre` | ucw-json/format.c:38-66 | which escapes are written |
| `JsonLayout.LayoutIs` | ucw-json/format.c:92-158 | elements and attributes are written one to a line with the indentation of their depth and commas between them |
| `JsonFile.WriteRead` | ucw-json/format.c:160-166 | the writer and the reader run one after the other return the same tree exactly if it is acceptable, and its meaning or an exception otherwise |
| `JsonFile.ReadWriteRead` | ucw-json/parse.c:439-452 | the same for the reader, the writer and the reader again at work |
| `JsonObject.LookupIff` | ucw-json/json.c:135-141 | with distinct keys the first pair found for a key is the only one |
| `JsonObject.ObjectNode.Get` | ucw-json/json.c:135-141 | looks a key up in the map that the pairs represent |
| `JsonObject.ObjectNode.Set` | ucw-json/json.c:112-133 | keeps keys distinct and sets or removes exactly this key in the map |
| `JsonReader.Reader.GetChar` | ucw-json/parse.c:35-52 | gives the pushed-back or the next character and refuses malformed input |
| `JsonReader.Reader.ParseNumber` | ucw-json/parse.c:60-135 | reads exactly what the scan of a number takes, or fails with the same error; a number out of range is refused |
| `JsonReader.Reader.ParseName` | ucw-json/parse.c:137-164 | reads exactly the three names and refuses others |
| `JsonReader.Reader.ParseString` | ucw-json/parse.c:185-278 | reads exactly what the scan of a string takes, or fails with the same error |
| `JsonReader.Reader.ReadToken` | ucw-json/parse.c:280-333 | reads the first token of the remaining input |
| `JsonReader.Reader.PeekToken` | ucw-json/parse.c:335-340 | shows the next token without consuming it |
| `JsonReader.Reader.NextValue` | ucw-json/parse.c:353-437 | reads the first value of the remaining input or fails with the same error, whatever token is pushed back |
| `JsonReader.Reader.ParseFile` | ucw-json/parse.c:439-452 | parses a whole file as specified, and the shared trivial token never becomes part of the tree |
| `JsonWriter.Writer.WriteString` | ucw-json/format.c:25-66 | appends exactly the written form of the string |
| `JsonWriter.Writer.WriteSpace` | ucw-json/format.c:78-90 | appends a space, or a line end and the current indentation |
| `JsonWriter.Writer.WriteValue` | ucw-json/format.c:92-158 | appends exactly the written form of the tree at the current indentation and restores the indentation |
| `JsonWriter.Writer.WriteFile` | ucw-json/format.c:160-166 | appends the written tree and a line end |
| `XmlNamespaces.UndoRespectsLookup` | ucw-xml/ns.c:227-248 | undoing the same records on tables that look alike gives tables that look alike |
| `XmlNamespaces.UndoAssign` | ucw-xml/ns.c:141-149 | a declaration together with its record is undone exactly, below any later records |
| `XmlNamespaces.InScopeMeans` | ucw-xml/ns.c:151-174 | the namespace of a prefix is the value of the last attribute that declares it in the innermost element with one, or one of the two that are always known |
| `XmlNamespaces.UnknownIff` | ucw-xml/ns.c:151-174 | a prefix is unknown exactly if no attribute of an enclosing element declares it and it is neither xml nor xmlns |
| `XmlNamespaces.TagOne` | ucw-xml/ns.c:151-225 | an element has one tag: attributes without a prefix have no namespace, elements without one have the default, and a prefix means what its innermost declaration says |
| `XmlNamespaces.TagsOne` | ucw-xml/ns.c:176-248 | so has a tree one sequence of tags |
| `XmlNamespaces.Namespaces.ByName` | ucw-xml/ns.c:125-139 | gives a name its only number, a new one if it is new, and keeps names and numbers in bijection |
| `XmlNamespaces.Namespaces.ById` | ucw-xml/ns.c:116-123 | gives the name of a number |
| `XmlNamespaces.Namespaces.Resolve` | ucw-xml/ns.c:151-174 | splits a name at its first colon and gives the namespace of the prefix in the table |
| `XmlNamespaces.Namespaces.PushElement` | ucw-xml/ns.c:176-225 | the tag is that of the element after its own declarations; each faulty declaration and each unknown prefix is an error |
| `XmlNamespaces.Namespaces.PopElement` | ucw-xml/ns.c:227-248 | restores the table and the stack of records from before the element |
| `XmlNamespaces.Namespaces.Process` | ucw-xml/ns.c:176-248 | for every tree of elements the tags are those that the declarations mean, by their positions, and the state afterwards is that from before |
| `XmlEvents.FirstIs` | ucw-xml/parse.c:1078-1079 | the first event a mask lets through is in the mask and none before it is |
| `XmlEvents.StopsAreFiltered` | ucw-xml/parse.c:1078-1079 | with one mask all the time the stops are the events of its kinds |
| `XmlPull.LayeredConsumed` | ucw-xml/parse.c:59-78 | reading within a source keeps the layers of records |
| `XmlPull.NamesInnermost` | ucw-xml/parse.c:80-112 | the current node is the innermost open element according to the records |
| `XmlPull.Parser.constructor` | ucw-xml/parse.c:1096-1105 | the events to come are those of the document |
| `XmlPull.Parser.PushSource` | ucw-xml/source.c:69-88 | starting an entity saves the flags and the depth and adds a layer |
| `XmlPull.Parser.PopSource` | ucw-xml/source.c:105-125 | succeeds exactly if nothing is open in the entity; then the record popped is that of the source, and flags and depth are those from before it |
| `XmlPull.Parser.PushElement` | ucw-xml/parse.c:770-867 | puts the record of the element on top, and its start is the next event |
| `XmlPull.Parser.ParseEtag` | ucw-xml/parse.c:908-931 | reports the end of the innermost element, whatever name the tag has, and an error exactly if that is not its name |
| `XmlPull.Parser.PopElement` | ucw-xml/parse.c:868-906 | pops the top record and the current node and restores the flags; it succeeds exactly if the element started in the current source, and only then the record was that of the element |
| `XmlPull.Parser.RunContent` | ucw-xml/parse.c:1181-1272 | from any point in the content, the next event is the first of those to come and the others remain |
| `XmlPull.Parser.RunProlog` | ucw-xml/parse.c:1108-1179 | the same before the root element; an end tag in its place ends in the failed assertion |
| `XmlPull.Parser.RunEpilog` | ucw-xml/parse.c:1274-1326 | the same after the root element; at the end of the document every record has been popped |
| `XmlPull.Parser.Step` | ucw-xml/parse.c:1074-1330 | resuming from any state, the machine reports the first of the events to come and keeps its invariant |
| `XmlPull.Parser.Next` | ucw-xml/parse.c:1074-1330 | for any mask returns the first event it lets through, or tells how the document ends, and all later events remain |
| `XmlPull.PullAll` | ucw-xml/parse.c:1332-1340 | for every document and any masks, one for each call, the stops are those of the document's events |
| `XmlTree.NodeRead` | ucw-xml/parse.c:1181-1272 | a well-formed node within an element has the events of the walk through it and leaves open what was open |
| `XmlTree.EndTagInEntity` | ucw-xml/parse.c:908-931 | an end tag in an entity with nothing open is reported as the end of the innermost element and followed by the fatal error |
| `XmlTree.DocumentRead` | ucw-xml/parse.c:1096-1326 | every well-formed document, with a root element of either form and with white space, comments, processing instructions and a document type declaration around it, ends well and has the events of the walk through it |
| `XmlFidelity.WalkKeeps` | ucw-xml/parse.c:1181-1272 | the events of a node hold every character and every piece of markup that is to be seen, in order |
| `XmlFidelity.DocumentKeeps` | ucw-xml/parse.c:1096-1326 | the same for documents, and the characters between two pieces of markup are always in one event |
| `XmlTree.PullTree` | ucw-xml/parse.c:1332-1340 | a well-formed document never leads to a fatal error, and any masks stop at the events of the walk that they let through |
| `XmlTree.AssertionIff` | ucw-xml/parse.c:908-931 | the assertion fails exactly if an end tag follows what may stand before the root element |
| `XmlSource.NormAppend` | ucw-xml/source.c:188-225 | normalisation by lookahead can be done one character at a time knowing only whether the last one was a carriage return |
| `XmlSource.NormPrefix` | ucw-xml/source.c:180-228 | what has been produced is a prefix of the normalised whole input |
| `XmlSource.NormConcat` | ucw-xml/source.c:195-215 | texts are normalised one after the other, unless they part a line end of two characters |
| `XmlSource.LineEnds` | ucw-xml/source.c:195-215 | which characters are line ends in XML 1.0 and 1.1, and that they become line feeds |
| `XmlSource.Source.ReadOne` | ucw-xml/source.c:188-225 | a character read keeps the produced text equal to the normalised input read so far, and the row count |
| `XmlSource.Source.Refill` | ucw-xml/source.c:180-228 | refills at any fill level, also after a carriage return at the end of the buffer, keep this and make progress |
| `XmlSource.Source.GetChar` | ucw-xml/internals.h:155-174 | gives the next character of the normalised whole input, and the end only after all of it |
| `XmlSource.Source.UngetChar` | ucw-xml/internals.h:200-203 | takes back exactly the last character |
| `XmlSource.Source.SourceRow` | ucw-xml/source.c:268-276 | one plus the line ends taken, however many are in the buffer |
| `XmlSource.ReadAll` | ucw-xml/source.c:180-276 | all characters together are the line-end normalisation of the input, and the row is right at each of them |
| `XmlWhite.WordsOfJoined` | ucw-xml/parse.c:640-659 | words joined with one space are split into the same words |
| `XmlWhite.Idempotent` | ucw-xml/parse.c:640-659 | collapsing twice is collapsing once |
| `XmlWhite.LettersKept` | ucw-xml/parse.c:640-659 | nothing but spaces is dropped or added |
| `XmlWhite.CopyWord` | ucw-xml/parse.c:648-649 | moves a word down without touching what has not been read |
| `XmlWhite.NormalizeWhite` | ucw-xml/parse.c:640-659 | in place, the text becomes its words joined with one space, its new length is returned and nothing behind it changes |
| `Base224.BlockRoundTrip` | ucw/base224.c:31-59 | the five digits of a block of 39 bits stand for the block |
| `Base224.DigitsAre` | ucw/base224.c:36-58 | which bits of a block each digit holds, and that the others make up the number in base 7 |
| `Base224.DroppedDigits` | ucw/base224.c:90-94 | in a block of fewer than 8n bits all digits from the n-th on are zero digits |
| `Base224.PartialRoundTrip` | ucw/base224.c:90-94 | so the first n digits of such a block stand for it |
| `Base224.RoundTrip` | ucw/base224.c:61-170 | decoding the code of any byte string gives the string |
| `Base224.CodeLength` | ucw/base224.h:33 | the exact length of the code, which is at most that of whole blocks |
| `Base224.DecodedLength` | ucw/base224.c:98-170 | the length of what is decoded depends on the number of digits only |
| `Base224.Chunks` | ucw/base224.h:35-41 | a string of a multiple of 39 bytes can be encoded apart from what follows and takes 40 bytes for each 39 |
| `Base224Buffers.PutByte` | ucw/base224.c:71-80 | a byte enters the two-word window above its bits without disturbing them |
| `Base224Buffers.EncodeBlock` | ucw/base224.c:31-59 | writes the digits of the low 39 bits of the window |
| `Base224Buffers.Encode` | ucw/base224.c:61-96 | the buffer holds the code of the input, and nothing is written beyond the size the header asks for |
| `Base224Buffers.DecodeBlock` | ucw/base224.c:112-151 | reads the block that up to five bytes stand for; an assertion fails exactly if one of them is below 0x20 |
| `Base224Buffers.Decode` | ucw/base224.c:98-170 | for any string an assertion fails exactly if it holds a byte below 0x20, after the whole blocks before it; otherwise the buffer holds the decoding of the string |
| `Base224Buffers.DecodeInvalid` | ucw/base224.h:21-26 | a byte below 0x20 is not ignored |
| `Base224Buffers.EncodeDecode` | ucw/base224.c:61-170 | the code consists of bytes from 0x20 to 0xff, fits its bound and is decoded to the original |
| `Base64.RoundTrip` | ucw/base64.c:27-122 | decoding the code of any byte string gives the string |
| `Base64.Alphabet` | ucw/base64.c:20-25 | the alphabet and the padding are those of section 4 of RFC 4648 |
| `Base64.Examples` | ucw/base64.c:27-58 | the examples of section 10 of RFC 4648 |
| `Base64.SkippedAre` | ucw/base64.c:72-79 | the characters skipped are all but the alphabet, the padding, space and zero |
| `Base64.SkipAnywhere` | ucw/base64.c:86-101 | such characters inserted anywhere do not change what is decoded |
| `Base64.EncodedLength` | ucw/base64.h:31 | the length of the code |
| `Base64.Encode` | ucw/base64.c:27-58 | the buffer holds the code of the input |
| `Base64.AssembledMore` | ucw/base64.c:103-119 | one more value completes a byte, except for the first of four |
| `Base64.PutSextet` | ucw/base64.c:103-119 | the byte being put together and the complete ones are right after each value |
| `Base64.Decode` | ucw/base64.c:60-122 | the buffer holds the bytes assembled from the characters that count, for any text |
| `Base64.EncodeDecode` | ucw/base64.c:27-122 | what is encoded and then decoded in buffers is the original |
| `Sums.CauchySchwarz` | images/sig-seg.c:68-86 | the square of a sum is at most the number of terms times the sum of squares, with equality only for equal terms |
| `Sums.VarianceGrows` | images/sig-seg.c:129-140 | more values never make the number of values times their squares less the square of their sum smaller |
| `ImageRegions.Fits` | images/sig-init.c:35-39 | with fewer than 65536 blocks sums and sums of squares fit into 32 bits |
| `ImageRegions.AddBlock` | images/sig-seg.c:54-66 | a block added to a region keeps its count, sums and sums of squares exact in 32 bits |
| `ImageRegions.NoUnderflow` | images/sig-seg.c:68-86 | the squared sums subtracted from the squares are never too large |
| `ImageRegions.FinishRegion` | images/sig-seg.c:68-86 | computes the quadratic error of the region in 64 bits |
| `ImageRegions.ErrorIs` | images/sig-seg.c:68-86 | this error is the total variance divided by the number of blocks, rounded up |
| `ImageRegions.SelectAxis` | images/sig-seg.c:129-140 | the chosen axis has a single value exactly if the region is stuck; it is the first one with the largest of the variances as they are compared, which are the true ones if all are below 2^32 |
| `ImageCalm.Permuted` | images/sig-seg.c:54-66 | sums and sums of squares do not depend on the order of the blocks |
| `ImageCalm.PartCalmer` | images/sig-seg.c:205-218 | on no axis a part of a region has a larger variance than the region |
| `ImageCalm.CalmNotStuck` | images/sig-seg.c:129-140 | a stuck region whose variances fit into 32 bits has no error |
| `ImageCalm.StuckAtFirst` | images/sig-seg.c:107-115 | the region of all blocks is stuck, and has an error, exactly as the columns of the image say |
| `ImageCalm.SmallImage` | images/sig-seg.c:129-140 | in an image of up to 514 blocks all variances fit into 32 bits |
| `ImageCalm.KindsStuck` | images/sig-seg.c:129-140 | m and n blocks of two kinds are stuck exactly if m * n times the square of the difference is zero on the first axis and a multiple of 2^32 on all others |
| `ImageCalm.OneAxisStuck` | images/sig-seg.c:129-140 | if they differ on one axis but the first only, exactly if this product is a multiple of 2^32 |
| `ImageSegment.KindsAtOnce` | images/sig-seg.c:119-140 | the exact condition, on the numbers and features of two kinds of blocks and the first threshold, for the first region to be over the threshold and stuck |
| `ImageSegment.StuckExample` | etc/images:37 | 32768 blocks of any kind and 16384 blocks that differ from it by 8 on the second axis are stuck together, with an error of 699051, which reaches the first threshold of the configuration |
| `ImageSplit.OneValue` | images/sig-seg.c:179-184 | on an axis with a single value the part above it is empty, so its error is a division by zero |
| `ImageSplit.CountValues` | images/sig-seg.c:145-158 | counting in a table that is packed in place yields the histogram of the values |
| `ImageSplit.SortValues` | images/sig-seg.c:160-176 | sorting and counting runs yields the same histogram |
| `ImageSplit.SelectSplit` | images/sig-seg.c:178-202 | divides by zero exactly if there is a single value; otherwise the value chosen is the smallest of those that make the error of the two parts smallest, and leaves blocks on both sides; all running sums are exact in 32 bits and the errors in 64 |
| `ImageSegment.Divide` | images/sig-seg.c:205-218 | both parts have exact numbers, together have the blocks of the region, and are divided by the value |
| `ImageSegment.SplitRegion` | images/sig-seg.c:129-220 | divides by zero exactly if the region is stuck; otherwise it is split into two nonempty parts with exact numbers and errors, on the preferred axis at the smallest value for which the error of the parts is smallest |
| `ImageSegment.SplitKeeps` | images/sig-seg.c:205-218 | replacing a region by its parts keeps the partition of the blocks |
| `ImageSegment.Prequant` | images/sig-seg.c:88-228 | a partition of the blocks into 1 to 16 nonempty regions with exact numbers and errors, reached by such a split of a region of largest error over the threshold each time; it ends only for the number of regions, because each region is below the threshold for their number or has one block, or by a division by zero at a stuck region of largest error over the threshold; the latter never if the variances of the image fit into 32 bits and the thresholds are positive, always if all blocks together are stuck over the first threshold, and with one threshold only then |
| `ImageSegment.PivotIsMean` | images/sig-seg.c:244-249 | the pivot computed with a reciprocal is the mean rounded down or one less |
| `ImagePostquant.TermNotNegative` | images/sig-seg.c:304-309 | a term of the segmentation error never underflows |
| `ImagePostquant.SetPivot` | images/sig-seg.c:304-309 | the pivot is that of the blocks, and their squares less pivot times sum are added to the error modulo 2^32 |
| `ImagePostquant.Nearest` | images/sig-seg.c:270-286 | there is always a best region, its pivot is nearest, and it is the last of those |
| `ImagePostquant.Assign` | images/sig-seg.c:258-296 | every block goes to a region with the nearest pivot, and the regions are a partition with exact numbers |
| `ImagePostquant.DropEmpty` | images/sig-seg.c:312-316 | moving the last region to the place of an empty one loses no block |
| `ImagePostquant.CompactedIs` | images/sig-seg.c:312-316 | without empty regions every other stays where it is unless it is moved to the place of an empty one |
| `ImagePostquant.Finish` | images/sig-seg.c:298-316 | drops exactly regions without blocks, in the way of the code; the others keep their blocks and get the pivots of these, and the error is the sum over regions and features modulo 2^32 |
| `ImagePostquant.Postquant` | images/sig-seg.c:232-334 | a run of rounds in each of which every block goes to the last of the regions with the nearest pivot before the regions are finished; it goes on exactly as long as there were fewer steps than the minimum or the error became smaller by the threshold, up to the maximum; the result is a partition into nonempty regions with their own pivots |
| `ImagePostquant.Segmentation` | images/sig-seg.c:336-347 | both phases together, for every image the size limit admits: the run of splits, the run of rounds from where it ended, and a partition with pivots unless there is a division by zero, which the variances of the image and the thresholds exclude or enforce as for `Prequant` |
| `ImagePostquant.SegmentExample` | etc/images:37 | the segmentation of each of these images with the thresholds of the configuration divides by zero |
| `ImagePostquant.InOneRegion` | images/sig-seg.c:267-296 | in a partition each block is in exactly one region |
| `ImageMatch.NormalizeWeights` | images/sig-init.c:277-286 | for 1 to 16 regions all weights are at least 1 and sum to 128, each being its share clamped to what the regions before it can spare; for positive shares of a whole they are the shares, the first region getting what rounding lost |
| `ImageMatch.Pack` | images/sig-cmp-gen.h:129 | the numbers of both regions and 24 bits of the distance can be read from an entry |
| `ImageMatch.DistanceMatrix` | images/sig-cmp-gen.h:62-155 | the matrix has exactly one entry for every pair of regions, which holds their distance, and no others |
| `ImageMatch.PermutedMatrix` | images/sig-cmp-gen.h:170 | sorting keeps this |
| `ImageMatch.EntryLeft` | images/sig-cmp-gen.h:173-206 | while weight is left there is an entry of the matrix that has not been used |
| `ImageMatch.Transport` | images/sig-cmp-gen.h:170-206 | for every order of the matrix the loop ends within it, each move takes as much as both regions still have, 128 units are moved, exactly the weight of each region from it and to it, and the cost fits into 32 bits |
| `ImageMatch.CostByPairs` | images/sig-cmp-gen.h:173-206 | the cost of the moves is the sum over all pairs of regions of what goes from one to the other times the low 24 bits of their distance |
| `ImageMatch.IntegratedMatch` | images/sig-cmp-gen.h:62-206 | for any two signatures of up to 16 regions: the cost, by pairs of regions and their distances, of greedy moves along the sorted matrix that match exactly the normalised weight of every region; the largest number if one has no regions |
| `Asio.FinishOrder` | ucw/asio.c:111-132 | finishing the first running request changes neither the order of those to be returned nor that of those to be recycled |
| `Asio.Queue.constructor` | ucw/asio.c:44-60 | a new queue is valid and has no requests |
| `Asio.Queue.Get` | ucw/asio.c:85-109 | the request is new or the first idle one, and it is now with the caller only |
| `Asio.Queue.Put` | ucw/asio.c:197-206 | a request of the caller becomes the last idle one |
| `Asio.Queue.RawWait` | ucw/asio.c:111-132 | makes progress exactly if something is running; the first running request gets the status the worker reports, and the program dies exactly if it is a write-back and that is not its length |
| `Asio.Queue.Submit` | ucw/asio.c:158-180 | the assertion fails exactly for a write-back with a limit of zero; a write-back at the limit waits for the requests up to the first write-back and dies exactly if that was not complete; otherwise the request runs last |
| `Asio.WriteBackWithoutRoom` | ucw/asio.c:158-180 | a queue with a limit of zero on which the first write-back makes the assertion fail |
| `Asio.Queue.Wait` | ucw/asio.c:182-195 | returns the first request in the order of submission that is no write-back, and none exactly if there is none; dies exactly if one of the write-backs before it was not complete |
| `Asio.Queue.Sync` | ucw/asio.c:208-215 | its assertion never fails, and afterwards nothing is running; dies exactly if one of the write-backs was not complete |
| `Asio.Queue.Cleanup` | ucw/asio.c:62-83 | frees every request ever created exactly once |
| `Adler32.DelayedReduction` | ucw/adler32.c:32-46 | it does not matter when the sums are reduced, from any start |
| `Adler32.BlockFits` | ucw/adler32.c:13-14 | in a block of at most 5552 bytes nothing overflows 32 bits, even if the sums before it were not reduced |
| `Adler32.NmaxIsLargest` | ucw/adler32.c:14 | a block one byte longer can overflow |
| `Adler32.ClosedForm` | ucw/adler32.c:23-48 | the checksum of any data is that of section 8.2 of RFC 1950, written as sums |
| `Adler32.Block` | ucw/adler32.c:33-43 | the loops with and without unrolling compute the exact sums of a block |
| `Adler32.Update` | ucw/adler32.c:23-48 | equals the definition that reduces with every byte, and is that of no data without a buffer |
| `Adler32.UpdateConcat` | ucw/adler32.c:23-48 | the checksum of consecutive pieces is that of the whole |
| `DupPyramid.InTable` | images/dup-init.c:101-105 | every block lies within the bytes reserved for the table |
| `DupPyramid.Disjoint` | images/duplicates.h:60-63 | different blocks do not overlap |
| `DupPyramid.LastBlock` | images/dup-init.c:105 | the largest block ends with the table |
| `DupPyramid.Symmetries` | images/duplicates.h:12-21 | which symmetry each transformation is |
| `DupPyramid.WalkAt` | images/dup-cmp.c:90-146 | the start and the steps set up for each transformation lead from each pixel to its image under a symmetry of the square |
| `DupPyramid.WalkOnce` | images/dup-cmp.c:90-146 | every pixel of the second block is the image of exactly one pixel |
| `DupPyramid.ErrSumTransformed` | images/dup-cmp.c:41-65 | every read is inside of its block, each pixel is compared with its image, and the sum is exact for rows of up to 22017 pixels and wraps around as in 32 and 64 bits otherwise |
| `DupPyramid.NoErrorIff` | images/dup-cmp.c:41-65 | the sum is zero exactly if the second block is the image of the first one, pixel by pixel |
| `DupBuild.HalveWidth` | images/dup-init.c:117-129 | fills a block from one of twice the width, in place, and changes nothing else |
| `DupBuild.HalveHeight` | images/dup-init.c:131-150 | fills a block from one of twice the height, in place, and changes nothing else |
| `DupBuild.OtherBlock` | images/duplicates.h:60-63 | writing one block keeps every other block |
| `DupBuild.Build` | images/dup-init.c:107-150 | in the end the block of the scaled image is untouched and each other block is the average of the block it was filled from |
| `DupBuild.Mean` | images/dup-init.c:45-51 | twice the mean of two colours is their sum or one less |
| `DupArea.AtIs` | images/dup-init.c:45-51 | the three colours of a pixel are adjacent bytes of the table |
| `DupArea.MeanOfArea` | images/dup-init.c:107-150 | in a complete pyramid each pixel is the mean of the area of the scaled image it covers, less at most one half for each halving |
| `DupArea.BetweenOfArea` | images/dup-init.c:107-150 | and it lies between the least and the greatest of the pixels there |

## Left out

- Character set conversion, generated character tables, image file formats, configuration and command-line parsing: not part of this model.
- The value of a JSON number in double precision: numbers are carried as their text, and which of them the C library refuses as out of range is a parameter.
- Line and column numbers of JSON errors.
- Memory pools and the reclaiming of DOM nodes by the XML parser; handlers called by the parser; the flags for tags.
- XML lexical analysis, document type definitions, entity tables, attribute validation and error recovery: the pull parser reads well-formed lexical items.
- Computation of the features of blocks and of the distances between regions: distances are arbitrary numbers here. For textured images an entry is that of 16 times the distance.
- The heap of regions in pre-quantisation and the sorter of the distance matrix are given by their contracts: any region of largest error, and any ordered permutation.
- Lists of blocks linked through the blocks and the array of regions are sequences of block numbers and of region records: sharing and relinking of list cells are not modelled.
- Asio.Queue.RawWait: the worker is modelled as serving requests in the order of submission; the status it reports for each is a parameter.
- ImageMatch.IntegratedMatch: the check that both images are textured or not, and the scaling of the cost by 32 and by the ratio of sides are left out.
- DupBuild.Build: scaling the image into the largest block is done by code that is not part of this model.
- Base224Buffers.PutByte: bitwise or is written as addition; that the operands have no common bits is a precondition of the function that stands for it.
