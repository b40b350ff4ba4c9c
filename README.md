# Huffman coding engine

This project models huffman.c, a small interactive Huffman coder. It keeps two global
tables and updates them in place. The frequency table holds up to MAX_CHAR (256) characters,
each with the frequency the user gave it. The code table holds the code computed for each of
those characters.

The operations are:
- `addFrequency` inserts a character or updates its frequency.
- `buildHuffmanTree` makes one leaf per table row. It then repeatedly merges the two live
  nodes of least frequency: the merged node goes into the first minimum's slot and the last
  live node moves into the second minimum's slot.
- `generateCodes` and `calculateHuffmanCodes` walk the tree depth-first. They write '0' for a
  left branch and '1' for a right branch into a code buffer, and record the path at each leaf.
- `encodeString` concatenates the code of each input character.
- `decodeBits` follows bits from the root and prints a leaf's character each time it reaches
  one.
- `clearFrequencyTable` empties both tables.

The model has the same shape:
- `Engine.dfy` is a class `Engine` whose fields are the two arrays and their fill counts. Its
  methods do what the C functions do, with the same loops.
- Each method is proved against a specification function on values:
  - `Upsert` for `addFrequency`;
  - `EarliestMin`, `MergeStep`, `Combine` and `HuffmanTree` for the tree construction;
  - `CodeList` and `Codes` for code generation;
  - `Encode` for encoding;
  - `Walk` and `Decode` for decoding.
- Lemmas then prove what those functions promise:
  - the two-minimum scan selects two distinct slots, and the earliest ones of least
    frequency;
  - a merge keeps the live nodes (as a multiset, apart from the two it joins), their total
    frequency and their leaves;
  - the root's frequency is the table total and its leaves are exactly the table entries;
  - the codes are prefix-free, and each code is its leaf's root-to-leaf path;
  - decoding the encoding of a string gives the string back.

Tree nodes are never changed after `createNode` builds them, so they are a `datatype`; the
node array of `buildHuffmanTree` is an `array<Tree>`.

Behaviour follows the C code where a cleaner design would differ:
- `encodeString` skips characters that have no code. No error is raised (`EncodeSkipsUnknown`).
- `decodeBits` raises no error when the bits end part-way down a path; the unfinished code is
  dropped (`UnfinishedCodeDropped`).
- With a single-entry table the root is a leaf and its code is empty. The first bit then makes
  the C code descend to a NULL child and dereference it. The model stops there with the status
  `LeafRoot` and prints nothing (`LeafRootPrintsNothing`).
- A character that is not '0' or '1' stops decoding with the status `InvalidBit`, after the
  characters already printed (`StopsAtInvalidBit`).
- Adding a new character to a full table leaves the table unchanged (the C code writes an
  error message).
- Building, calculating codes and decoding require a non-empty table. On an empty table the C
  code returns an uninitialised node.

## Model

| member | source | states |
|---|---|---|
| Trees.LeafCountIsMultiplicity | huffman.c:9-13 | the number of leaves holding an entry is its multiplicity in the left-to-right leaf sequence |
| Trees.HeightBelowLeafCount | huffman.c:98-117 | a tree with n leaves is less than n levels deep, so every code and the NUL written after it fit in the MAX_CHAR code buffer |
| Trees.TotalConcat | huffman.c:16-19 | the total frequency of two concatenated entry lists is the sum of their totals |
| Trees.WellFormedWeight | huffman.c:88 | when every internal node's frequency is the sum of its children's, the root's frequency is the total of its leaves |
| FrequencyTable.FreqIndexFrom | huffman.c:49-54 | the scan from a given row returns the first row holding the character, or -1 when no row at or after it does |
| FrequencyTable.FreqIndex | huffman.c:49-54 | the lookup returns the first row holding the character, or -1 exactly when no row holds it |
| FrequencyTable.Upsert | huffman.c:48-62 | addFrequency grows the table by at most one row and never moves or renames an existing row |
| FrequencyTable.UpsertKeepsDistinct | huffman.c:48-62 | addFrequency keeps the characters of the table distinct and the table within MAX_CHAR rows |
| FrequencyTable.UpsertThenLookup | huffman.c:48-62 | after addFrequency(c, f), c has frequency f unless it was new and the table full (then nothing changes); the table grows by one row exactly when c was new and there was room; every other character keeps its row and entry |
| TreeBuilder.EarliestMin | huffman.c:77-85 | the scan's result is a scanned slot other than the skipped one, and -1 only when there is no such slot |
| TreeBuilder.EarliestMinIsLeast | huffman.c:78-85 | the scan's slot has the least frequency among the slots scanned, and every earlier scanned slot has a strictly greater frequency (ties go to the first) |
| TreeBuilder.EarliestMinSkipOutside | huffman.c:82-84 | skipping a slot outside the scanned range selects the same slot as skipping nothing |
| TreeBuilder.FirstMin | huffman.c:77-85 | minIndex1 after the scan is a live slot |
| TreeBuilder.SecondMin | huffman.c:77-85 | minIndex2 after the scan is a live slot different from minIndex1 |
| TreeBuilder.Merged | huffman.c:88 | createNode's merged node is internal, its frequency is the sum of its children's, and its left child (minIndex1) is no heavier than its right child (minIndex2) |
| TreeBuilder.PlaceAndDrop | huffman.c:89-91 | the slot update shortens the live range by one |
| TreeBuilder.MergeStep | huffman.c:77-91 | one pass of the merge loop lowers nodeCount by one |
| TreeBuilder.InitialForest | huffman.c:70-72 | one leaf per table row |
| TreeBuilder.WeightToPrefix | huffman.c:89-91 | two node arrays agreeing on slots 0..k have the same total frequency over them |
| TreeBuilder.WeightToUpdate | huffman.c:89-90 | overwriting one slot changes the total frequency by the difference of the two nodes' frequencies |
| TreeBuilder.CountToPrefix | huffman.c:89-91 | two node arrays agreeing on slots 0..k hold the same leaves in them |
| TreeBuilder.CountToUpdate | huffman.c:89-90 | overwriting one slot changes the leaves held by the difference of the two nodes' leaves |
| TreeBuilder.OccurrencesPrefix | huffman.c:89-91 | two node arrays agreeing on slots 0..k hold each node equally often in them |
| TreeBuilder.OccurrencesUpdate | huffman.c:89-90 | overwriting one slot changes each node's count by the two nodes' contributions |
| TreeBuilder.OccurrencesPrefixMultiplicity | huffman.c:66 | the count of a node in slots 0..k is its multiplicity in that prefix |
| TreeBuilder.OccurrencesMultiplicity | huffman.c:66 | the count of a node in all live slots is its multiplicity |
| TreeBuilder.PlaceAndDropOccurrences | huffman.c:89-91 | after the slot update, each node's count plus its count among the two overwritten slots equals its old count plus its count in the new node |
| TreeBuilder.PlaceAndDropMultiset | huffman.c:89-91 | the slot update keeps every live node except the two it overwrites, and adds the new node (as multisets) |
| TreeBuilder.PlaceAndDropWeight | huffman.c:89-91 | the slot update changes the total frequency by the new node's minus the two overwritten nodes' |
| TreeBuilder.PlaceAndDropLeaves | huffman.c:89-91 | the slot update changes the leaves held by the new node's minus the two overwritten nodes' |
| TreeBuilder.SelectedSlots | huffman.c:77-85 | minIndex1 and minIndex2 are two distinct live slots; freq[minIndex1] <= freq[minIndex2] <= every other slot's; each is the earliest slot of its minimum |
| TreeBuilder.MergeStepMultiset | huffman.c:88-91 | a merge replaces the two selected nodes by their merge and keeps every other live node |
| TreeBuilder.MergeStepWeight | huffman.c:88-91 | a merge keeps the total frequency of the live nodes |
| TreeBuilder.MergeStepLeaves | huffman.c:88-91 | a merge keeps the leaves of the live nodes |
| TreeBuilder.MergeStepWellFormed | huffman.c:88-91 | a merge keeps every live node's frequency equal to the sum of its children's |
| TreeBuilder.Combine | huffman.c:75-94 | the merge loop's root weighs the total frequency of the nodes the loop starts from |
| TreeBuilder.CombineLeaves | huffman.c:75-94 | the root's leaves are exactly the leaves of the nodes the loop starts from |
| TreeBuilder.CombineWellFormed | huffman.c:75-94 | the loop builds a tree whose internal frequencies are sums of their children's |
| TreeBuilder.CombineInternal | huffman.c:75-94 | from two or more nodes the loop returns an internal root |
| TreeBuilder.InitialForestMeasures | huffman.c:70-72 | the leaves built from the table weigh the table total and are well formed |
| TreeBuilder.InitialForestCount | huffman.c:70-72 | the leaves built from the table hold each entry as often as the table does |
| TreeBuilder.HuffmanTree | huffman.c:65-95 | the tree built from a non-empty table has the table's total frequency at its root |
| TreeBuilder.HuffmanTreeProperties | huffman.c:65-95 | the root's frequency is the table total; its leaves are the table entries (as a multiset); internal frequencies are sums of their children's; the root is internal exactly when the table has two or more rows, and is the entry's leaf for a one-row table |
| CodeTable.CodeList | huffman.c:98-117 | generateCodes records one row per leaf, in leaf order, with the leaf's character, and each code extends the path already in the buffer |
| CodeTable.CodeListBits | huffman.c:109-116 | every code recorded below a node, starting from a bit-string path, is made of '0' and '1' only |
| CodeTable.Codes | huffman.c:120-125 | calculateHuffmanCodes records one row per leaf, in leaf order, with the leaf's character and a code of '0' and '1' only |
| CodeTable.CodeListPrefixFree | huffman.c:98-117 | no code recorded below a node is a prefix of another |
| CodeTable.CodesPrefixFree | huffman.c:120-125 | the code table built by calculateHuffmanCodes is prefix-free |
| CodeTable.CodeListFollows | huffman.c:101-116 | each recorded code, read from the node the walk started at, leads to the leaf the row was recorded for |
| CodeTable.CodesArePaths | huffman.c:120-125 | the k-th row holds the k-th leaf's character and its root-to-leaf path; a leaf root gets the empty code |
| CodeTable.CodeListComplete | huffman.c:101-116 | every path from the starting node to a leaf is recorded, after the buffer's path, in that leaf's row |
| CodeTable.CodesComplete | huffman.c:120-125 | every root-to-leaf path is the code of some row, the row of that leaf |
| Codec.CodeIndexFrom | huffman.c:138-143 | the inner scan from a given row returns the first row holding the character, or -1 when no row at or after it does |
| Codec.CodeIndex | huffman.c:138-143 | encodeString uses the first row holding the character, or none exactly when no row holds it |
| Codec.CodeFor | huffman.c:138-143 | the bits added for one character: none when no row holds it, and only '0' and '1' when the table's codes are bit strings |
| Codec.Encode | huffman.c:137-144 | the encoding of the empty string is empty, and it is made of '0' and '1' only when the table's codes are |
| Codec.EncodeAppend | huffman.c:137-144 | the encoding of a concatenation is the concatenation of the encodings |
| Codec.EncodeSkipsUnknown | huffman.c:138-143 | a character without a row contributes no bits |
| Codec.Walk | huffman.c:159-173 | the rest of the loop prints at most one character per bit, and stops with LeafRoot only when it stands on a leaf or the root is a leaf |
| Codec.Decode | huffman.c:156-175 | decodeBits prints at most one character per bit, and stops with LeafRoot only when the root is a leaf |
| Codec.WalkToInternal | huffman.c:159-168 | reading a path that ends at an internal node only moves down the tree and prints nothing |
| Codec.WalkToLeaf | huffman.c:159-172 | reading a path that ends at a leaf prints the leaf's character and restarts at the root |
| Codec.DecodeOneCode | huffman.c:156-175 | under an internal root, decoding the code of a table character prints that character and goes on from the root |
| Codec.RoundTrip | huffman.c:135-175 | under an internal root, decoding the encoding of a string over the code table's characters, followed by any bits, prints the string and then whatever the following bits decode to |
| Codec.RoundTripComplete | huffman.c:135-175 | under an internal root, decoding the encoding of such a string prints the string and completes |
| Codec.UnfinishedCodeDropped | huffman.c:159-174 | bits that stop part-way down a path after whole codes print nothing more and raise no error |
| Codec.TableCharacterHasCode | huffman.c:120-125 | every character of the frequency table gets a row in the code table calculated from it |
| Codec.TableRoundTrip | huffman.c:120-175 | for a table of two or more characters, decoding what encodeString writes for a string over the table's characters gives the string back |
| Codec.LeafRootPrintsNothing | huffman.c:157-169 | with a single-leaf root nothing is printed; the first bit stops decoding (LeafRoot, or InvalidBit for a non-bit) |
| Codec.BinaryInputCompletes | huffman.c:159-173 | under an internal root, a string of '0' and '1' is read to its end |
| Codec.EncodedInputCompletes | huffman.c:135-175 | under an internal root, decoding what encodeString writes with the tree's own codes always reads every bit, whatever the input string |
| Codec.StopsAtInvalidBit | huffman.c:159-167 | under an internal root, decoding stops at the first non-bit, having printed exactly what the bits before it decode to |
| HuffmanEngine.FindTwoMinimums | huffman.c:77-85 | the scan's loop returns FirstMin and SecondMin of the live nodes |
| HuffmanEngine.MergeTwoMinimums | huffman.c:77-91 | one pass of the merge loop leaves MergeStep of the old live nodes in the shortened live range |
| HuffmanEngine.FollowBits | huffman.c:158-174 | the decode loop, started at the root, prints and stops exactly as Decode of the bits on that tree |
| HuffmanEngine.Engine.constructor | huffman.c:28-31 | the tables start empty with MAX_CHAR rows of room |
| HuffmanEngine.Engine.AddFrequency | huffman.c:48-62 | the new frequency table is Upsert of the old one, and the table invariant (distinct characters, at most MAX_CHAR rows) is kept |
| HuffmanEngine.Engine.BuildHuffmanTree | huffman.c:65-95 | returns HuffmanTree of the frequency table after exactly freqCount - 1 merges |
| HuffmanEngine.Engine.RecordCode | huffman.c:101-106 | the leaf case appends one row with the leaf's character and the buffer's path, and keeps the path |
| HuffmanEngine.Engine.GenerateCodes | huffman.c:98-117 | appends CodeList of the node for the path in the buffer, one row per leaf, and leaves the buffer's path as it found it |
| HuffmanEngine.Engine.CalculateHuffmanCodes | huffman.c:120-125 | resets the code table and fills it with the codes of the tree built from the frequency table |
| HuffmanEngine.Engine.EncodeString | huffman.c:135-144 | the bit string is Encode of the input with the code table |
| HuffmanEngine.Engine.DecodeBits | huffman.c:156-175 | rebuilds the tree from the frequency table and prints, and stops as, Decode of the bits on it |
| HuffmanEngine.Engine.ClearFrequencyTable | huffman.c:178-181 | both tables become empty and the invariant is kept |

## Left out

- `main`, the command loop and `scanf`/`printf`/`fprintf`: the model has no I/O. Error messages are not modelled; each error case is a returned status or an unchanged state.
- `printHuffmanCodes` prints the tables and is not part of this model, including its use of the code-table row to index `freqTable`.
- The compression-rate figures of `encodeString` use floating point and only feed `printf`. They are not modelled.
- `createNode`'s allocation failure: the model assumes memory is available, and trees are values.
- HuffmanEngine.Engine.EncodeString: does not model the fixed 2048-byte `encoded` buffer. A long input with long codes can overflow it in C; the model's bit string is unbounded.
- HuffmanEngine.Engine.DecodeBits: does not model the trailing newline printed after a completed decode.
- Frequencies are unbounded integers. C `int` overflow of the merged frequencies is not modelled.
- C `char` is modelled as Dafny `char`. Strings are sequences with no NUL terminator, so an embedded NUL is not modelled.
- HuffmanEngine.Engine.BuildHuffmanTree: requires a non-empty table. The C code returns an uninitialised slot on an empty table, which has no defined behaviour to model.
- HuffmanEngine.Engine.CalculateHuffmanCodes: requires a non-empty table, for the same reason.
- Trees are built afresh on each call and never freed. Pointer identity and memory leaks are not modelled.
