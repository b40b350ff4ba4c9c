/** The engine's state and operations as the C program has them: the frequency and code tables
    are fixed-size arrays with their fill counts, and each operation updates them in place. */
module HuffmanEngine {
  import opened Trees
  import opened FrequencyTable
  import opened TreeBuilder
  import opened CodeTable
  import opened Codec

  /** The scan at the top of the merge loop: one pass over nodes[0..nodeCount) keeping the
      least frequency in minIndex1 and the runner-up in minIndex2, both moving only on a
      strictly smaller frequency. */
  method FindTwoMinimums(nodes: array<Tree>, nodeCount: nat) returns (minIndex1: int, minIndex2: int)
    requires 2 <= nodeCount <= nodes.Length
    ensures minIndex1 == FirstMin(nodes[..nodeCount]) && minIndex2 == SecondMin(nodes[..nodeCount])
  {
    ghost var w := nodes[..nodeCount];
    minIndex1, minIndex2 := -1, -1;
    for i := 0 to nodeCount
      invariant minIndex1 == EarliestMin(w, i, -1)
      invariant minIndex2 == EarliestMin(w, i, minIndex1)
    {
      assert nodes[i] == w[i];
      if minIndex1 == -1 || nodes[i].frequency < nodes[minIndex1].frequency {
        assert EarliestMin(w, i + 1, -1) == i;
        EarliestMinSkipOutside(w, i, i);
        assert EarliestMin(w, i + 1, i) == minIndex1;
        minIndex2 := minIndex1;
        minIndex1 := i;
      } else {
        assert EarliestMin(w, i + 1, -1) == minIndex1;
        assert nodes[minIndex1] == w[minIndex1];
        if minIndex2 == -1 || nodes[i].frequency < nodes[minIndex2].frequency {
          assert EarliestMin(w, i + 1, minIndex1) == i;
          minIndex2 := i;
        } else {
          assert EarliestMin(w, i + 1, minIndex1) == minIndex2;
        }
      }
    }
  }

  /** The body of buildHuffmanTree's merge loop: a node joining the two selected slots goes
      into slot minIndex1, the last live slot moves into slot minIndex2, and the live range
      shrinks by one. */
  method MergeTwoMinimums(nodes: array<Tree>, nodeCount: nat)
    requires 2 <= nodeCount <= nodes.Length
    modifies nodes
    ensures nodes[..nodeCount - 1] == MergeStep(old(nodes[..nodeCount]))
  {
    ghost var w := nodes[..nodeCount];
    var minIndex1, minIndex2 := FindTwoMinimums(nodes, nodeCount);
    SelectedSlots(w);
    var newNode := Internal(nodes[minIndex1].frequency + nodes[minIndex2].frequency,
                            nodes[minIndex1], nodes[minIndex2]);
    assert newNode == Merged(w);
    nodes[minIndex1] := newNode;
    ghost var w1 := nodes[..nodeCount];
    assert w1 == w[minIndex1 := Merged(w)];
    nodes[minIndex2] := nodes[nodeCount - 1];
    assert nodes[..nodeCount] == w1[minIndex2 := w1[nodeCount - 1]];
    assert nodes[..nodeCount - 1] == nodes[..nodeCount][..nodeCount - 1];
  }

  /** The loop of decodeBits on the tree it built: follow each bit from the current node,
      print the character of every leaf reached and go back to the root; stop at the first
      character that is not a bit. */
  method FollowBits(root: Tree, bits: seq<char>) returns (printed: seq<char>, stop: Stop)
    ensures Decoded(printed, stop) == Decode(root, bits)
  {
    var current := root;
    printed := [];
    var i := 0;
    while i < |bits|
      invariant 0 <= i <= |bits|
      invariant After(printed, Walk(root, current, bits[i..])) == Decode(root, bits)
    {
      assert bits[i..][1..] == bits[i + 1..];
      if bits[i] == '0' || bits[i] == '1' {
        match current
        case Leaf(_, _) =>
          stop := LeafRoot;
          assert printed + [] == printed;
          return;
        case Internal(_, l, r) =>
          current := if bits[i] == '0' then l else r;
      } else {
        stop := InvalidBit;
        assert printed + [] == printed;
        return;
      }
      if current.Leaf? {
        ghost var rest := Walk(root, root, bits[i + 1..]);
        assert printed + ([current.character] + rest.text) == (printed + [current.character]) + rest.text;
        printed := printed + [current.character];
        current := root;
      }
      i := i + 1;
    }
    stop := Completed;
    assert printed + [] == printed;
  }

  class Engine {
    /** freqTable[0..freqCount) holds the characters added so far with their frequencies. */
    const freqTable: array<FreqEntry>
    var freqCount: nat
    /** codeTable[0..codeCount) holds the codes of the last calculation. */
    const codeTable: array<CodeEntry>
    var codeCount: nat

    ghost predicate Valid()
      reads this, freqTable
    {
      && freqTable.Length == MaxChar && codeTable.Length == MaxChar
      && freqCount <= MaxChar && codeCount <= MaxChar
      && Distinct(freqTable[..freqCount])
    }

    /** The live rows of the frequency table. */
    ghost function Frequencies(): seq<FreqEntry>
      reads this, freqTable
      requires Valid()
    {
      freqTable[..freqCount]
    }

    /** The live rows of the code table. */
    ghost function CodeRows(): seq<CodeEntry>
      reads this, codeTable
      requires codeCount <= codeTable.Length
    {
      codeTable[..codeCount]
    }

    /** The zero-initialised globals the program starts with. */
    constructor ()
      ensures Valid() && Frequencies() == [] && CodeRows() == []
      ensures fresh(freqTable) && fresh(codeTable)
    {
      freqTable := new FreqEntry[MaxChar](_ => FreqEntry('\0', 0));
      codeTable := new CodeEntry[MaxChar](_ => CodeEntry('\0', []));
      freqCount := 0;
      codeCount := 0;
    }

    /** addFrequency: overwrite the frequency of a character already in the table, append a
        new character while there is room, and leave a full table unchanged. */
    method AddFrequency(character: char, frequency: int)
      requires Valid()
      modifies this`freqCount, freqTable
      ensures Valid()
      ensures Frequencies() == Upsert(old(Frequencies()), character, frequency)
    {
      ghost var before := freqTable[..freqCount];
      UpsertKeepsDistinct(before, character, frequency);
      var i := 0;
      while i < freqCount
        invariant 0 <= i <= freqCount
        invariant forall j :: 0 <= j < i ==> freqTable[j].character != character
      {
        if freqTable[i].character == character {
          freqTable[i] := freqTable[i].(frequency := frequency);
          assert FreqIndex(before, character) == i;
          assert freqTable[..freqCount] == before[i := before[i].(frequency := frequency)];
          return;
        }
        i := i + 1;
      }
      assert FreqIndex(before, character) == -1;
      if freqCount < MaxChar {
        freqTable[freqCount] := FreqEntry(character, frequency);
        freqCount := freqCount + 1;
        assert freqTable[..freqCount] == before + [FreqEntry(character, frequency)];
      }
    }

    /** buildHuffmanTree: one leaf per row, then merge the two least frequent nodes until
        one is left; `merges` counts the passes of the merge loop. */
    method BuildHuffmanTree() returns (root: Tree, ghost merges: nat)
      requires Valid() && freqCount >= 1
      ensures root == HuffmanTree(Frequencies())
      ensures merges == freqCount - 1
    {
      var nodes := new Tree[MaxChar];
      var nodeCount := freqCount;
      for i := 0 to freqCount
        invariant forall j :: 0 <= j < i ==> nodes[j] == LeafOf(freqTable[j])
      {
        nodes[i] := Leaf(freqTable[i].character, freqTable[i].frequency);
      }
      assert nodes[..nodeCount] == InitialForest(Frequencies());
      merges := 0;
      while nodeCount > 1
        invariant 1 <= nodeCount <= freqCount
        invariant merges + nodeCount == freqCount
        invariant Combine(nodes[..nodeCount]) == HuffmanTree(Frequencies())
        decreases nodeCount
      {
        MergeTwoMinimums(nodes, nodeCount);
        nodeCount := nodeCount - 1;
        merges := merges + 1;
      }
      root := nodes[0];
    }

    /** The leaf case of generateCodes: terminate the path in the code buffer and copy it,
        with the leaf's character, into the next row of the code table. */
    method RecordCode(character: char, code: array<char>, depth: nat)
      requires codeTable.Length == MaxChar && code.Length == MaxChar
      requires depth < MaxChar && codeCount < MaxChar
      modifies this`codeCount, codeTable, code
      ensures codeCount == old(codeCount) + 1
      ensures codeTable[..codeCount] == old(codeTable[..codeCount]) + [CodeEntry(character, old(code[..depth]))]
      ensures code[..depth] == old(code[..depth])
    {
      code[depth] := '\0';
      codeTable[codeCount] := CodeEntry(character, code[..depth]);
      codeCount := codeCount + 1;
    }

    /** generateCodes: depth-first, writing '0' into the code buffer before going left and '1'
        before going right; at a leaf the path in code[0..depth) becomes the next row. */
    method GenerateCodes(node: Tree, code: array<char>, depth: nat)
      requires codeTable.Length == MaxChar && code.Length == MaxChar
      requires depth + Height(node) < MaxChar
      requires codeCount + |Leaves(node)| <= MaxChar
      modifies this`codeCount, codeTable, code
      ensures codeCount == old(codeCount) + |Leaves(node)|
      ensures codeTable[..codeCount] == old(codeTable[..codeCount]) + CodeList(node, old(code[..depth]))
      ensures code[..depth] == old(code[..depth])
      decreases node
    {
      match node
      case Leaf(c, _) =>
        RecordCode(c, code, depth);
      case Internal(_, l, r) =>
        ghost var path := code[..depth];
        ghost var rows := codeTable[..codeCount];
        code[depth] := '0';
        assert code[..depth + 1] == path + ['0'];
        GenerateCodes(l, code, depth + 1);
        ghost var middle := codeTable[..codeCount];
        assert code[..depth] == path by {
          assert code[..depth] == code[..depth + 1][..depth];
        }
        code[depth] := '1';
        assert code[..depth + 1] == path + ['1'];
        GenerateCodes(r, code, depth + 1);
        ConcatAssociates(rows, CodeList(l, path + ['0']), CodeList(r, path + ['1']));
        assert code[..depth] == path by {
          assert code[..depth] == code[..depth + 1][..depth];
        }
    }

    /** calculateHuffmanCodes: build the tree and replace the code table by its codes. */
    method CalculateHuffmanCodes()
      requires Valid() && freqCount >= 1
      modifies this`codeCount, codeTable
      ensures Valid()
      ensures CodeRows() == Codes(HuffmanTree(Frequencies()))
    {
      ghost var merges;
      var root;
      root, merges := BuildHuffmanTree();
      var code := new char[MaxChar];
      codeCount := 0;
      HuffmanTreeProperties(Frequencies());
      HeightBelowLeafCount(root);
      GenerateCodes(root, code, 0);
      assert code[..0] == [];
    }

    /** encodeString (the bit string only): for each input character, append the code of the
        first row holding it; characters without a row are skipped. */
    method EncodeString(str: seq<char>) returns (encoded: seq<char>)
      requires Valid()
      ensures encoded == Encode(CodeRows(), str)
    {
      encoded := [];
      var i := 0;
      while i < |str|
        invariant 0 <= i <= |str|
        invariant encoded == Encode(CodeRows(), str[..i])
      {
        ghost var before := encoded;
        var j := 0;
        while j < codeCount
          invariant 0 <= j <= codeCount
          invariant encoded == before
          invariant forall k :: 0 <= k < j ==> codeTable[k].character != str[i]
        {
          if codeTable[j].character == str[i] {
            assert CodeIndex(CodeRows(), str[i]) == j;
            encoded := encoded + codeTable[j].code;
            break;
          }
          j := j + 1;
        }
        assert encoded == before + Encode(CodeRows(), [str[i]]);
        EncodeAppend(CodeRows(), str[..i], [str[i]]);
        assert str[..i + 1] == str[..i] + [str[i]];
        i := i + 1;
      }
      assert str[..|str|] == str;
    }

    /** decodeBits: rebuild the tree, follow each bit from the current node, print the
        character of every leaf reached and go back to the root; stop at the first character
        that is not a bit. */
    method DecodeBits(bits: seq<char>) returns (printed: seq<char>, stop: Stop)
      requires Valid() && freqCount >= 1
      ensures Decoded(printed, stop) == Decode(HuffmanTree(Frequencies()), bits)
    {
      ghost var merges;
      var root;
      root, merges := BuildHuffmanTree();
      printed, stop := FollowBits(root, bits);
    }

    /** clearFrequencyTable: forget every character and every code. The rows themselves are
        left in the arrays. */
    method ClearFrequencyTable()
      requires Valid()
      modifies this`freqCount, this`codeCount
      ensures Valid() && Frequencies() == [] && CodeRows() == []
    {
      freqCount := 0;
      codeCount := 0;
    }
  }
}
