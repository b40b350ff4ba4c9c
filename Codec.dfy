/** What encodeString writes (the bit string only) and what decodeBits prints, as functions
    of the code table and of the tree. */
module Codec {
  import opened Trees
  import opened CodeTable
  import TreeBuilder

  /** The first row at or after `from` holding `c`, or -1: the inner scan of encodeString over
      the code table. addFrequency's loop over the frequency table is the same scan on another
      row type, and FrequencyTable.FreqIndexFrom models it. */
  function CodeIndexFrom(table: seq<CodeEntry>, c: char, from: nat): (k: int)
    requires from <= |table|
    ensures -1 <= k < |table|
    ensures k >= 0 ==> from <= k && table[k].character == c
    ensures k >= 0 ==> forall j :: from <= j < k ==> table[j].character != c
    ensures k == -1 ==> forall j :: from <= j < |table| ==> table[j].character != c
    decreases |table| - from
  {
    if from == |table| then -1
    else if table[from].character == c then from
    else CodeIndexFrom(table, c, from + 1)
  }

  function CodeIndex(table: seq<CodeEntry>, c: char): (k: int)
    ensures -1 <= k < |table|
    ensures k >= 0 ==> table[k].character == c
    ensures k >= 0 ==> forall j :: 0 <= j < k ==> table[j].character != c
    ensures k == -1 ==> forall j :: 0 <= j < |table| ==> table[j].character != c
  {
    CodeIndexFrom(table, c, 0)
  }

  /** The bits appended for one input character: the code of its first row, nothing when the
      table has no row for it. */
  function CodeFor(table: seq<CodeEntry>, c: char): (r: seq<char>)
    ensures CodeIndex(table, c) < 0 ==> r == []
    ensures AllCodesBits(table) ==> Bits(r)
  {
    var k := CodeIndex(table, c);
    if k >= 0 then table[k].code else []
  }

  /** The encoded bit string: the codes of the input characters, in input order. */
  function Encode(table: seq<CodeEntry>, s: seq<char>): (r: seq<char>)
    ensures s == [] ==> r == []
    ensures AllCodesBits(table) ==> Bits(r)
  {
    if s == [] then []
    else
      var a, b := CodeFor(table, s[0]), Encode(table, s[1..]);
      assert forall i :: 0 <= i < |a + b| ==> (a + b)[i] == if i < |a| then a[i] else b[i - |a|];
      a + b
  }

  /** Encoding works character by character, so it distributes over concatenation. */
  lemma {:induction false} EncodeAppend(table: seq<CodeEntry>, s: seq<char>, t: seq<char>)
    ensures Encode(table, s + t) == Encode(table, s) + Encode(table, t)
  {
    if s == [] {
      assert s + t == t;
    } else {
      assert (s + t)[1..] == s[1..] + t;
      EncodeAppend(table, s[1..], t);
    }
  }

  /** A character without a row adds nothing to the encoding. */
  lemma EncodeSkipsUnknown(table: seq<CodeEntry>, c: char, t: seq<char>)
    requires CodeIndex(table, c) == -1
    ensures Encode(table, [c] + t) == Encode(table, t)
  {
    var u := [c] + t;
    assert u[0] == c;
    assert u[1..] == t;
    assert CodeFor(table, c) == [];
  }

  /** Why decodeBits stopped: it read every bit, it met a character other than '0' and '1',
      or the root is a single leaf, which has no child to descend to (the C code follows a
      null pointer there). */
  datatype Stop = Completed | InvalidBit | LeafRoot

  /** What decodeBits prints before it stops, and why it stopped. */
  datatype Decoded = Decoded(text: seq<char>, stop: Stop)

  /** `d` with `prefix` printed before it. */
  function After(prefix: seq<char>, d: Decoded): Decoded
  {
    Decoded(prefix + d.text, d.stop)
  }

  /** The rest of decodeBits' loop from node `cur` on the remaining `bits`. A bit is checked
      before it is followed; reaching a leaf prints its character and goes back to `root`;
      bits that end part-way down a path print nothing. */
  function Walk(root: Tree, cur: Tree, bits: seq<char>): (d: Decoded)
    ensures |d.text| <= |bits|
    ensures d.stop == LeafRoot ==> cur.Leaf? || root.Leaf?
    decreases |bits|
  {
    if bits == [] then Decoded([], Completed)
    else if !IsBit(bits[0]) then Decoded([], InvalidBit)
    else match cur
      case Leaf(_, _) => Decoded([], LeafRoot)
      case Internal(_, l, r) =>
        var next := if bits[0] == '0' then l else r;
        if next.Leaf? then After([next.character], Walk(root, root, bits[1..]))
        else Walk(root, next, bits[1..])
  }

  /** What decodeBits prints for `bits` with the tree `root`. */
  function Decode(root: Tree, bits: seq<char>): (d: Decoded)
    ensures |d.text| <= |bits|
    ensures d.stop == LeafRoot ==> root.Leaf?
  {
    Walk(root, root, bits)
  }

  /** Reading a path that ends at an internal node only moves down the tree. */
  lemma {:induction false} WalkToInternal(root: Tree, cur: Tree, p: seq<char>, rest: seq<char>)
    requires Follow(cur, p).Some? && Follow(cur, p).value.Internal?
    ensures Walk(root, cur, p + rest) == Walk(root, Follow(cur, p).value, rest)
    decreases |p|
  {
    if p == [] {
      assert p + rest == rest;
    } else {
      assert (p + rest)[1..] == p[1..] + rest;
      var next := if p[0] == '0' then cur.left else cur.right;
      WalkToInternal(root, next, p[1..], rest);
    }
  }

  /** Reading a non-empty path that ends at a leaf prints that leaf's character and starts
      again at the root. */
  lemma {:induction false} WalkToLeaf(root: Tree, cur: Tree, p: seq<char>, rest: seq<char>)
    requires p != [] && Follow(cur, p).Some? && Follow(cur, p).value.Leaf?
    ensures Walk(root, cur, p + rest) == After([Follow(cur, p).value.character], Walk(root, root, rest))
    decreases |p|
  {
    assert (p + rest)[1..] == p[1..] + rest;
    var next := if p[0] == '0' then cur.left else cur.right;
    if |p| == 1 {
      assert p[1..] == [] && p[1..] + rest == rest;
    } else {
      WalkToLeaf(root, next, p[1..], rest);
    }
  }

  /** On a tree whose root is internal, the code of a character in the table leads from the
      root to a leaf holding that character: decoding it prints the character. */
  lemma DecodeOneCode(root: Tree, c: char, rest: seq<char>)
    requires root.Internal? && CodeIndex(Codes(root), c) >= 0
    ensures Decode(root, CodeFor(Codes(root), c) + rest) == After([c], Decode(root, rest))
  {
    var k := CodeIndex(Codes(root), c);
    CodesArePaths(root, k);
    WalkToLeaf(root, root, Codes(root)[k].code, rest);
  }

  /** On a tree whose root is internal, decoding the encoding of a string over the table's
      characters prints the string, and then goes on with whatever follows. */
  lemma {:induction false} RoundTrip(root: Tree, s: seq<char>, rest: seq<char>)
    requires root.Internal?
    requires forall i :: 0 <= i < |s| ==> CodeIndex(Codes(root), s[i]) >= 0
    ensures Decode(root, Encode(Codes(root), s) + rest) == After(s, Decode(root, rest))
  {
    if s == [] {
      assert Encode(Codes(root), s) + rest == rest;
      assert s + Decode(root, rest).text == Decode(root, rest).text;
    } else {
      var a, b := CodeFor(Codes(root), s[0]), Encode(Codes(root), s[1..]);
      assert Encode(Codes(root), s) + rest == a + (b + rest) by {
        assert Encode(Codes(root), s) == a + b;
      }
      DecodeOneCode(root, s[0], b + rest);
      var t := s[1..];
      assert forall i :: 0 <= i < |t| ==> t[i] == s[i + 1];
      RoundTrip(root, t, rest);
      var d := Decode(root, rest);
      assert s == [s[0]] + t;
      ConcatAssociates([s[0]], t, d.text);
    }
  }

  /** Decoding the encoding of a string over the table's characters gives the string back,
      and decoding stops because the bits ran out. */
  lemma RoundTripComplete(root: Tree, s: seq<char>)
    requires root.Internal?
    requires forall i :: 0 <= i < |s| ==> CodeIndex(Codes(root), s[i]) >= 0
    ensures Decode(root, Encode(Codes(root), s)) == Decoded(s, Completed)
  {
    RoundTrip(root, s, []);
    assert Encode(Codes(root), s) + [] == Encode(Codes(root), s);
    assert s + [] == s;
  }

  /** Bits that stop part-way down a path are dropped without an error. */
  lemma UnfinishedCodeDropped(root: Tree, s: seq<char>, p: seq<char>)
    requires root.Internal?
    requires forall i :: 0 <= i < |s| ==> CodeIndex(Codes(root), s[i]) >= 0
    requires Follow(root, p).Some? && Follow(root, p).value.Internal?
    ensures Decode(root, Encode(Codes(root), s) + p) == Decoded(s, Completed)
  {
    RoundTrip(root, s, p);
    WalkToInternal(root, root, p, []);
    assert p + [] == p;
    assert s + [] == s;
  }

  /** Every character of the table has a row in the code table calculated from it. */
  lemma TableCharacterHasCode(entries: seq<FreqEntry>, j: nat)
    requires 1 <= |entries| && j < |entries|
    ensures CodeIndex(Codes(TreeBuilder.HuffmanTree(entries)), entries[j].character) >= 0
  {
    var root := TreeBuilder.HuffmanTree(entries);
    TreeBuilder.HuffmanTreeProperties(entries);
    assert entries[j] in multiset(entries);
    assert entries[j] in multiset(Leaves(root));
    assert entries[j] in Leaves(root);
    var k :| 0 <= k < |Leaves(root)| && Leaves(root)[k] == entries[j];
    assert Codes(root)[k].character == entries[j].character;
  }

  /** For a table of two or more characters, and a string over the table's characters, the
      bits encodeString writes after calculateHuffmanCodes decode back to the string. */
  lemma TableRoundTrip(entries: seq<FreqEntry>, s: seq<char>)
    requires |entries| >= 2
    requires forall i :: 0 <= i < |s| ==> exists j :: 0 <= j < |entries| && entries[j].character == s[i]
    ensures var root := TreeBuilder.HuffmanTree(entries);
      Decode(root, Encode(Codes(root), s)) == Decoded(s, Completed)
  {
    var root := TreeBuilder.HuffmanTree(entries);
    forall i | 0 <= i < |s|
      ensures CodeIndex(Codes(root), s[i]) >= 0
    {
      var j :| 0 <= j < |entries| && entries[j].character == s[i];
      TableCharacterHasCode(entries, j);
    }
    TreeBuilder.HuffmanTreeProperties(entries);
    RoundTripComplete(root, s);
  }

  /** Decoding with a single-leaf root never prints anything: the first bit has no child to
      go to. */
  lemma LeafRootPrintsNothing(root: Tree, bits: seq<char>)
    requires root.Leaf?
    ensures Decode(root, bits).text == []
    ensures Decode(root, bits).stop == (if bits == [] then Completed
                                        else if IsBit(bits[0]) then LeafRoot else InvalidBit)
  {
  }

  /** Below an internal root every node the walk stands on is internal, so a bit string made
      of '0' and '1' is read to its end: decoding completes. */
  lemma {:induction false} BinaryInputCompletes(root: Tree, cur: Tree, bits: seq<char>)
    requires root.Internal? && cur.Internal?
    requires forall i :: 0 <= i < |bits| ==> IsBit(bits[i])
    ensures Walk(root, cur, bits).stop == Completed
    decreases |bits|
  {
    if bits != [] {
      var next := if bits[0] == '0' then cur.left else cur.right;
      if next.Leaf? {
        BinaryInputCompletes(root, root, bits[1..]);
      } else {
        BinaryInputCompletes(root, next, bits[1..]);
      }
    }
  }

  /** Under an internal root, whatever string is encoded with the tree's own codes, the bits
      are read to their end: characters without a code add no bits, so they cannot make
      decoding stop early. */
  lemma EncodedInputCompletes(root: Tree, s: seq<char>)
    requires root.Internal?
    ensures Decode(root, Encode(Codes(root), s)).stop == Completed
  {
    BinaryInputCompletes(root, root, Encode(Codes(root), s));
  }

  /** Below an internal root, decoding stops at the first character that is not a bit,
      having printed what the bits before it decode to. */
  lemma {:induction false} StopsAtInvalidBit(root: Tree, cur: Tree, bits: seq<char>, i: nat)
    requires root.Internal? && cur.Internal?
    requires i < |bits| && !IsBit(bits[i])
    requires forall j :: 0 <= j < i ==> IsBit(bits[j])
    ensures Walk(root, cur, bits) == Decoded(Walk(root, cur, bits[..i]).text, InvalidBit)
    decreases i
  {
    if i > 0 {
      var next := if bits[0] == '0' then cur.left else cur.right;
      assert bits[..i][1..] == bits[1..][..i - 1];
      if next.Leaf? {
        StopsAtInvalidBit(root, root, bits[1..], i - 1);
      } else {
        StopsAtInvalidBit(root, next, bits[1..], i - 1);
      }
    }
  }
}
