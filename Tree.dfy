/** The values shared by every part of the Huffman engine: frequency-table entries,
    tree nodes and the measures taken on trees. */
module Trees {

  /** Capacity of the frequency table, of the code table and of the code buffer (MAX_CHAR). */
  const MaxChar: nat := 256

  datatype Option<T> = None | Some(value: T)

  /** One row of the frequency table: a character and the frequency given for it. */
  datatype FreqEntry = FreqEntry(character: char, frequency: int)

  /** A node of the Huffman tree. The C node is a struct whose children are both NULL for a
      leaf; internal nodes carry the marker character '\0', which nothing reads back.
      Nodes are never changed after creation, so a value type models them faithfully. */
  datatype Tree =
    | Leaf(character: char, frequency: int)
    | Internal(frequency: int, left: Tree, right: Tree)

  /** The leaf created for a frequency-table entry. */
  function LeafOf(e: FreqEntry): Tree
  {
    Leaf(e.character, e.frequency)
  }

  /** The table entries held by the leaves of `t`, from left to right. */
  function Leaves(t: Tree): seq<FreqEntry>
  {
    match t
    case Leaf(c, f) => [FreqEntry(c, f)]
    case Internal(_, l, r) => Leaves(l) + Leaves(r)
  }

  /** How many leaves of `t` hold entry `e`. */
  function LeafCount(t: Tree, e: FreqEntry): nat
  {
    match t
    case Leaf(c, f) => if FreqEntry(c, f) == e then 1 else 0
    case Internal(_, l, r) => LeafCount(l, e) + LeafCount(r, e)
  }

  /** LeafCount counts the occurrences of `e` in the leaf sequence. */
  lemma {:induction false} LeafCountIsMultiplicity(t: Tree, e: FreqEntry)
    ensures LeafCount(t, e) == multiset(Leaves(t))[e]
  {
    match t
    case Leaf(_, _) =>
    case Internal(_, l, r) =>
      LeafCountIsMultiplicity(l, e);
      LeafCountIsMultiplicity(r, e);
  }

  function Max(a: nat, b: nat): nat
  {
    if a < b then b else a
  }

  /** Length of the longest root-to-leaf path. */
  function Height(t: Tree): nat
  {
    match t
    case Leaf(_, _) => 0
    case Internal(_, l, r) => 1 + Max(Height(l), Height(r))
  }

  /** The node reached from `t` by reading `path`, '0' going left and '1' going right;
      None when the path leaves the tree or holds another character. */
  function Follow(t: Tree, path: seq<char>): Option<Tree>
    decreases |path|
  {
    if path == [] then Some(t)
    else match t
      case Leaf(_, _) => None
      case Internal(_, l, r) =>
        if path[0] == '0' then Follow(l, path[1..])
        else if path[0] == '1' then Follow(r, path[1..])
        else None
  }

  /** Sum of the frequencies of a sequence of entries. */
  function Total(entries: seq<FreqEntry>): int
  {
    if entries == [] then 0
    else Total(entries[..|entries| - 1]) + entries[|entries| - 1].frequency
  }

  /** Every internal node's frequency is the sum of its children's, as createNode is called
      when two nodes are merged. */
  ghost predicate WellFormed(t: Tree)
  {
    match t
    case Leaf(_, _) => true
    case Internal(f, l, r) => f == l.frequency + r.frequency && WellFormed(l) && WellFormed(r)
  }

  /** A tree with n leaves is at most n - 1 levels deep; this keeps every code, and the
      NUL written after it, inside the MAX_CHAR code buffer. */
  lemma {:induction false} HeightBelowLeafCount(t: Tree)
    ensures Height(t) < |Leaves(t)|
  {
    match t
    case Leaf(_, _) =>
    case Internal(_, l, r) =>
      HeightBelowLeafCount(l);
      HeightBelowLeafCount(r);
  }

  /** Appending in two steps is appending the concatenation: used where a proof would otherwise
      make the solver rediscover it inside a large context. */
  lemma ConcatAssociates<T>(a: seq<T>, b: seq<T>, c: seq<T>)
    ensures (a + b) + c == a + (b + c)
  {
  }

  lemma {:induction false} TotalConcat(a: seq<FreqEntry>, b: seq<FreqEntry>)
    ensures Total(a + b) == Total(a) + Total(b)
    decreases |b|
  {
    if b == [] {
      assert a + b == a;
    } else {
      assert (a + b)[..|a + b| - 1] == a + b[..|b| - 1];
      TotalConcat(a, b[..|b| - 1]);
    }
  }

  /** In a well-formed tree the root's frequency is the total of its leaves' frequencies. */
  lemma {:induction false} WellFormedWeight(t: Tree)
    requires WellFormed(t)
    ensures t.frequency == Total(Leaves(t))
  {
    match t
    case Leaf(c, f) =>
      assert Leaves(t)[..0] == [];
    case Internal(_, l, r) =>
      WellFormedWeight(l);
      WellFormedWeight(r);
      TotalConcat(Leaves(l), Leaves(r));
  }
}
