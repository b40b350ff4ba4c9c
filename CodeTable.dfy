/** The code table generateCodes fills in: one row per leaf, holding the path from the root
    to that leaf ('0' for a left branch, '1' for a right branch). */
module CodeTable {
  import opened Trees

  /** One row of the code table: a character and its code. */
  datatype CodeEntry = CodeEntry(character: char, code: seq<char>)

  function IsBit(b: char): bool
  {
    b == '0' || b == '1'
  }

  /** `s` is made of '0' and '1' only. */
  predicate Bits(s: seq<char>)
  {
    forall i :: 0 <= i < |s| ==> IsBit(s[i])
  }

  /** Every code of the table is made of '0' and '1' only. */
  predicate AllCodesBits(table: seq<CodeEntry>)
  {
    forall k :: 0 <= k < |table| ==> Bits(table[k].code)
  }

  /** The rows generateCodes appends when it visits `t` with `path` already in the code
      buffer: the leaves of `t` from left to right, each with `path` followed by the way
      down to it. */
  function CodeList(t: Tree, path: seq<char>): (r: seq<CodeEntry>)
    ensures |r| == |Leaves(t)|
    ensures forall k :: 0 <= k < |r| ==> r[k].character == Leaves(t)[k].character
    ensures forall k :: 0 <= k < |r| ==> path <= r[k].code
  {
    match t
    case Leaf(c, _) => [CodeEntry(c, path)]
    case Internal(_, l, r) => CodeList(l, path + ['0']) + CodeList(r, path + ['1'])
  }

  /** generateCodes only ever writes '0' and '1' into the code buffer, so every code it
      records is a bit string when the path it starts from is. */
  lemma {:induction false} CodeListBits(t: Tree, path: seq<char>)
    requires Bits(path)
    ensures AllCodesBits(CodeList(t, path))
  {
    match t
    case Leaf(_, _) =>
    case Internal(_, l, r) =>
      var p0, p1 := path + ['0'], path + ['1'];
      assert Bits(p0) && Bits(p1);
      CodeListBits(l, p0);
      CodeListBits(r, p1);
      var a, b := CodeList(l, p0), CodeList(r, p1);
      assert CodeList(t, path) == a + b;
      assert forall k :: 0 <= k < |a + b| ==> (a + b)[k] == if k < |a| then a[k] else b[k - |a|];
  }

  /** The table calculateHuffmanCodes leaves behind for root `t`. */
  function Codes(t: Tree): (r: seq<CodeEntry>)
    ensures |r| == |Leaves(t)|
    ensures forall k :: 0 <= k < |r| ==> r[k].character == Leaves(t)[k].character
    ensures AllCodesBits(r)
  {
    CodeListBits(t, []);
    CodeList(t, [])
  }

  /** No code is a prefix of another row's code. */
  ghost predicate PrefixFree(codes: seq<CodeEntry>)
  {
    forall i, j :: 0 <= i < |codes| && 0 <= j < |codes| && i != j ==> !(codes[i].code <= codes[j].code)
  }

  /** Two sequences that branch apart at position n are not prefixes of one another. */
  lemma Diverge(a: seq<char>, b: seq<char>, n: nat)
    requires n < |a| && n < |b| && a[n] != b[n]
    ensures !(a <= b) && !(b <= a)
  {
  }

  /** The generated codes are prefix-free: codes are only recorded at leaves, and every
      internal node has two children, so two leaves always branch apart somewhere. */
  lemma {:induction false} CodeListPrefixFree(t: Tree, path: seq<char>)
    ensures PrefixFree(CodeList(t, path))
  {
    match t
    case Leaf(_, _) =>
    case Internal(_, l, r) =>
      var n := |path|;
      var a, b := CodeList(l, path + ['0']), CodeList(r, path + ['1']);
      CodeListPrefixFree(l, path + ['0']);
      CodeListPrefixFree(r, path + ['1']);
      var codes := a + b;
      forall i, j | 0 <= i < |codes| && 0 <= j < |codes| && i != j
        ensures !(codes[i].code <= codes[j].code)
      {
        if i < |a| && j < |a| {
          assert codes[i] == a[i] && codes[j] == a[j];
        } else if i >= |a| && j >= |a| {
          assert codes[i] == b[i - |a|] && codes[j] == b[j - |a|];
        } else {
          var x, y := codes[i].code, codes[j].code;
          assert (path + ['0'])[n] == '0' && (path + ['1'])[n] == '1';
          if i < |a| {
            assert path + ['0'] <= x && path + ['1'] <= y;
          } else {
            assert path + ['1'] <= x && path + ['0'] <= y;
          }
          Diverge(x, y, n);
        }
      }
  }

  lemma CodesPrefixFree(t: Tree)
    ensures PrefixFree(Codes(t))
  {
    CodeListPrefixFree(t, []);
  }

  /** Each recorded code, read from the node where the walk started, leads to the leaf the
      row was recorded for. */
  lemma {:induction false} CodeListFollows(t: Tree, path: seq<char>, k: nat)
    requires k < |CodeList(t, path)|
    ensures var code := CodeList(t, path)[k].code;
      |path| <= |code| && Follow(t, code[|path|..]) == Some(LeafOf(Leaves(t)[k]))
  {
    var code := CodeList(t, path)[k].code;
    match t
    case Leaf(c, f) =>
      assert code[|path|..] == [];
    case Internal(_, l, r) =>
      var a := CodeList(l, path + ['0']);
      if k < |a| {
        assert CodeList(t, path)[k] == a[k];
        assert Leaves(t)[k] == Leaves(l)[k];
        CodeListFollows(l, path + ['0'], k);
        assert code[|path|..][1..] == code[|path| + 1..];
        assert code[|path|] == (path + ['0'])[|path|];
      } else {
        var b := CodeList(r, path + ['1']);
        assert CodeList(t, path)[k] == b[k - |a|];
        assert Leaves(t)[k] == Leaves(r)[k - |a|];
        CodeListFollows(r, path + ['1'], k - |a|);
        assert code[|path|..][1..] == code[|path| + 1..];
        assert code[|path|] == (path + ['1'])[|path|];
      }
  }

  /** The code recorded for the k-th leaf is the root-to-leaf path of that leaf, so its length
      is the leaf's depth; a root that is a leaf gets the empty code. */
  lemma CodesArePaths(t: Tree, k: nat)
    requires k < |Codes(t)|
    ensures Codes(t)[k].character == Leaves(t)[k].character
    ensures Follow(t, Codes(t)[k].code) == Some(LeafOf(Leaves(t)[k]))
    ensures t.Leaf? ==> Codes(t)[k].code == []
  {
    CodeListFollows(t, [], k);
    assert Codes(t)[k].code[0..] == Codes(t)[k].code;
  }

  /** Every path from the node where the walk started to a leaf is recorded, prefixed by
      `path`, in the row of that leaf: the rows and the leaves correspond one to one. */
  lemma {:induction false} CodeListComplete(t: Tree, path: seq<char>, p: seq<char>) returns (k: nat)
    requires Follow(t, p).Some? && Follow(t, p).value.Leaf?
    ensures k < |CodeList(t, path)|
    ensures CodeList(t, path)[k].code == path + p
    ensures LeafOf(Leaves(t)[k]) == Follow(t, p).value
    decreases |p|
  {
    match t
    case Leaf(c, f) =>
      k := 0;
    case Internal(_, l, r) =>
      var a := CodeList(l, path + ['0']);
      assert (path + [p[0]]) + p[1..] == path + p;
      if p[0] == '0' {
        k := CodeListComplete(l, path + ['0'], p[1..]);
        assert CodeList(t, path)[k] == a[k];
        assert Leaves(t)[k] == Leaves(l)[k];
      } else {
        var j := CodeListComplete(r, path + ['1'], p[1..]);
        k := |a| + j;
        assert CodeList(t, path)[k] == CodeList(r, path + ['1'])[j];
        assert Leaves(t)[k] == Leaves(r)[j];
      }
  }

  lemma CodesComplete(t: Tree, p: seq<char>)
    requires Follow(t, p).Some? && Follow(t, p).value.Leaf?
    ensures exists k :: 0 <= k < |Codes(t)| && Codes(t)[k].code == p && LeafOf(Leaves(t)[k]) == Follow(t, p).value
  {
    var k := CodeListComplete(t, [], p);
    assert [] + p == p;
  }
}
