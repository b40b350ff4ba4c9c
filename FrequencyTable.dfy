/** The frequency table as a value: lookup by character and the upsert done by addFrequency. */
module FrequencyTable {
  import opened Trees

  /** No character occurs in two rows. */
  ghost predicate Distinct(entries: seq<FreqEntry>)
  {
    forall i, j :: 0 <= i < j < |entries| ==> entries[i].character != entries[j].character
  }

  /** The first row at or after `from` holding `c`, or -1: the loop of addFrequency over the
      frequency table. encodeString's loop over the code table is the same scan on another
      row type, and Codec.CodeIndexFrom models it. */
  function FreqIndexFrom(entries: seq<FreqEntry>, c: char, from: nat): (k: int)
    requires from <= |entries|
    ensures -1 <= k < |entries|
    ensures k >= 0 ==> from <= k && entries[k].character == c
    ensures k >= 0 ==> forall j :: from <= j < k ==> entries[j].character != c
    ensures k == -1 ==> forall j :: from <= j < |entries| ==> entries[j].character != c
    decreases |entries| - from
  {
    if from == |entries| then -1
    else if entries[from].character == c then from
    else FreqIndexFrom(entries, c, from + 1)
  }

  /** The first row holding `c`, or -1: the scan at the head of addFrequency. */
  function FreqIndex(entries: seq<FreqEntry>, c: char): (k: int)
    ensures -1 <= k < |entries|
    ensures k >= 0 ==> entries[k].character == c
    ensures k >= 0 ==> forall j :: 0 <= j < k ==> entries[j].character != c
    ensures k == -1 ==> forall j :: 0 <= j < |entries| ==> entries[j].character != c
  {
    FreqIndexFrom(entries, c, 0)
  }

  /** The table after addFrequency(c, f): an existing row is overwritten, a new character is
      appended while there is room, and a full table is left as it is. */
  function Upsert(entries: seq<FreqEntry>, c: char, f: int): (r: seq<FreqEntry>)
    ensures |entries| <= |r| <= |entries| + 1
    ensures forall j :: 0 <= j < |entries| ==> r[j].character == entries[j].character
  {
    var k := FreqIndex(entries, c);
    if k >= 0 then entries[k := entries[k].(frequency := f)]
    else if |entries| < MaxChar then entries + [FreqEntry(c, f)]
    else entries
  }

  /** Upsert keeps the table's invariant: characters stay distinct and the table within
      MAX_CHAR rows. */
  lemma UpsertKeepsDistinct(entries: seq<FreqEntry>, c: char, f: int)
    requires Distinct(entries) && |entries| <= MaxChar
    ensures Distinct(Upsert(entries, c, f)) && |Upsert(entries, c, f)| <= MaxChar
  {
  }

  /** What a lookup sees after an upsert: `c` now has frequency `f` unless it was new and the
      table was full (then nothing changed); every other character is found at the same row
      with the same entry; the table grows by one row exactly when `c` was new and there was
      room. */
  lemma {:induction false} UpsertThenLookup(entries: seq<FreqEntry>, c: char, f: int, d: char)
    requires d != c
    ensures var r := Upsert(entries, c, f);
      && (FreqIndex(entries, c) >= 0 || |entries| < MaxChar ==>
            FreqIndex(r, c) >= 0 && r[FreqIndex(r, c)] == FreqEntry(c, f))
      && (FreqIndex(entries, c) < 0 && |entries| >= MaxChar ==> r == entries)
      && |r| == (if FreqIndex(entries, c) < 0 && |entries| < MaxChar then |entries| + 1 else |entries|)
      && FreqIndex(r, d) == FreqIndex(entries, d)
      && (FreqIndex(r, d) >= 0 ==> r[FreqIndex(r, d)] == entries[FreqIndex(entries, d)])
  {
    var r := Upsert(entries, c, f);
    var k := FreqIndex(entries, c);
    var kd := FreqIndex(entries, d);
    if kd >= 0 {
      assert r[kd] == entries[kd];
    }
    assert forall j :: 0 <= j < |entries| ==> r[j].character == entries[j].character;
    if k >= 0 {
      assert FreqIndex(r, c) == k;
    } else if |entries| < MaxChar {
      assert r[|entries|] == FreqEntry(c, f);
      assert FreqIndex(r, c) == |entries|;
    }
  }
}
