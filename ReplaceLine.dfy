/** RadamsaReplaceLineMutator: one randomly chosen line is moved to a
    random place in the line order, and the lines are written out again. */
module ReplaceLine {
  import opened Common
  import opened Lines

  const MINIMUM_SIZE := 2
  const MINIMUM_LINES := 2

  /** `s` after `erase(begin() + from)` and then
      `insert(begin() + to, s[from])`. */
  function Moved(s: seq<nat>, from: nat, to: nat): (r: seq<nat>)
    requires from < |s| && to < |s|
    ensures |r| == |s| && r[to] == s[from]
    ensures r[..to] + r[to + 1..] == s[..from] + s[from + 1..]
  {
    var rest := s[..from] + s[from + 1..];
    assert (rest[..to] + [s[from]] + rest[to..])[..to] == rest[..to];
    assert (rest[..to] + [s[from]] + rest[to..])[to + 1..] == rest[to..];
    rest[..to] + [s[from]] + rest[to..]
  }

  /** Moving an entry only rearranges the vector. */
  lemma MovedPermutes(s: seq<nat>, from: nat, to: nat)
    requires from < |s| && to < |s|
    ensures multiset(Moved(s, from, to)) == multiset(s)
  {
    var r := Moved(s, from, to);
    assert r == r[..to] + [r[to]] + r[to + 1..];
    assert s == s[..from] + [s[from]] + s[from + 1..];
    assert multiset(r) == multiset(r[..to] + r[to + 1..]) + multiset{s[from]};
    assert multiset(s) == multiset(s[..from] + s[from + 1..]) + multiset{s[from]};
  }

  /** Moving an entry to where it already is changes nothing. */
  lemma MovedInPlace(s: seq<nat>, i: nat)
    requires i < |s|
    ensures Moved(s, i, i) == s
  {
    var r := Moved(s, i, i);
    assert r == r[..i] + [r[i]] + r[i + 1..];
    assert s == s[..i] + [s[i]] + s[i + 1..];
    assert r[..i] == s[..i] by {
      assert (r[..i] + r[i + 1..])[..i] == r[..i];
      assert (s[..i] + s[i + 1..])[..i] == s[..i];
    }
    assert r[i + 1..] == s[i + 1..] by {
      assert (r[..i] + r[i + 1..])[i..] == r[i + 1..];
      assert (s[..i] + s[i + 1..])[i..] == s[i + 1..];
    }
  }

  /** `mutateTestCase`. `buffer` is `None` when the storage entry holds no
      buffer for the key; `from` is `randBetween(0, numLines - 1)` and `to`
      is `randBetween(0, numLines - 2)`. Every fallback path writes the
      buffer unchanged (`CopyBufferAsIs`). */
  method ReplaceLine(buffer: Option<Source>, from: nat, to: nat) returns (r: Outcome)
    requires buffer.Some? && buffer.value.Bytes? && |LinesOf(buffer.value.data)| >= MINIMUM_LINES
             ==> from <= |LinesOf(buffer.value.data)| - 1 && to <= |LinesOf(buffer.value.data)| - 2
    ensures buffer.None? || buffer.value.NullPointer? ==> r == NoOutput
    ensures buffer.Some? && buffer.value.Bytes? && |buffer.value.data| < MINIMUM_SIZE
            ==> r == Written(buffer.value.data)
    ensures buffer.Some? && buffer.value.Bytes? && |LinesOf(buffer.value.data)| < MINIMUM_LINES
            ==> r == Written(buffer.value.data)
    ensures buffer.Some? && buffer.value.Bytes? && |buffer.value.data| >= MINIMUM_SIZE
            && |LinesOf(buffer.value.data)| >= MINIMUM_LINES ==>
              var data := buffer.value.data;
              var ls := LinesOf(data);
              var order := Moved(Identity(|ls|), from, to);
              Rearrangement(data, order)
              && Reorder(ls, order)[to] == ls[from]
              && r == Written(Concat(data, Reorder(ls, order)) + Zeros(ls[from].size + 1))
              && |r.data| == |data| + ls[from].size + 1
  {
    if buffer.None? {
      return NoOutput;
    }
    var src := buffer.value;
    if src.NullPointer? {
      return NoOutput;
    }
    var data := src.data;
    var size := |data|;
    if size < MINIMUM_SIZE {
      return Written(data);
    }
    var numLines := |LinesOf(data)|;
    if numLines < MINIMUM_LINES {
      return Written(data);
    }
    var order, lines := LineTables(data);
    var lineOrder := order[..];
    var originalValue := lineOrder[from];
    lineOrder := lineOrder[..from] + lineOrder[from + 1..];
    lineOrder := lineOrder[..to] + [originalValue] + lineOrder[to..];
    assert lineOrder == Moved(Identity(numLines), from, to);
    MovedPermutes(Identity(numLines), from, to);
    LineTable(data);
    RearrangedSize(data, lineOrder);
    var newSize := size + lines[from].size + 1;
    var out := WriteLines(data, lines[..], lineOrder, newSize);
    return Written(out);
  }

  /** When the chosen line is put back where it was, the output is the
      input followed by zeros. */
  lemma ReplaceInPlace(data: seq<Byte>, i: nat)
    requires i < |LinesOf(data)|
    ensures forall k :: 0 <= k < |LinesOf(data)| ==> Moved(Identity(|LinesOf(data)|), i, i)[k] < |LinesOf(data)|
    ensures InBounds(data, Reorder(LinesOf(data), Moved(Identity(|LinesOf(data)|), i, i)))
    ensures Concat(data, Reorder(LinesOf(data), Moved(Identity(|LinesOf(data)|), i, i))) == data
  {
    var ls := LinesOf(data);
    MovedInPlace(Identity(|ls|), i);
    assert Reorder(ls, Identity(|ls|)) == ls;
    LineTable(data);
    TiledConcat(data, ls, 0);
  }
}
