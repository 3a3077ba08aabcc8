/** The line table every line mutator works on (RadamsaLineMutatorBase):
    the `Line` record and its comparison, the segmentation of a buffer into
    lines, the index vectors that reorder them, and the rebuild loop that
    copies lines into a fresh buffer in a given order.

    The segmentation helpers are not part of this model's sources; they are
    defined here: a line is a maximal run of bytes that ends with (and
    includes) a newline, or ends at the end of the buffer. */
module Lines {
  import opened Common

  const NEWLINE: Byte := 0x0A

  /** `RadamsaLineMutatorBase::Line`. */
  datatype Line = Line(isValid: bool, startIndex: nat, size: nat)

  /** A default-constructed `Line`. */
  function DefaultLine(): (l: Line)
    ensures !l.isValid && l.startIndex == 0 && l.size == 0
  {
    Line(false, 0, 0)
  }

  /** `Line::operator==` compares the three fields; that is exactly value
      identity, so it is reflexive, symmetric and transitive. */
  function Equal(a: Line, b: Line): (r: bool)
    ensures r <==> a == b
  {
    a.isValid == b.isValid && a.startIndex == b.startIndex && a.size == b.size
  }

  /** `Line::operator!=`: the negation of `==`. */
  function NotEqual(a: Line, b: Line): (r: bool)
    ensures r <==> a != b
  {
    !Equal(a, b)
  }

  // ---------------------------------------------------------------------
  // Segmentation

  /** `[s, e)` is one line of `data`: non-empty, no newline before its last
      byte, and it ends just after a newline or at the end of the buffer. */
  predicate IsLine(data: seq<Byte>, s: nat, e: nat)
  {
    s < e <= |data|
    && (e < |data| ==> data[e - 1] == NEWLINE)
    && (forall i :: s <= i < e - 1 ==> data[i] != NEWLINE)
  }

  /** One past the last byte of the line that starts at `start`. */
  function LineEnd(data: seq<Byte>, start: nat): (e: nat)
    requires start < |data|
    ensures IsLine(data, start, e)
    decreases |data| - start
  {
    if data[start] == NEWLINE || start + 1 == |data| then start + 1
    else LineEnd(data, start + 1)
  }

  /** A line starting at `start` can end in one place only. */
  lemma {:induction false} LineEndUnique(data: seq<Byte>, start: nat, e: nat)
    requires IsLine(data, start, e)
    ensures e == LineEnd(data, start)
    decreases |data| - start
  {
    if data[start] == NEWLINE || start + 1 == |data| {
    } else {
      assert IsLine(data, start + 1, e);
      LineEndUnique(data, start + 1, e);
    }
  }

  /** The lines of `data[start..]`, in buffer order. */
  function LinesFrom(data: seq<Byte>, start: nat): (ls: seq<Line>)
    requires start <= |data|
    ensures |ls| <= |data| - start
    ensures |ls| == 0 <==> start == |data|
    decreases |data| - start
  {
    if start == |data| then []
    else [Line(true, start, LineEnd(data, start) - start)] + LinesFrom(data, LineEnd(data, start))
  }

  /** The line table of a buffer: `GetNumberOfLinesAfterIndex(buf, size, 0)`
      is `|LinesOf(data)|` and `GetLineData(buf, size, i, n)` is
      `LinesOf(data)[i]`. */
  function LinesOf(data: seq<Byte>): seq<Line>
  {
    LinesFrom(data, 0)
  }

  /** `ls` lays valid lines back to back from `start` to the end of `data`. */
  predicate Tiled(data: seq<Byte>, ls: seq<Line>, start: nat)
    decreases |ls|
  {
    if ls == [] then start == |data|
    else ls[0].isValid && ls[0].startIndex == start
         && IsLine(data, start, start + ls[0].size)
         && Tiled(data, ls[1..], start + ls[0].size)
  }

  /** The segmentation tiles the buffer. */
  lemma {:induction false} LinesTile(data: seq<Byte>, start: nat)
    requires start <= |data|
    ensures Tiled(data, LinesFrom(data, start), start)
    decreases |data| - start
  {
    if start < |data| {
      var ls := LinesFrom(data, start);
      assert ls[1..] == LinesFrom(data, LineEnd(data, start));
      LinesTile(data, LineEnd(data, start));
    }
  }

  /** ... and it is the only tiling: any back-to-back sequence of valid
      lines covering `data[start..]` is `LinesFrom(data, start)`. */
  lemma {:induction false} TilingUnique(data: seq<Byte>, ls: seq<Line>, start: nat)
    requires start <= |data| && Tiled(data, ls, start)
    ensures ls == LinesFrom(data, start)
    decreases |ls|
  {
    if ls != [] {
      var e := start + ls[0].size;
      LineEndUnique(data, start, e);
      TilingUnique(data, ls[1..], e);
      assert ls[0] == Line(true, start, LineEnd(data, start) - start);
      assert LinesFrom(data, start) == [ls[0]] + LinesFrom(data, e);
      assert ls == [ls[0]] + ls[1..];
    }
  }

  /** Every line of a tiling lies inside the buffer and holds at least one
      byte; a buffer with a byte has a line. */
  lemma {:induction false} TiledLines(data: seq<Byte>, ls: seq<Line>, start: nat)
    requires Tiled(data, ls, start)
    ensures start <= |data| && InBounds(data, ls)
    ensures forall k :: 0 <= k < |ls| ==> ls[k].isValid && ls[k].size >= 1
    ensures start < |data| ==> |ls| >= 1
    decreases |ls|
  {
    if ls != [] {
      TiledLines(data, ls[1..], start + ls[0].size);
      forall k | 0 <= k < |ls|
        ensures ls[k].isValid && ls[k].size >= 1 && ls[k].startIndex + ls[k].size <= |data|
      {
        if k > 0 {
          assert ls[k] == ls[1..][k - 1];
        }
      }
    }
  }

  /** The facts every line mutator relies on about its line table. */
  lemma LineTable(data: seq<Byte>)
    ensures Tiled(data, LinesOf(data), 0)
    ensures InBounds(data, LinesOf(data))
    ensures forall k :: 0 <= k < |LinesOf(data)| ==> LinesOf(data)[k].size >= 1
    ensures |data| >= 1 <==> |LinesOf(data)| >= 1
  {
    LinesTile(data, 0);
    TiledLines(data, LinesOf(data), 0);
  }

  // ---------------------------------------------------------------------
  // Line texts

  predicate InBounds(data: seq<Byte>, ls: seq<Line>)
  {
    forall k :: 0 <= k < |ls| ==> ls[k].startIndex + ls[k].size <= |data|
  }

  /** The bytes a line covers. */
  function Text(data: seq<Byte>, l: Line): seq<Byte>
    requires l.startIndex + l.size <= |data|
  {
    data[l.startIndex..l.startIndex + l.size]
  }

  /** The sum of the sizes of `ls`. */
  function TotalSize(ls: seq<Line>): nat
  {
    if ls == [] then 0 else ls[0].size + TotalSize(ls[1..])
  }

  /** The texts of `ls` written one after another. */
  function Concat(data: seq<Byte>, ls: seq<Line>): (c: seq<Byte>)
    requires InBounds(data, ls)
    ensures |c| == TotalSize(ls)
  {
    if ls == [] then [] else Text(data, ls[0]) + Concat(data, ls[1..])
  }

  lemma {:induction false} TotalAppend(a: seq<Line>, b: seq<Line>)
    ensures TotalSize(a + b) == TotalSize(a) + TotalSize(b)
    decreases |a|
  {
    if a == [] {
      assert a + b == b;
    } else {
      assert (a + b)[1..] == a[1..] + b;
      TotalAppend(a[1..], b);
    }
  }

  lemma {:induction false} ConcatAppend(data: seq<Byte>, a: seq<Line>, b: seq<Line>)
    requires InBounds(data, a) && InBounds(data, b)
    ensures InBounds(data, a + b)
    ensures Concat(data, a + b) == Concat(data, a) + Concat(data, b)
    decreases |a|
  {
    assert InBounds(data, a + b) by {
      forall k | 0 <= k < |a + b| ensures (a + b)[k].startIndex + (a + b)[k].size <= |data| {
        if k < |a| { assert (a + b)[k] == a[k]; } else { assert (a + b)[k] == b[k - |a|]; }
      }
    }
    if a == [] {
      assert a + b == b;
    } else {
      assert (a + b)[1..] == a[1..] + b;
      assert InBounds(data, a[1..]) by {
        forall k | 0 <= k < |a| - 1 ensures a[1..][k].startIndex + a[1..][k].size <= |data| {
          assert a[1..][k] == a[k + 1];
        }
      }
      ConcatAppend(data, a[1..], b);
    }
  }

  /** Joining the lines of a tiling gives back the bytes it covers. */
  lemma {:induction false} TiledConcat(data: seq<Byte>, ls: seq<Line>, start: nat)
    requires Tiled(data, ls, start)
    ensures start <= |data| && InBounds(data, ls)
    ensures Concat(data, ls) == data[start..]
    decreases |ls|
  {
    if ls != [] {
      TiledConcat(data, ls[1..], start + ls[0].size);
      InBoundsCons(data, ls);
      assert data[start..] == data[start..start + ls[0].size] + data[start + ls[0].size..];
    }
  }

  /** A line inside the buffer followed by lines inside it. */
  lemma InBoundsCons(data: seq<Byte>, ls: seq<Line>)
    requires ls != [] && ls[0].startIndex + ls[0].size <= |data| && InBounds(data, ls[1..])
    ensures InBounds(data, ls)
  {
    forall k | 0 < k < |ls| ensures ls[k].startIndex + ls[k].size <= |data| {
      assert ls[k] == ls[1..][k - 1];
    }
  }

  /** The lines of a tiling after the first `k` tile the rest of the buffer,
      from where the first `k` end. */
  lemma {:induction false} TiledSuffix(data: seq<Byte>, ls: seq<Line>, start: nat, k: nat)
    requires Tiled(data, ls, start) && k <= |ls|
    ensures Tiled(data, ls[k..], start + TotalSize(ls[..k]))
    decreases k
  {
    if k == 0 {
      assert ls[..0] == [] && ls[0..] == ls;
    } else {
      TiledSuffix(data, ls[1..], start + ls[0].size, k - 1);
      PrefixStep(ls, k);
    }
  }

  /** How a prefix `ls[..k]` and suffix `ls[k..]` of a non-empty sequence
      relate to those of `ls[1..]`. */
  lemma PrefixStep(ls: seq<Line>, k: nat)
    requires 0 < k <= |ls|
    ensures ls[..k][0] == ls[0] && ls[..k][1..] == ls[1..][..k - 1]
    ensures ls[1..][k - 1..] == ls[k..]
  {
  }

  lemma CancelRight<T>(x: seq<T>, y: seq<T>, z: seq<T>)
    requires x + y == z + y
    ensures x == z
  {
    assert x == (x + y)[..|x|];
    assert z == (z + y)[..|z|];
  }

  /** The lines of `data` other than line `k`, written in order, are
      `data` with line `k`'s bytes cut out. */
  lemma LinesWithout(data: seq<Byte>, k: nat)
    requires k < |LinesOf(data)|
    ensures LinesOf(data)[k].startIndex + LinesOf(data)[k].size <= |data|
    ensures InBounds(data, LinesOf(data)[..k] + LinesOf(data)[k + 1..])
    ensures var l := LinesOf(data)[k];
            Concat(data, LinesOf(data)[..k] + LinesOf(data)[k + 1..])
              == data[..l.startIndex] + data[l.startIndex + l.size..]
  {
    var ls := LinesOf(data);
    LinesAround(data, k);
    ConcatAppend(data, ls[..k], ls[k + 1..]);
  }

  /** The lines before line `k` cover the bytes before it, and the lines
      after it the bytes after it. */
  lemma LinesAround(data: seq<Byte>, k: nat)
    requires k < |LinesOf(data)|
    ensures LinesOf(data)[k].startIndex + LinesOf(data)[k].size <= |data|
    ensures InBounds(data, LinesOf(data)[..k]) && InBounds(data, LinesOf(data)[k + 1..])
    ensures Concat(data, LinesOf(data)[..k]) == data[..LinesOf(data)[k].startIndex]
    ensures Concat(data, LinesOf(data)[k + 1..]) == data[LinesOf(data)[k].startIndex + LinesOf(data)[k].size..]
  {
    LinesAfter(data, k);
    LineTable(data);
    LinesBefore(data, LinesOf(data), k, LinesOf(data)[k..]);
  }

  /** The lines from line `k` on cover the bytes from its start, and the
      lines after it the bytes after it. */
  lemma LinesAfter(data: seq<Byte>, k: nat)
    requires k < |LinesOf(data)|
    ensures LinesOf(data)[k].startIndex + LinesOf(data)[k].size <= |data|
    ensures InBounds(data, LinesOf(data)[k..]) && InBounds(data, LinesOf(data)[k + 1..])
    ensures Concat(data, LinesOf(data)[k..]) == data[LinesOf(data)[k].startIndex..]
    ensures Concat(data, LinesOf(data)[k + 1..]) == data[LinesOf(data)[k].startIndex + LinesOf(data)[k].size..]
  {
    var ls := LinesOf(data);
    var l := ls[k];
    LinesTile(data, 0);
    TiledSuffix(data, ls, 0, k);
    var tail := ls[k..];
    assert tail[0] == l && tail[1..] == ls[k + 1..];
    TiledConcat(data, tail, l.startIndex);
    TiledConcat(data, ls[k + 1..], l.startIndex + l.size);
  }

  lemma LinesBefore(data: seq<Byte>, ls: seq<Line>, k: nat, tail: seq<Line>)
    requires Tiled(data, ls, 0) && k < |ls| && tail == ls[k..]
    requires InBounds(data, tail) && ls[k].startIndex <= |data|
    requires Concat(data, tail) == data[ls[k].startIndex..]
    ensures InBounds(data, ls[..k])
    ensures Concat(data, ls[..k]) == data[..ls[k].startIndex]
  {
    TiledConcat(data, ls, 0);
    assert ls == ls[..k] + tail;
    ConcatAppend(data, ls[..k], tail);
    assert data == data[..ls[k].startIndex] + data[ls[k].startIndex..];
    CancelRight(Concat(data, ls[..k]), data[ls[k].startIndex..], data[..ls[k].startIndex]);
  }

  // ---------------------------------------------------------------------
  // Index vectors

  /** `0, 1, ..., n - 1`: the initial `lineOrder`. */
  function Identity(n: nat): (s: seq<nat>)
    ensures |s| == n && forall i :: 0 <= i < n ==> s[i] == i
  {
    seq(n, i => i)
  }

  /** `s` is a permutation of `0..n-1`. */
  predicate IsPermutation(s: seq<nat>, n: nat)
  {
    multiset(s) == multiset(Identity(n))
  }

  /** A permutation of `0..n-1` has `n` entries, each below `n`. */
  lemma PermutationBounded(s: seq<nat>, n: nat)
    requires IsPermutation(s, n)
    ensures |s| == n && forall k :: 0 <= k < |s| ==> s[k] < n
  {
    assert |s| == |multiset(s)| == |multiset(Identity(n))| == n;
    forall k | 0 <= k < |s| ensures s[k] < n {
      assert s[k] in multiset(s);
      assert s[k] in Identity(n);
    }
  }

  /** The lines picked by an index vector, in its order. */
  function Reorder(ls: seq<Line>, order: seq<nat>): (r: seq<Line>)
    requires forall k :: 0 <= k < |order| ==> order[k] < |ls|
    ensures |r| == |order| && forall k :: 0 <= k < |order| ==> r[k] == ls[order[k]]
  {
    seq(|order|, k requires 0 <= k < |order| => ls[order[k]])
  }

  /** Cutting one entry out of a sequence takes it out of the multiset. */
  lemma RemoveAt<T>(s: seq<T>, j: nat)
    requires j < |s|
    ensures multiset(s[..j] + s[j + 1..]) == multiset(s) - multiset{s[j]}
  {
    assert s == s[..j] + [s[j]] + s[j + 1..];
  }

  /** An entry of one of two sequences with the same multiset is found in
      the other, and the rests still agree. */
  lemma Match<T>(a: seq<T>, b: seq<T>) returns (j: nat)
    requires a != [] && multiset(a) == multiset(b)
    ensures j < |b| && b[j] == a[0]
    ensures multiset(a[1..]) == multiset(b[..j] + b[j + 1..])
  {
    assert a[0] in multiset(b);
    assert a[0] in b;
    j :| 0 <= j < |b| && b[j] == a[0];
    assert a == [a[0]] + a[1..];
    assert multiset(a[1..]) == multiset(a) - multiset{a[0]};
    RemoveAt(b, j);
  }

  /** Cutting one line out removes its size from the total. */
  lemma TotalRemove(b: seq<Line>, j: nat)
    requires j < |b|
    ensures TotalSize(b) == TotalSize(b[..j] + b[j + 1..]) + b[j].size
  {
    assert b == b[..j] + ([b[j]] + b[j + 1..]);
    TotalAppend(b[..j], [b[j]] + b[j + 1..]);
    TotalAppend(b[..j], b[j + 1..]);
    assert ([b[j]] + b[j + 1..])[1..] == b[j + 1..];
  }

  /** Lines that are a rearrangement of one another total the same size. */
  lemma {:induction false} PermutedTotal(a: seq<Line>, b: seq<Line>)
    requires multiset(a) == multiset(b)
    ensures TotalSize(a) == TotalSize(b)
    decreases |a|
  {
    if a != [] {
      var j := Match(a, b);
      PermutedTotal(a[1..], b[..j] + b[j + 1..]);
      TotalRemove(b, j);
    }
  }

  /** `order` rearranges the lines of `data`: it is a permutation of their
      indices, so the lines it picks are the old lines in another order and
      cover exactly as many bytes as the buffer holds. */
  predicate Rearrangement(data: seq<Byte>, order: seq<nat>)
  {
    IsPermutation(order, |LinesOf(data)|)
    && (forall k :: 0 <= k < |order| ==> order[k] < |LinesOf(data)|)
    && InBounds(data, Reorder(LinesOf(data), order))
    && multiset(Reorder(LinesOf(data), order)) == multiset(LinesOf(data))
    && TotalSize(Reorder(LinesOf(data), order)) == |data|
  }

  /** Every permutation of the line indices rearranges the lines. */
  lemma RearrangedSize(data: seq<Byte>, order: seq<nat>)
    requires IsPermutation(order, |LinesOf(data)|)
    ensures Rearrangement(data, order)
  {
    var ls := LinesOf(data);
    PermutationBounded(order, |ls|);
    ReorderMultiset(ls, order);
    PermutedTotal(Reorder(ls, order), ls);
    LineTable(data);
    TiledConcat(data, ls, 0);
    forall k | 0 <= k < |order|
      ensures Reorder(ls, order)[k].startIndex + Reorder(ls, order)[k].size <= |data|
    {
      assert Reorder(ls, order)[k] == ls[order[k]];
    }
  }

  /** Picking lines through a permutation of their indices rearranges them. */
  lemma ReorderMultiset(ls: seq<Line>, order: seq<nat>)
    requires IsPermutation(order, |ls|)
    requires forall k :: 0 <= k < |order| ==> order[k] < |ls|
    ensures multiset(Reorder(ls, order)) == multiset(ls)
  {
    ReorderMap(ls, order, Identity(|ls|));
    assert Reorder(ls, Identity(|ls|)) == ls;
  }

  /** Index vectors with the same multiset pick line multisets that agree. */
  lemma {:induction false} ReorderMap(ls: seq<Line>, a: seq<nat>, b: seq<nat>)
    requires multiset(a) == multiset(b)
    requires forall k :: 0 <= k < |a| ==> a[k] < |ls|
    requires forall k :: 0 <= k < |b| ==> b[k] < |ls|
    ensures multiset(Reorder(ls, a)) == multiset(Reorder(ls, b))
    decreases |a|
  {
    if a != [] {
      var j := Match(a, b);
      var rest := ReorderCut(ls, b, j);
      var tail := ReorderCut(ls, a, 0);
      ReorderMap(ls, tail, rest);
    }
  }

  /** Cutting entry `j` out of an index vector cuts line `j` out of the
      lines it picks, and takes that line out of their multiset. */
  lemma ReorderCut(ls: seq<Line>, b: seq<nat>, j: nat) returns (rest: seq<nat>)
    requires forall k :: 0 <= k < |b| ==> b[k] < |ls|
    requires j < |b|
    ensures rest == b[..j] + b[j + 1..]
    ensures j == 0 ==> rest == b[1..]
    ensures forall k :: 0 <= k < |rest| ==> rest[k] < |ls|
    ensures multiset(Reorder(ls, b)) == multiset(Reorder(ls, rest)) + multiset{ls[b[j]]}
  {
    rest := b[..j] + b[j + 1..];
    var rb := Reorder(ls, b);
    assert forall k :: 0 <= k < |rest| ==> rest[k] == b[if k < j then k else k + 1];
    assert Reorder(ls, rest) == rb[..j] + rb[j + 1..];
    RemoveAt(rb, j);
    if j == 0 {
      assert b[..0] + b[1..] == b[1..];
    }
  }

  // ---------------------------------------------------------------------
  // Rebuilding a buffer

  /** The table-building loop shared by the permuting and moving mutators:
      `lineOrder[i] = i` and `lines[i] = GetLineData(..., i, numLines)`,
      into vectors that start out value-initialised. */
  method LineTables(data: seq<Byte>) returns (order: array<nat>, lines: array<Line>)
    ensures fresh(order) && fresh(lines)
    ensures order[..] == Identity(|LinesOf(data)|) && lines[..] == LinesOf(data)
  {
    var ls := LinesOf(data);
    var n := |ls|;
    order := new nat[n](_ => 0);
    lines := new Line[n](_ => DefaultLine());
    for i := 0 to n
      invariant forall k :: 0 <= k < i ==> order[k] == k && lines[k] == ls[k]
    {
      order[i] := i;
      lines[i] := ls[i];
    }
  }

  /** The rebuild loop shared by the permuting and moving mutators: a
      zeroed buffer of `newSize` bytes into which `memcpy` writes the lines
      `lines[order[0]], lines[order[1]], ...` back to back. */
  method WriteLines(data: seq<Byte>, lines: seq<Line>, order: seq<nat>, newSize: nat) returns (out: seq<Byte>)
    requires forall k :: 0 <= k < |order| ==> order[k] < |lines|
    requires InBounds(data, Reorder(lines, order)) && TotalSize(Reorder(lines, order)) <= newSize
    ensures out == Concat(data, Reorder(lines, order)) + Zeros(newSize - TotalSize(Reorder(lines, order)))
  {
    var r := Reorder(lines, order);
    var buf := new Byte[newSize](_ => 0);
    var next := 0;
    var i := 0;
    while i < |order|
      invariant 0 <= i <= |order|
      invariant InBounds(data, r[..i])
      invariant next == TotalSize(r[..i]) <= newSize
      invariant buf[..next] == Concat(data, r[..i])
      invariant forall k :: next <= k < newSize ==> buf[k] == 0
    {
      var l := lines[order[i]];
      RebuildStep(data, r, i);
      WriteLine(buf, next, data, l);
      next := next + l.size;
      i := i + 1;
    }
    assert r[..i] == r;
    assert buf[next..] == Zeros(newSize - next);
    assert buf[..] == buf[..next] + buf[next..];
    out := buf[..];
  }

  /** One pass of the rebuild loop: `memcpy` of one line's text to `next`. */
  method WriteLine(buf: array<Byte>, next: nat, data: seq<Byte>, l: Line)
    requires l.startIndex + l.size <= |data| && next + l.size <= buf.Length
    modifies buf
    ensures buf[..next + l.size] == old(buf[..next]) + Text(data, l)
    ensures forall k :: next + l.size <= k < buf.Length ==> buf[k] == old(buf[k])
  {
    CopyBlock(buf, next, data, l.startIndex, l.startIndex + l.size);
    assert buf[..next + l.size] == buf[..next] + buf[next..next + l.size];
  }

  /** What one more line adds to the lines written so far. */
  lemma RebuildStep(data: seq<Byte>, r: seq<Line>, i: nat)
    requires InBounds(data, r) && i < |r|
    ensures InBounds(data, r[..i]) && InBounds(data, r[..i + 1])
    ensures Concat(data, r[..i + 1]) == Concat(data, r[..i]) + Text(data, r[i])
    ensures TotalSize(r[..i + 1]) <= TotalSize(r)
  {
    assert r[..i + 1] == r[..i] + [r[i]];
    assert InBounds(data, [r[i]]);
    assert ([r[i]])[1..] == [];
    ConcatAppend(data, r[..i], [r[i]]);
    TotalAppend(r[..i + 1], r[i + 1..]);
    assert r == r[..i + 1] + r[i + 1..];
  }
}
