/** RadamsaPermuteLinesMutator: the new test case holds the lines of the
    old one in an order chosen by a Fisher-Yates shuffle of their indices. */
module PermuteLines {
  import opened Common
  import opened Lines

  const MINIMUM_SIZE := 3
  const MINIMUM_LINES := 3

  /** Every draw of the shuffle lies in `[0, i]` for the step `i` it serves. */
  predicate DrawsFit(draws: seq<nat>)
  {
    forall k :: 0 <= k < |draws| ==> draws[k] <= k
  }

  /** `s` with entries `i` and `j` exchanged. */
  function Swap(s: seq<nat>, i: nat, j: nat): (r: seq<nat>)
    requires i < |s| && j < |s|
    ensures |r| == |s| && r[i] == s[j] && r[j] == s[i]
    ensures forall k :: 0 <= k < |s| && k != i && k != j ==> r[k] == s[k]
  {
    s[i := s[j]][j := s[i]]
  }

  /** A swap rearranges the entries. */
  lemma SwapPermutes(s: seq<nat>, i: nat, j: nat)
    requires i < |s| && j < |s|
    ensures multiset(Swap(s, i, j)) == multiset(s)
  {
    var t := s[i := s[j]];
    assert multiset(t) == multiset(s) - multiset{s[i]} + multiset{s[j]};
  }

  /** The index vector after the swap steps `i, i - 1, ..., 1`, step `k`
      exchanging entries `k` and `draws[k]`. */
  function Shuffled(s: seq<nat>, draws: seq<nat>, i: nat): (r: seq<nat>)
    requires i < |s| <= |draws| && DrawsFit(draws)
    ensures |r| == |s|
    decreases i
  {
    if i == 0 then s else Shuffled(Swap(s, i, draws[i]), draws, i - 1)
  }

  /** The shuffle only rearranges the index vector. */
  lemma {:induction false} ShuffledPermutes(s: seq<nat>, draws: seq<nat>, i: nat)
    requires i < |s| <= |draws| && DrawsFit(draws)
    ensures multiset(Shuffled(s, draws, i)) == multiset(s)
    decreases i
  {
    if i > 0 {
      SwapPermutes(s, i, draws[i]);
      ShuffledPermutes(Swap(s, i, draws[i]), draws, i - 1);
    }
  }

  /** The shuffle loop: for `i` from `n - 1` down to 1, swap `lineOrder[i]`
      with `lineOrder[randBetween(0, i)]`. */
  method ShuffleOrder(order: array<nat>, draws: seq<nat>)
    requires 1 <= order.Length <= |draws| && DrawsFit(draws)
    modifies order
    ensures order[..] == Shuffled(old(order[..]), draws, order.Length - 1)
  {
    ghost var target := Shuffled(order[..], draws, order.Length - 1);
    var i := order.Length - 1;
    while i > 0
      invariant 0 <= i < order.Length
      invariant Shuffled(order[..], draws, i) == target
    {
      assert draws[i] <= i;
      var randIndex := draws[i];
      SwapEntries(order, i, randIndex);
      i := i - 1;
    }
  }

  /** One step of the shuffle: exchange two entries through a temporary. */
  method SwapEntries(order: array<nat>, i: nat, j: nat)
    requires i < order.Length && j < order.Length
    modifies order
    ensures order[..] == Swap(old(order[..]), i, j)
  {
    var temp := order[i];
    order[i] := order[j];
    order[j] := temp;
  }

  /** `mutateTestCase`; `draws[i]` is the `randBetween(0, i)` of step `i`. */
  method PermuteLines(src: Source, draws: seq<nat>) returns (r: Outcome)
    requires src.Bytes? && |LinesOf(src.data)| >= MINIMUM_LINES
             ==> |LinesOf(src.data)| <= |draws| && DrawsFit(draws)
    ensures src.Size() < MINIMUM_SIZE ==> r == Raised(UsageError)
    ensures src.Size() >= MINIMUM_SIZE && src.NullPointer? ==> r == Raised(UnexpectedError)
    ensures src.Size() >= MINIMUM_SIZE && src.Bytes? && |LinesOf(src.data)| < MINIMUM_LINES
            ==> r == Raised(UsageError)
    ensures src.Size() >= MINIMUM_SIZE && src.Bytes? && |LinesOf(src.data)| >= MINIMUM_LINES ==>
              var n := |LinesOf(src.data)|;
              var order := Shuffled(Identity(n), draws, n - 1);
              Rearrangement(src.data, order)
              && r == Written(Concat(src.data, Reorder(LinesOf(src.data), order)) + [0])
              && |r.data| == |src.data| + 1
  {
    var size := src.Size();
    if size < MINIMUM_SIZE {
      return Raised(UsageError);
    }
    if src.NullPointer? {
      return Raised(UnexpectedError);
    }
    var data := src.data;
    var numLines := |LinesOf(data)|;
    if numLines < MINIMUM_LINES {
      return Raised(UsageError);
    }
    var order, lines := LineTables(data);
    ShuffleOrder(order, draws);
    var perm := order[..];
    ShuffledPermutes(Identity(numLines), draws, numLines - 1);
    RearrangedSize(data, perm);
    var out := WriteLines(data, lines[..], perm, size + 1);
    assert Zeros(1) == [0];
    return Written(out);
  }
}
