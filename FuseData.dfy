/** RadamsaFuseDataMutator: the helpers that exist so far (a random pair of
    elements, the random split of a buffer into two lists of suffixes, and
    the filtering of prefix and suffix lists) and the checks of
    `mutateTestCase`, which writes no output yet. */
module FuseData {
  import opened Common

  // ---------------------------------------------------------------------
  // randomPair

  /** `randomPair`: the indices of the two elements it points at, for the
      draws `randBetween(0, size - 1)`. */
  function RandomPair<T>(data: seq<T>, drawA: nat, drawB: nat): (r: (nat, nat))
    requires drawA <= |data| - 1 && drawB <= |data| - 1
    ensures r.0 < |data| && r.1 < |data|
    ensures r == (drawA, drawB)
  {
    (drawA, drawB)
  }

  // ---------------------------------------------------------------------
  // getSuffixes

  /** `s` is a suffix of `data`. */
  predicate IsSuffix<T(==)>(s: seq<T>, data: seq<T>)
  {
    |s| <= |data| && s == data[|data| - |s|..]
  }

  /** `sliceB` after the first `n` steps: the suffix at the last step if
      that step's coin was not 0, and empty otherwise. */
  function SliceAfter<T>(data: seq<T>, coins: seq<nat>, n: nat): seq<T>
    requires n <= |data| <= |coins|
  {
    if n == 0 || coins[n - 1] == 0 then [] else data[n - 1..]
  }

  /** The two lists after the first `n` steps. A coin of 0 pushes the current
      `sliceB` onto the second list and clears it; any other coin makes
      `data[i..]` the new `sliceB` and pushes it onto the first list. */
  function ListsAfter<T>(data: seq<T>, coins: seq<nat>, n: nat): (r: (seq<seq<T>>, seq<seq<T>>))
    requires n <= |data| <= |coins|
  {
    if n == 0 then ([], [])
    else
      var p := ListsAfter(data, coins, n - 1);
      if coins[n - 1] == 0 then (p.0, p.1 + [SliceAfter(data, coins, n - 1)])
      else (p.0 + [data[n - 1..]], p.1)
  }

  /** The shape of the two lists: one entry per element of `data`, every
      entry of the first a non-empty suffix, every entry of the second empty
      or a suffix. */
  lemma {:induction false} SuffixLists<T>(data: seq<T>, coins: seq<nat>, n: nat)
    requires n <= |data| <= |coins|
    ensures |ListsAfter(data, coins, n).0| + |ListsAfter(data, coins, n).1| == n
    ensures forall s :: s in ListsAfter(data, coins, n).0 ==> s != [] && IsSuffix(s, data)
    ensures forall s :: s in ListsAfter(data, coins, n).1 ==> s == [] || IsSuffix(s, data)
    ensures IsSuffix(SliceAfter(data, coins, n), data)
  {
    if n > 0 {
      SuffixLists(data, coins, n - 1);
    }
  }

  /** `getSuffixes`; `coins[i]` is the `randBetween(0, 1)` of step `i`. */
  method GetSuffixes<T>(data: seq<T>, coins: seq<nat>) returns (listA: seq<seq<T>>, listB: seq<seq<T>>)
    requires |data| <= |coins|
    ensures (listA, listB) == ListsAfter(data, coins, |data|)
    ensures |listA| + |listB| == |data|
  {
    listA, listB := [], [];
    var sliceA: seq<T>, sliceB: seq<T> := [], [];
    for i := 0 to |data|
      invariant (listA, listB) == ListsAfter(data, coins, i)
      invariant sliceB == SliceAfter(data, coins, i)
    {
      if coins[i] == 0 {
        sliceA := data[i..];
        if sliceA != [] {
          listB := listB + [sliceB];
          sliceB := [];
        }
      } else {
        sliceB := data[i..];
        if sliceB != [] {
          listA := listA + [sliceB];
          sliceA := [];
        }
      }
    }
    SuffixLists(data, coins, |data|);
  }

  // ---------------------------------------------------------------------
  // The ordered set of byte strings

  /** `operator<` of `std::vector<uint8_t>`: lexicographic, a proper prefix
      before the longer sequence. */
  predicate Less(a: seq<Byte>, b: seq<Byte>)
  {
    if a == [] then b != []
    else if b == [] then false
    else if a[0] != b[0] then a[0] < b[0]
    else Less(a[1..], b[1..])
  }

  lemma {:induction false} LessIrreflexive(a: seq<Byte>)
    ensures !Less(a, a)
  {
    if a != [] {
      LessIrreflexive(a[1..]);
    }
  }

  lemma {:induction false} LessTotal(a: seq<Byte>, b: seq<Byte>)
    requires a != b
    ensures Less(a, b) || Less(b, a)
  {
    if a != [] && b != [] && a[0] == b[0] {
      assert a == [a[0]] + a[1..] && b == [b[0]] + b[1..];
      LessTotal(a[1..], b[1..]);
    }
  }

  lemma {:induction false} LessTransitive(a: seq<Byte>, b: seq<Byte>, c: seq<Byte>)
    requires Less(a, b) && Less(b, c)
    ensures Less(a, c)
  {
    if a != [] && a[0] == b[0] && b[0] == c[0] {
      LessTransitive(a[1..], b[1..], c[1..]);
    }
  }

  /** The iteration order of a `std::set`: strictly increasing. */
  predicate Sorted(s: seq<seq<Byte>>)
  {
    forall i, j :: 0 <= i < j < |s| ==> Less(s[i], s[j])
  }

  /** A sorted sequence has no duplicates. */
  lemma SortedDistinct(s: seq<seq<Byte>>)
    requires Sorted(s)
    ensures forall i, j :: 0 <= i < j < |s| ==> s[i] != s[j]
  {
    forall i, j | 0 <= i < j < |s| ensures s[i] != s[j] {
      LessIrreflexive(s[i]);
    }
  }

  /** `std::set::insert`, on the set's contents in iteration order. */
  function SetInsert(s: seq<seq<Byte>>, x: seq<Byte>): (r: seq<seq<Byte>>)
    ensures forall y :: y in r <==> y in s || y == x
  {
    if s == [] then [x]
    else if x == s[0] then s
    else if Less(x, s[0]) then [x] + s
    else [s[0]] + SetInsert(s[1..], x)
  }

  /** Inserting keeps the contents in order. */
  lemma {:induction false} SetInsertSorted(s: seq<seq<Byte>>, x: seq<Byte>)
    requires Sorted(s)
    ensures Sorted(SetInsert(s, x))
  {
    if s == [] || x == s[0] {
    } else if Less(x, s[0]) {
      forall j | 0 <= j < |s| ensures Less(x, s[j]) {
        if j > 0 { LessTransitive(x, s[0], s[j]); }
      }
      var r := SetInsert(s, x);
      assert forall j :: 0 < j < |r| ==> r[j] == s[j - 1];
    } else {
      LessTotal(x, s[0]);
      assert Sorted(s[1..]);
      SetInsertSorted(s[1..], x);
      var r := SetInsert(s, x);
      var t := SetInsert(s[1..], x);
      assert r == [s[0]] + t;
      forall j | 0 < j < |r| ensures Less(r[0], r[j]) {
        assert r[j] == t[j - 1];
        assert r[j] in t;
        if r[j] != x {
          var k :| 0 <= k < |s[1..]| && s[1..][k] == r[j];
          assert s[k + 1] == r[j];
        }
      }
    }
  }

  // ---------------------------------------------------------------------
  // splitPrefixes

  /** The first elements of the non-empty entries of `ps`. */
  function Heads(ps: seq<seq<Byte>>): set<Byte>
  {
    if ps == [] then {}
    else Heads(ps[..|ps| - 1]) + (if ps[|ps| - 1] != [] then {ps[|ps| - 1][0]} else {})
  }

  /** The prefixes `splitPrefixes` keeps: each non-empty one whose first
      element no earlier kept prefix starts with. */
  function FirstByHead(ps: seq<seq<Byte>>): seq<seq<Byte>>
  {
    if ps == [] then []
    else
      var kept := FirstByHead(ps[..|ps| - 1]);
      var p := ps[|ps| - 1];
      if p != [] && p[0] !in Heads(kept) then kept + [p] else kept
  }

  /** `a` is `b` with some entries left out. */
  predicate Subsequence(a: seq<seq<Byte>>, b: seq<seq<Byte>>)
    decreases |b|
  {
    if a == [] then true
    else if b == [] then false
    else (a[|a| - 1] == b[|b| - 1] && Subsequence(a[..|a| - 1], b[..|b| - 1]))
         || Subsequence(a, b[..|b| - 1])
  }

  /** The kept prefixes are non-empty entries of `ps`, in their input
      order. */
  lemma {:induction false} FirstByHeadKept(ps: seq<seq<Byte>>)
    ensures forall i :: 0 <= i < |FirstByHead(ps)| ==> FirstByHead(ps)[i] != [] && FirstByHead(ps)[i] in ps
    ensures Subsequence(FirstByHead(ps), ps)
  {
    if ps != [] {
      var front := ps[..|ps| - 1];
      FirstByHeadKept(front);
      var kept := FirstByHead(front);
      var p := ps[|ps| - 1];
      assert forall q :: q in front ==> q in ps;
      SubsequenceExtends(kept, front, p);
    }
  }

  /** No two kept prefixes start with the same element. */
  lemma {:induction false} FirstByHeadDistinct(ps: seq<seq<Byte>>)
    ensures forall i :: 0 <= i < |FirstByHead(ps)| ==> FirstByHead(ps)[i] != []
    ensures forall i, j :: 0 <= i < j < |FirstByHead(ps)| ==> FirstByHead(ps)[i][0] != FirstByHead(ps)[j][0]
  {
    FirstByHeadKept(ps);
    if ps != [] {
      var front := ps[..|ps| - 1];
      FirstByHeadDistinct(front);
      var kept := FirstByHead(front);
      var p := ps[|ps| - 1];
      if p != [] && p[0] !in Heads(kept) {
        FirstByHeadKept(front);
        HeadsHas(kept);
        var r := kept + [p];
        assert forall i :: 0 <= i < |kept| ==> r[i] == kept[i];
      }
    }
  }

  /** `Heads` holds the first element of every non-empty entry. */
  lemma {:induction false} HeadsHas(ps: seq<seq<Byte>>)
    ensures forall i :: 0 <= i < |ps| && ps[i] != [] ==> ps[i][0] in Heads(ps)
  {
    if ps != [] {
      var front := ps[..|ps| - 1];
      HeadsHas(front);
      assert forall i :: 0 <= i < |front| ==> ps[i] == front[i];
    }
  }

  lemma HeadsAppend(kept: seq<seq<Byte>>, p: seq<Byte>)
    requires p != []
    ensures Heads(kept + [p]) == Heads(kept) + {p[0]}
  {
    assert (kept + [p])[..|kept + [p]| - 1] == kept;
  }

  /** A subsequence of `b` is one of `b + [p]`, and with `p` added to both
      it stays one. */
  lemma SubsequenceExtends(a: seq<seq<Byte>>, b: seq<seq<Byte>>, p: seq<Byte>)
    requires Subsequence(a, b)
    ensures Subsequence(a, b + [p]) && Subsequence(a + [p], b + [p])
  {
    assert (b + [p])[..|b + [p]| - 1] == b;
    assert (a + [p])[..|a + [p]| - 1] == a;
  }

  /** The largest `|p| - 1` over the kept prefixes: the `len` below which the
      suffixes have been moved to the set so far. */
  function Reach(ps: seq<seq<Byte>>): nat
  {
    if ps == [] then 0
    else
      var last := ps[|ps| - 1];
      var len := if last == [] then 0 else |last| - 1;
      var before := Reach(ps[..|ps| - 1]);
      if before < len then len else before
  }

  /** `Reach` exceeds `n` exactly when some prefix has `|p| - 1 > n`. */
  lemma {:induction false} ReachExceeds(ps: seq<seq<Byte>>, n: nat)
    requires forall p :: p in ps ==> p != []
    ensures Reach(ps) > n <==> exists p :: p in ps && |p| - 1 > n
  {
    if ps != [] {
      var front := ps[..|ps| - 1];
      assert forall p :: p in front ==> p in ps;
      ReachExceeds(front, n);
      assert forall p :: p in ps ==> p in front || p == ps[|ps| - 1];
    }
  }

  /** The entries of `s` of length at least `len`, in order. */
  function AtLeast(s: seq<seq<Byte>>, len: nat): seq<seq<Byte>>
  {
    if s == [] then []
    else AtLeast(s[..|s| - 1], len) + (if |s[|s| - 1]| >= len then [s[|s| - 1]] else [])
  }

  /** `AtLeast` keeps exactly the long enough entries. */
  lemma {:induction false} AtLeastMembers(s: seq<seq<Byte>>, len: nat)
    ensures forall y :: y in AtLeast(s, len) <==> y in s && |y| >= len
  {
    if s != [] {
      var front := s[..|s| - 1];
      AtLeastMembers(front, len);
      assert s == front + [s[|s| - 1]];
    }
  }

  /** With no bound, nothing is filtered out. */
  lemma {:induction false} AtLeastZero(s: seq<seq<Byte>>)
    ensures AtLeast(s, 0) == s
  {
    if s != [] {
      AtLeastZero(s[..|s| - 1]);
      assert s == s[..|s| - 1] + [s[|s| - 1]];
    }
  }

  /** Filtering twice keeps what passes the higher bound. */
  lemma {:induction false} AtLeastTwice(s: seq<seq<Byte>>, a: nat, b: nat)
    ensures AtLeast(AtLeast(s, a), b) == AtLeast(s, if a < b then b else a)
  {
    if s != [] {
      var front := s[..|s| - 1];
      AtLeastTwice(front, a, b);
      var last := s[|s| - 1];
      var t := AtLeast(s, a);
      if |last| >= a {
        assert t != [] && t[..|t| - 1] == AtLeast(front, a) && t[|t| - 1] == last;
      } else {
        assert t == AtLeast(front, a);
      }
    }
  }

  /** The inner loop: the suffixes shorter than `len` go into the set, the
      others are kept in order. */
  method Partition(copy: seq<seq<Byte>>, len: nat, hash: seq<seq<Byte>>) returns (kept: seq<seq<Byte>>, hash2: seq<seq<Byte>>)
    requires Sorted(hash)
    ensures kept == AtLeast(copy, len)
    ensures Sorted(hash2)
    ensures forall y :: y in hash2 <==> y in hash || (y in copy && |y| < len)
  {
    kept, hash2 := [], hash;
    for i := 0 to |copy|
      invariant kept == AtLeast(copy[..i], len)
      invariant Sorted(hash2)
      invariant forall y :: y in hash2 <==> y in hash || (y in copy[..i] && |y| < len)
    {
      var suffix := copy[i];
      assert copy[..i + 1][..i] == copy[..i];
      if |suffix| < len {
        SetInsertSorted(hash2, suffix);
        hash2 := SetInsert(hash2, suffix);
      } else {
        kept := kept + [suffix];
      }
    }
    assert copy[..|copy|] == copy;
  }

  /** `splitPrefixes`. The set of collected suffixes is represented by its
      contents in iteration order, so the returned vector is that sequence. */
  method SplitPrefixes(prefixes: seq<seq<Byte>>, suffixes: seq<seq<Byte>>)
    returns (newPrefixes: seq<seq<Byte>>, newSuffixes: seq<seq<Byte>>)
    ensures newPrefixes == FirstByHead(prefixes)
    ensures Sorted(newSuffixes)
    ensures forall y :: y in newSuffixes <==> y in suffixes && |y| < Reach(newPrefixes)
  {
    newPrefixes := [];
    var suffixesCopy := suffixes;
    var charSuffix: set<Byte> := {};
    var hashSuffix: seq<seq<Byte>> := [];
    AtLeastZero(suffixes);
    for n := 0 to |prefixes|
      invariant newPrefixes == FirstByHead(prefixes[..n])
      invariant charSuffix == Heads(newPrefixes)
      invariant suffixesCopy == AtLeast(suffixes, Reach(newPrefixes))
      invariant Sorted(hashSuffix)
      invariant forall y :: y in hashSuffix <==> y in suffixes && |y| < Reach(newPrefixes)
    {
      var prefix := prefixes[n];
      PrefixStep(prefixes, n);
      if prefix == [] {
        continue;
      }
      var key := prefix[0];
      if key !in charSuffix {
        var len := |prefix| - 1;
        ReachStep(newPrefixes, prefix);
        HeadsAppend(newPrefixes, prefix);
        AtLeastTwice(suffixes, Reach(newPrefixes), len);
        AtLeastMembers(suffixes, Reach(newPrefixes));
        newPrefixes := newPrefixes + [prefix];
        charSuffix := charSuffix + {key};
        suffixesCopy, hashSuffix := Partition(suffixesCopy, len, hashSuffix);
      }
    }
    assert prefixes[..|prefixes|] == prefixes;
    newSuffixes := hashSuffix;
  }

  /** One more prefix looked at: kept exactly when it is non-empty and its
      first element is new. */
  lemma PrefixStep(prefixes: seq<seq<Byte>>, n: nat)
    requires n < |prefixes|
    ensures var p := prefixes[n];
            var kept := FirstByHead(prefixes[..n]);
            FirstByHead(prefixes[..n + 1])
              == if p != [] && p[0] !in Heads(kept) then kept + [p] else kept
  {
    assert prefixes[..n + 1][..n] == prefixes[..n];
  }

  /** Keeping a prefix raises the reach to its `|p| - 1` if that is larger. */
  lemma ReachStep(kept: seq<seq<Byte>>, p: seq<Byte>)
    requires p != []
    ensures Reach(kept + [p]) == if Reach(kept) < |p| - 1 then |p| - 1 else Reach(kept)
  {
    assert (kept + [p])[..|kept|] == kept;
  }

  // ---------------------------------------------------------------------
  // mutateTestCase

  /** `mutateTestCase`: only the argument checks exist; past them nothing is
      written. */
  function FuseData(src: Source): (r: Outcome)
    ensures src.Size() < 1 <==> r == Raised(UsageError)
    ensures src.Size() >= 1 && src.NullPointer? <==> r == Raised(UnexpectedError)
    ensures src.Bytes? && |src.data| >= 1 <==> r == NoOutput
  {
    if src.Size() < 1 then Raised(UsageError)
    else if src.NullPointer? then Raised(UnexpectedError)
    else NoOutput
  }
}
