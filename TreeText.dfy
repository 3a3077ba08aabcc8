/** The text form of the tree of the Radamsa tree mutator base,
    `root(left)(right)`: a node's decimal value, then, if it has any child,
    its left subtree in brackets (`()` when there is no left child) and, if
    there is a right child, its right subtree in brackets.

    Ranges of the text are written as index pairs `[i, j)` rather than as
    slices. */
module TreeText {
  import opened Common
  import opened BracketTree

  /** Why parsing stops: a runtime exception with an error code, or the
      exception `std::stoul` throws for an empty or too large digit run. */
  datatype ParseError = RuntimeError(code: ErrorCode) | NumeralRejected

  datatype ParseResult = Parsed(node: Node) | Thrown(error: ParseError)

  // ---------------------------------------------------------------------------
  // Characters and the occurrence of one text inside another

  /** `treeStr[i]` of a `std::string`: position `size()` holds the terminator. */
  function CharAt(s: string, i: int): char
    requires 0 <= i <= |s|
  {
    if i < |s| then s[i] else '\0'
  }

  predicate IsDigit(c: char)
  {
    '0' <= c <= '9'
  }

  predicate DigitsIn(s: string, i: int, j: int)
    requires 0 <= i <= j <= |s|
  {
    forall k :: i <= k < j ==> IsDigit(s[k])
  }

  predicate AllDigits(d: string)
  {
    DigitsIn(d, 0, |d|)
  }

  function DigitValue(c: char): nat
    requires IsDigit(c)
  {
    (c as int) - ('0' as int)
  }

  function DigitChar(d: nat): (c: char)
    requires d < 10
    ensures IsDigit(c) && DigitValue(c) == d
  {
    (('0' as int) + d) as char
  }

  /** `t` occurs in `s` at position `p`. */
  predicate At(s: string, p: int, t: string)
  {
    0 <= p && p + |t| <= |s| && forall k {:trigger t[k]} :: 0 <= k < |t| ==> s[p + k] == t[k]
  }

  lemma AtSplit(s: string, p: int, a: string, b: string)
    requires At(s, p, a + b)
    ensures At(s, p, a) && At(s, p + |a|, b)
  {
    forall k | 0 <= k < |a| ensures s[p + k] == a[k] {
      assert (a + b)[k] == a[k];
    }
    forall k | 0 <= k < |b| ensures s[p + |a| + k] == b[k] {
      assert (a + b)[|a| + k] == b[k];
    }
  }

  // ---------------------------------------------------------------------------
  // Numerals: std::stoul and std::to_string

  /** The value of the decimal digits in `[i, j)`, most significant first. */
  function NumeralOf(s: string, i: int, j: int): nat
    requires 0 <= i <= j <= |s| && DigitsIn(s, i, j)
    decreases j - i
  {
    if j == i then 0 else NumeralOf(s, i, j - 1) * 10 + DigitValue(s[j - 1])
  }

  /** `std::stoul` of a run of digits, before its range check. */
  function Stoul(d: string): nat
    requires AllDigits(d)
  {
    NumeralOf(d, 0, |d|)
  }

  /** A numeral reads the same wherever it occurs. */
  lemma {:induction false} NumeralAt(s: string, p: int, t: string, n: int)
    requires At(s, p, t) && 0 <= n <= |t| && DigitsIn(t, 0, n)
    ensures DigitsIn(s, p, p + n) && NumeralOf(s, p, p + n) == NumeralOf(t, 0, n)
    decreases n
  {
    forall k | p <= k < p + n ensures s[k] == t[k - p] {
      assert s[p + (k - p)] == t[k - p];
    }
    if n > 0 {
      NumeralAt(s, p, t, n - 1);
    }
  }

  /** `std::to_string` of an unsigned value: one or more decimal digits. */
  function Decimal(v: nat): (d: string)
    ensures |d| >= 1 && AllDigits(d)
    decreases v
  {
    if v < 10 then [DigitChar(v)] else Decimal(v / 10) + [DigitChar(v % 10)]
  }

  /** `std::stoul` reads back what `std::to_string` writes. */
  lemma {:induction false} DecimalReads(v: nat)
    ensures Stoul(Decimal(v)) == v
    decreases v
  {
    if v >= 10 {
      var h := Decimal(v / 10);
      var d := Decimal(v);
      DecimalReads(v / 10);
      assert d == h + [DigitChar(v % 10)];
      assert At(d, 0, h);
      NumeralAt(d, 0, h, |h|);
    }
  }

  // ---------------------------------------------------------------------------
  // Bracket balance

  function Delta(c: char): int
  {
    if c == '(' then 1 else if c == ')' then -1 else 0
  }

  /** Opening brackets minus closing brackets in `[i, j)`. */
  function BalanceOf(s: string, i: int, j: int): int
    requires 0 <= i <= j <= |s|
    decreases j - i
  {
    if j == i then 0 else BalanceOf(s, i, j - 1) + Delta(s[j - 1])
  }

  lemma {:induction false} BalanceSplit(s: string, i: int, m: int, j: int)
    requires 0 <= i <= m <= j <= |s|
    ensures BalanceOf(s, i, j) == BalanceOf(s, i, m) + BalanceOf(s, m, j)
    decreases j - m
  {
    if j > m {
      BalanceSplit(s, i, m, j - 1);
    }
  }

  lemma {:induction false} BalanceAt(s: string, p: int, t: string, n: int)
    requires At(s, p, t) && 0 <= n <= |t|
    ensures BalanceOf(s, p, p + n) == BalanceOf(t, 0, n)
    decreases n
  {
    if n > 0 {
      BalanceAt(s, p, t, n - 1);
      assert s[p + (n - 1)] == t[n - 1];
    }
  }

  /** `s[j]` closes the bracket group opened at `i`: it is `)` and the
      brackets of `[i, j]` balance. */
  predicate Closes(s: string, i: int, j: int)
    requires 0 <= i <= j < |s|
  {
    s[j] == ')' && BalanceOf(s, i, j + 1) == 0
  }

  function ScanClose(s: string, i: int, j: int, maxIndex: int): (r: int)
    requires 0 <= i <= j && maxIndex < |s|
    ensures r == -1 || (j <= r <= maxIndex && Closes(s, i, r))
    ensures r == -1 ==> forall k :: j <= k <= maxIndex ==> !Closes(s, i, k)
    ensures r != -1 ==> forall k :: j <= k < r ==> !Closes(s, i, k)
    decreases maxIndex - j + 1
  {
    if j > maxIndex then -1 else if Closes(s, i, j) then j else ScanClose(s, i, j + 1, maxIndex)
  }

  /** The index of the first `)` in `[i, maxIndex]` at which the brackets
      counted from `i` balance, or -1 if there is none (including when
      `i > maxIndex`). */
  function CloseBracket(s: string, i: int, maxIndex: int): (r: int)
    requires 0 <= i && maxIndex < |s|
    ensures i > maxIndex ==> r == -1
    ensures r == -1 || (i <= r <= maxIndex && Closes(s, i, r))
    ensures r == -1 ==> forall k :: i <= k <= maxIndex ==> !Closes(s, i, k)
    ensures r != -1 ==> forall k :: i <= k < r ==> !Closes(s, i, k)
  {
    ScanClose(s, i, i, maxIndex)
  }

  /** The end of the run of digits starting at `i` and not going past `maxIndex`. */
  function DigitRunEnd(s: string, i: int, maxIndex: int): (j: int)
    requires 0 <= i <= maxIndex + 1 && maxIndex < |s|
    ensures i <= j <= maxIndex + 1
    ensures j <= |s| && DigitsIn(s, i, j)
    ensures j <= maxIndex ==> !IsDigit(s[j])
    decreases maxIndex - i + 1
  {
    if i <= maxIndex && IsDigit(s[i]) then
      var j := DigitRunEnd(s, i + 1, maxIndex);
      assert forall k :: i <= k < j ==> IsDigit(s[k]) by {
        forall k | i <= k < j ensures IsDigit(s[k]) {
          if k > i {
            assert DigitsIn(s, i + 1, j);
          }
        }
      }
      j
    else i
  }

  // ---------------------------------------------------------------------------
  // Parsing: Tree::buildTree and Tree(string)

  /** What `buildTree(s, i, maxIndex)` returns or throws: nothing for an
      empty range, otherwise a node whose value is the run of digits at `i`. */
  function Build(s: string, i: int, maxIndex: int): ParseResult
    requires 0 <= i && maxIndex < |s|
    decreases maxIndex - i + 1, 2
  {
    if i > maxIndex then Parsed(Null) else BuildValue(s, i, DigitRunEnd(s, i, maxIndex), maxIndex)
  }

  /** The node whose value is written in `[i, j)`: `std::stoul` rejects an
      empty or too large numeral; a leaf unless the character after the digits
      is `(`.  That character is looked at even when it lies past `maxIndex`,
      as in the source. */
  function BuildValue(s: string, i: int, j: int, maxIndex: int): ParseResult
    requires 0 <= i <= j <= maxIndex + 1 && maxIndex < |s| && DigitsIn(s, i, j)
    decreases maxIndex - i + 1, 1
  {
    if i == j || NumeralOf(s, i, j) > SIZE_MAX then Thrown(NumeralRejected)
    else if CharAt(s, j) != '(' then Parsed(Node(NumeralOf(s, i, j), Null, Null))
    else BuildChildren(s, NumeralOf(s, i, j), j, CloseBracket(s, j, maxIndex), maxIndex)
  }

  /** The children of a node whose `(` is at `j` and whose matching `)` is at
      `close` (-1 when unmatched, which raises CONFIGURATION_ERROR): the left
      subtree inside the brackets, the right one from two past `close` up to
      `maxIndex - 1`. */
  function BuildChildren(s: string, v: SizeT, j: int, close: int, maxIndex: int): ParseResult
    requires 0 <= j && maxIndex < |s|
    requires close == -1 || j < close <= maxIndex
    decreases maxIndex - j + 1, 0
  {
    if close < 0 then Thrown(RuntimeError(ConfigurationError))
    else
      match Build(s, j + 1, close - 1)
      case Thrown(e) => Thrown(e)
      case Parsed(l) =>
        match Build(s, close + 2, maxIndex - 1)
        case Thrown(e) => Thrown(e)
        case Parsed(r) => Parsed(Node(v, l, r))
  }

  /** `Tree(treeStr)`: the whole string, `maxIndex` being `length() - 1`
      (-1 for the empty string). */
  function Parse(s: string): ParseResult
  {
    Build(s, 0, |s| - 1)
  }

  /** Tree::findCloseBracketIndex. */
  method FindCloseBracketIndex(treeStr: string, i: int, maxIndex: int) returns (r: int)
    requires 0 <= i && maxIndex < |treeStr|
    ensures r == CloseBracket(treeStr, i, maxIndex)
  {
    if i > maxIndex {
      return -1;
    }
    var j, numBracketPairs := i, 0;
    while j <= maxIndex
      invariant i <= j <= maxIndex + 1
      invariant numBracketPairs == BalanceOf(treeStr, i, j)
      invariant forall k :: i <= k < j ==> !Closes(treeStr, i, k)
    {
      if treeStr[j] == '(' {
        numBracketPairs := numBracketPairs + 1;
      } else if treeStr[j] == ')' {
        numBracketPairs := numBracketPairs - 1;
        if numBracketPairs == 0 {
          assert Closes(treeStr, i, j);
          return j;
        }
      }
      j := j + 1;
    }
    return -1;
  }

  /** The digit loop of Tree::buildTree: the characters of the run of digits
      starting at `i`, and the index just past it. */
  method ReadDigits(treeStr: string, i: int, maxIndex: int) returns (valueStr: string, j: int)
    requires 0 <= i <= maxIndex + 1 && maxIndex < |treeStr|
    ensures j == DigitRunEnd(treeStr, i, maxIndex)
    ensures |valueStr| == j - i && AllDigits(valueStr) && At(treeStr, i, valueStr)
    ensures Stoul(valueStr) == NumeralOf(treeStr, i, j)
  {
    valueStr := "";
    j := i;
    while j <= maxIndex && '0' <= treeStr[j] <= '9'
      invariant i <= j <= maxIndex + 1
      invariant |valueStr| == j - i && At(treeStr, i, valueStr) && AllDigits(valueStr)
      invariant DigitRunEnd(treeStr, j, maxIndex) == DigitRunEnd(treeStr, i, maxIndex)
    {
      valueStr := valueStr + [treeStr[j]];
      j := j + 1;
    }
    NumeralAt(treeStr, i, valueStr, |valueStr|);
  }

  /** Tree::buildTree. */
  method BuildTree(treeStr: string, i: int, maxIndex: int) returns (r: ParseResult)
    requires 0 <= i && maxIndex < |treeStr|
    ensures r == Build(treeStr, i, maxIndex)
    decreases maxIndex - i + 1
  {
    if i > maxIndex {
      return Parsed(Null);
    }
    var valueStr, j := ReadDigits(treeStr, i, maxIndex);
    assert Build(treeStr, i, maxIndex) == BuildValue(treeStr, i, j, maxIndex);
    if valueStr == [] || Stoul(valueStr) > SIZE_MAX {
      return Thrown(NumeralRejected);
    }
    var value: SizeT := Stoul(valueStr);
    if CharAt(treeStr, j) == '(' {
      var result := FindCloseBracketIndex(treeStr, j, maxIndex);
      assert BuildValue(treeStr, i, j, maxIndex) == BuildChildren(treeStr, value, j, result, maxIndex);
      if result >= 0 {
        var left := BuildTree(treeStr, j + 1, result - 1);
        if left.Thrown? {
          return left;
        }
        var right := BuildTree(treeStr, result + 2, maxIndex - 1);
        if right.Thrown? {
          return right;
        }
        return Parsed(Node(value, left.node, right.node));
      } else {
        return Thrown(RuntimeError(ConfigurationError));
      }
    }
    return Parsed(Node(value, Null, Null));
  }

  /** What `Tree(treeStr)` produces: a tree, or the exception it lets escape. */
  datatype Construction = Constructed(tree: Tree) | Threw(error: ParseError)

  /** Tree::Tree(string). */
  method NewTree(treeStr: string) returns (c: Construction)
    ensures c.Constructed? ==> fresh(c.tree) && Parse(treeStr) == Parsed(c.tree.root)
    ensures c.Threw? ==> Parse(treeStr) == Thrown(c.error)
  {
    var r := BuildTree(treeStr, 0, |treeStr| - 1);
    if r.Thrown? {
      return Threw(r.error);
    }
    var t := new Tree.FromRoot(r.node);
    return Constructed(t);
  }

  // ---------------------------------------------------------------------------
  // Serialising: Tree::toString

  /** A subtree's text in brackets. */
  function Group(a: string): string
  {
    "(" + a + ")"
  }

  /** The text of a subtree; nothing for a null pointer. */
  function Text(n: Node): string
  {
    match n
    case Null => ""
    case Node(v, l, r) =>
      if l == Null && r == Null then Decimal(v)
      else Decimal(v) + Group(Text(l)) + (if r != Null then Group(Text(r)) else "")
  }

  /** Appending `(`, a text and `)` appends the group of the text. */
  lemma AppendGroup(a: string, x: string)
    ensures a + "(" + x + ")" == a + Group(x)
  {
    assert a + "(" + x + ")" == a + ("(" + x + ")");
  }

  /** Tree::toString, appending the text of `n` to `s`. */
  method ToString(n: Node, s: string) returns (out: string)
    ensures out == s + Text(n)
    decreases n
  {
    out := s;
    if n == Null {
      return;
    }
    var d := Decimal(n.value);
    out := out + d;
    if n.left == Null && n.right == Null {
      return;
    }
    out := out + "(";
    out := ToString(n.left, out);
    out := out + ")";
    AppendGroup(s + d, Text(n.left));
    assert out == s + (d + Group(Text(n.left)));
    if n.right != Null {
      ghost var before := out;
      out := out + "(";
      out := ToString(n.right, out);
      out := out + ")";
      AppendGroup(before, Text(n.right));
      assert out == s + (d + Group(Text(n.left)) + Group(Text(n.right)));
    }
    TextOfInner(n);
  }

  // ---------------------------------------------------------------------------
  // The round trip: Tree(toString(t)) rebuilds t

  /** A well-bracketed text: balanced, and no prefix closes more than it opens. */
  predicate Nested(t: string)
  {
    BalanceOf(t, 0, |t|) == 0 && forall k :: 0 <= k <= |t| ==> BalanceOf(t, 0, k) >= 0
  }

  lemma {:induction false} DigitsBalance(d: string, k: int)
    requires AllDigits(d) && 0 <= k <= |d|
    ensures BalanceOf(d, 0, k) == 0
    decreases k
  {
    if k > 0 {
      DigitsBalance(d, k - 1);
    }
  }

  lemma NestedConcat(a: string, b: string)
    requires Nested(a) && Nested(b)
    ensures Nested(a + b)
  {
    var s := a + b;
    AtSplit(s, 0, a, b);
    forall k | 0 <= k <= |s| ensures BalanceOf(s, 0, k) >= 0 {
      if k <= |a| {
        BalanceAt(s, 0, a, k);
      } else {
        BalanceSplit(s, 0, |a|, k);
        BalanceAt(s, 0, a, |a|);
        BalanceAt(s, |a|, b, k - |a|);
      }
    }
    BalanceSplit(s, 0, |a|, |s|);
    BalanceAt(s, 0, a, |a|);
    BalanceAt(s, |a|, b, |b|);
  }

  lemma GroupParts(a: string)
    ensures |Group(a)| == |a| + 2
    ensures Group(a)[0] == '(' && At(Group(a), 1, a) && Group(a)[|a| + 1] == ')'
  {
    AtSplit(Group(a), 0, "(" + a, ")");
    AtSplit(Group(a), 0, "(", a);
  }

  lemma NestedGroup(a: string)
    requires Nested(a)
    ensures Nested(Group(a))
  {
    var g := Group(a);
    GroupParts(a);
    assert BalanceOf(g, 0, 1) == 1;
    forall k | 1 <= k <= |a| + 1 ensures BalanceOf(g, 0, k) == 1 + BalanceOf(a, 0, k - 1) {
      BalanceSplit(g, 0, 1, k);
      BalanceAt(g, 1, a, k - 1);
    }
    assert BalanceOf(g, 0, |g|) == BalanceOf(g, 0, |a| + 1) - 1;
  }

  /** The text of every tree is well bracketed. */
  lemma {:induction false} TextNested(t: Node)
    ensures Nested(Text(t))
    decreases t
  {
    match t
    case Null =>
    case Node(v, l, r) =>
      var d := Decimal(v);
      forall k | 0 <= k <= |d| ensures BalanceOf(d, 0, k) == 0 {
        DigitsBalance(d, k);
      }
      if l == Null && r == Null {
      } else {
        TextNested(l);
        NestedGroup(Text(l));
        NestedConcat(d, Group(Text(l)));
        if r != Null {
          TextNested(r);
          NestedGroup(Text(r));
          NestedConcat(d + Group(Text(l)), Group(Text(r)));
        } else {
          assert Text(t) == d + Group(Text(l));
        }
      }
  }

  /** The pieces of a group `(a)` found at `j`. */
  lemma AtGroup(s: string, j: int, a: string)
    requires At(s, j, Group(a))
    ensures s[j] == '(' && At(s, j + 1, a) && s[j + |a| + 1] == ')'
  {
    GroupParts(a);
    assert s[j + 0] == Group(a)[0];
    assert s[j + (|a| + 1)] == Group(a)[|a| + 1];
    forall k | 0 <= k < |a| ensures s[j + 1 + k] == a[k] {
      assert s[j + (1 + k)] == Group(a)[1 + k];
      assert Group(a)[1 + k] == a[k];
    }
  }

  /** A group `(a)` with `a` well bracketed, found at `j`, closes at its own
      last character. */
  lemma CloseOfGroup(s: string, j: int, a: string, maxIndex: int)
    requires Nested(a)
    requires j + |a| + 1 <= maxIndex < |s|
    requires 0 <= j && s[j] == '(' && At(s, j + 1, a) && s[j + |a| + 1] == ')'
    ensures CloseBracket(s, j, maxIndex) == j + |a| + 1
  {
    var c := j + |a| + 1;
    forall k | j <= k < c ensures !Closes(s, j, k) {
      BalanceSplit(s, j, j + 1, k + 1);
      BalanceAt(s, j + 1, a, k - j);
    }
    BalanceSplit(s, j, j + 1, c + 1);
    BalanceSplit(s, j + 1, c, c + 1);
    BalanceAt(s, j + 1, a, |a|);
    assert Closes(s, j, c);
  }

  /** The digit run of a value's decimal text ends where the text does. */
  lemma DigitRunOfDecimal(s: string, i: int, maxIndex: int, d: string)
    requires i + |d| <= maxIndex + 1 && maxIndex < |s|
    requires AllDigits(d) && At(s, i, d)
    requires i + |d| <= maxIndex ==> !IsDigit(s[i + |d|])
    ensures DigitRunEnd(s, i, maxIndex) == i + |d|
  {
    NumeralAt(s, i, d, |d|);
    DigitRunFrom(s, i, i + |d|, maxIndex);
  }

  lemma {:induction false} DigitRunFrom(s: string, i: int, j: int, maxIndex: int)
    requires 0 <= i <= j <= maxIndex + 1 && maxIndex < |s| && DigitsIn(s, i, j)
    requires j <= maxIndex ==> !IsDigit(s[j])
    ensures DigitRunEnd(s, i, maxIndex) == j
    decreases j - i
  {
    if i < j {
      DigitRunFrom(s, i + 1, j, maxIndex);
    }
  }

  /** A numeral at `p` running to `maxIndex` and not followed by `(`
      parses to a leaf. */
  lemma BuildLeaf(s: string, p: int, maxIndex: int, v: SizeT)
    requires maxIndex < |s| && p + |Decimal(v)| == maxIndex + 1 && At(s, p, Decimal(v))
    requires CharAt(s, p + |Decimal(v)|) != '('
    ensures Build(s, p, maxIndex) == Parsed(Node(v, Null, Null))
  {
    var d := Decimal(v);
    DigitRunOfDecimal(s, p, maxIndex, d);
    NumeralAt(s, p, d, |d|);
    DecimalReads(v);
  }

  /** Where the pieces of `a(b)c` lie when it is found at `p`. */
  lemma GroupAfter(s: string, p: int, a: string, b: string, c: string)
    requires At(s, p, a + Group(b) + c)
    ensures At(s, p, a) && s[p + |a|] == '(' && At(s, p + |a| + 1, b)
    ensures s[p + |a| + |b| + 1] == ')' && At(s, p + |a| + |b| + 2, c)
  {
    AtSplit(s, p, a + Group(b), c);
    AtSplit(s, p, a, Group(b));
    AtGroup(s, p + |a|, b);
  }

  /** The text of a node with a child: value, left group, and the right
      group if there is a right child. */
  lemma TextOfInner(t: Node)
    requires t.Node? && !(t.left == Null && t.right == Null)
    ensures Text(t) == Decimal(t.value) + Group(Text(t.left)) + (if t.right != Null then Group(Text(t.right)) else "")
  {
  }

  /** A node's value written at `p`, followed by `(` before `e`. */
  predicate HeadLaidOut(s: string, p: int, v: SizeT, e: int)
  {
    0 <= p && p + |Decimal(v)| < e <= |s| && At(s, p, Decimal(v)) && s[p + |Decimal(v)|] == '('
  }

  /** The children of `t` written from the `(` at `j` up to `e`: the left
      text, `)` and, for a right child, `(`, the right text and `)`. */
  predicate ChildrenLaidOut(s: string, j: int, t: Node, e: int)
    requires t.Node?
  {
    var c := j + |Text(t.left)| + 1;
    && 0 <= j && c < e <= |s|
    && s[j] == '(' && At(s, j + 1, Text(t.left)) && s[c] == ')'
    && (t.right == Null ==> e == c + 1)
    && (t.right != Null ==>
          && e == c + |Text(t.right)| + 3
          && s[c + 1] == '(' && At(s, c + 2, Text(t.right)) && s[e - 1] == ')')
  }

  /** The text of an inner node found at `p` is laid out as HeadLaidOut and
      ChildrenLaidOut say. */
  lemma TextParts(s: string, p: int, t: Node)
    requires t.Node? && !(t.left == Null && t.right == Null)
    requires At(s, p, Text(t))
    ensures HeadLaidOut(s, p, t.value, p + |Text(t)|)
    ensures ChildrenLaidOut(s, p + |Decimal(t.value)|, t, p + |Text(t)|)
  {
    var d, tl := Decimal(t.value), Text(t.left);
    var rest := if t.right != Null then Group(Text(t.right)) else "";
    TextOfInner(t);
    GroupAfter(s, p, d, tl, rest);
    if t.right != Null {
      AtGroup(s, p + |d| + |tl| + 2, Text(t.right));
    }
  }

  /** The round trip, in any context: the text of `t` found at position `p`
      of `s` and not followed by `(` parses back to `t`. */
  lemma {:induction false} BuildText(s: string, p: int, t: Node)
    requires At(s, p, Text(t))
    requires p + |Text(t)| == |s| || s[p + |Text(t)|] != '('
    ensures Build(s, p, p + |Text(t)| - 1) == Parsed(t)
    decreases t, 2
  {
    if t.Node? {
      if t.left == Null && t.right == Null {
        BuildLeaf(s, p, p + |Text(t)| - 1, t.value);
      } else {
        TextParts(s, p, t);
        BuildInnerText(s, p, t, p + |Text(t)|);
      }
    }
  }

  /** BuildText for a node with a child whose text ends before `e`, by the
      round trip of its children. */
  lemma {:induction false} BuildInnerText(s: string, p: int, t: Node, e: int)
    requires t.Node?
    requires HeadLaidOut(s, p, t.value, e) && ChildrenLaidOut(s, p + |Decimal(t.value)|, t, e)
    ensures Build(s, p, e - 1) == Parsed(t)
    decreases t, 1
  {
    var j := p + |Decimal(t.value)|;
    var c := j + |Text(t.left)| + 1;
    LeftParsed(s, j, c, t, e);
    RightParsed(s, j, c, t, e);
    BuildNode(s, p, j, c, e, t.value, t.left, t.right);
  }

  /** Between the `(` at `j` and the `)` at `c` that ends the left text, the
      left text parses to the left child, and that `)` is the one matching
      `j`. */
  lemma {:induction false} LeftParsed(s: string, j: int, c: int, t: Node, e: int)
    requires t.Node? && c == j + |Text(t.left)| + 1 && ChildrenLaidOut(s, j, t, e)
    ensures CloseBracket(s, j, e - 1) == c
    ensures Build(s, j + 1, c - 1) == Parsed(t.left)
    decreases t, 0
  {
    TextNested(t.left);
    CloseOfGroup(s, j, Text(t.left), e - 1);
    BuildText(s, j + 1, t.left);
  }

  /** What follows the left group, closed at `c`, parses to the right child. */
  lemma {:induction false} RightParsed(s: string, j: int, c: int, t: Node, e: int)
    requires t.Node? && c == j + |Text(t.left)| + 1 && ChildrenLaidOut(s, j, t, e)
    ensures Build(s, c + 2, e - 2) == Parsed(t.right)
    decreases t, 0
  {
    if t.right != Null {
      BuildText(s, c + 2, t.right);
    }
  }

  /** A value's numeral at `p` followed by a group from `j` closing at `c`,
      with the two inner ranges parsing to `l` and `r`, parses to the node. */
  lemma BuildNode(s: string, p: int, j: int, c: int, e: int, v: SizeT, l: Node, r: Node)
    requires j == p + |Decimal(v)| && HeadLaidOut(s, p, v, e)
    requires CloseBracket(s, j, e - 1) == c && c >= 0
    requires Build(s, j + 1, c - 1) == Parsed(l)
    requires Build(s, c + 2, e - 2) == Parsed(r)
    ensures Build(s, p, e - 1) == Parsed(Node(v, l, r))
  {
    var d := Decimal(v);
    DigitRunOfDecimal(s, p, e - 1, d);
    NumeralAt(s, p, d, |d|);
    DecimalReads(v);
    assert Build(s, p, e - 1) == BuildValue(s, p, j, e - 1);
    assert BuildValue(s, p, j, e - 1) == BuildChildren(s, v, j, c, e - 1);
  }

  /** Parsing the text of any tree gives the tree back, including the `()`
      that stands for a missing left child. */
  lemma ParseText(t: Node)
    ensures Parse(Text(t)) == Parsed(t)
  {
    assert At(Text(t), 0, Text(t));
    BuildText(Text(t), 0, t);
  }

  /** The empty string parses to the null root. */
  lemma ParseEmpty()
    ensures Parse("") == Parsed(Null)
  {
  }

  /** A value followed by `(` with no `)` anywhere after it raises
      CONFIGURATION_ERROR. */
  lemma UnpairedBracketRaises(s: string, k: int)
    requires 0 < k < |s| && DigitsIn(s, 0, k) && NumeralOf(s, 0, k) <= SIZE_MAX
    requires s[k] == '('
    requires forall m :: k <= m < |s| ==> s[m] != ')'
    ensures Parse(s) == Thrown(RuntimeError(ConfigurationError))
  {
    DigitRunFrom(s, 0, k, |s| - 1);
    assert CloseBracket(s, k, |s| - 1) == -1;
    assert Build(s, 0, |s| - 1) == BuildValue(s, 0, k, |s| - 1);
    assert BuildValue(s, 0, k, |s| - 1) == BuildChildren(s, NumeralOf(s, 0, k), k, -1, |s| - 1);
  }

  /** A text that does not start with a digit is rejected by `std::stoul`. */
  lemma NoLeadingDigitRejected(s: string)
    requires s != [] && !IsDigit(s[0])
    ensures Parse(s) == Thrown(NumeralRejected)
  {
    assert DigitRunEnd(s, 0, |s| - 1) == 0;
    assert Build(s, 0, |s| - 1) == BuildValue(s, 0, 0, |s| - 1);
  }
}
