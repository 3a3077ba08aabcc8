/** RadamsaDeleteLineMutator: the new test case is the old one with one
    randomly chosen line removed, followed by a terminating zero. */
module DeleteLine {
  import opened Common
  import opened Lines

  /** The buffer with the bytes of `l` cut out, the rest in their order,
      and a terminating zero. */
  function WithoutLine(data: seq<Byte>, l: Line): (r: seq<Byte>)
    requires l.startIndex + l.size <= |data|
    ensures |r| == |data| - l.size + 1
    ensures forall i :: 0 <= i < l.startIndex ==> r[i] == data[i]
    ensures forall i :: l.startIndex <= i < |data| - l.size ==> r[i] == data[i + l.size]
    ensures r[|r| - 1] == 0
  {
    data[..l.startIndex] + data[l.startIndex + l.size..] + [0]
  }

  /** The copy loop: every byte outside `[startIndex, startIndex + size)`
      is copied, in order, into a zeroed buffer one byte longer than what
      remains. */
  method CopySkipping(data: seq<Byte>, l: Line) returns (out: seq<Byte>)
    requires l.startIndex + l.size <= |data|
    ensures out == WithoutLine(data, l)
  {
    ghost var r := WithoutLine(data, l);
    var newSize := |data| - l.size + 1;
    var buf := new Byte[newSize](_ => 0);
    var source, destination := 0, 0;
    while source < |data|
      invariant 0 <= source <= |data|
      invariant destination == if source <= l.startIndex then source
                               else if source <= l.startIndex + l.size then l.startIndex
                               else source - l.size
      invariant forall i :: 0 <= i < destination ==> buf[i] == r[i]
      invariant forall i :: destination <= i < newSize ==> buf[i] == 0
    {
      var lineStart := l.startIndex;
      var lineEnd := lineStart + l.size;
      if source < lineStart || source >= lineEnd {
        buf[destination] := data[source];
        destination := destination + 1;
      }
      source := source + 1;
    }
    assert buf[..] == r;
    out := buf[..];
  }

  /** `mutateTestCase`; `pick` is `randBetween(0, numLines - 1)`. */
  method DeleteLine(src: Source, pick: nat) returns (r: Outcome)
    requires src.Bytes? && |src.data| >= 1 ==> pick < |LinesOf(src.data)|
    ensures src.Size() < 1 ==> r == Raised(UsageError)
    ensures src.Size() >= 1 && src.NullPointer? ==> r == Raised(UnexpectedError)
    ensures src.Size() >= 1 && src.Bytes? ==>
              var ls := LinesOf(src.data);
              ls[pick].startIndex + ls[pick].size <= |src.data|
              && r == Written(WithoutLine(src.data, ls[pick]))
              && InBounds(src.data, ls[..pick] + ls[pick + 1..])
              && r.data == Concat(src.data, ls[..pick] + ls[pick + 1..]) + [0]
              && |r.data| <= |src.data|
  {
    var size := src.Size();
    if size < 1 {
      return Raised(UsageError);
    }
    if src.NullPointer? {
      return Raised(UnexpectedError);
    }
    var data := src.data;
    LineTable(data);
    LinesWithout(data, pick);
    var line := LinesOf(data)[pick];
    var out := CopySkipping(data, line);
    return Written(out);
  }
}
