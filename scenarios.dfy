/**
 Callers of the string view: what they can conclude from its contracts
 alone about searching, aliasing through shared bytes and ownership.
 */
module Scenarios {
  import opened Bytes
  import opened StringViews

  /** Over "banana": find('a') is 1, reverseFind('a', 6) is 5 and find('z') misses. */
  method SearchBanana() returns (first: nat, last: nat, none: nat)
    ensures first == 1 && last == 5 && none == NotFound
  {
    var mem := new Byte[] [98, 97, 110, 97, 110, 97];
    var v := new StringView.FromString(mem);
    assert v.Content() == [98, 97, 110, 97, 110, 97];
    assert v.Content()[1] == 97;
    first := v.Find(97);
    last := v.ReverseFind(97, 6);
    none := v.Find(122);
  }

  /** A view over the C string "ab" equals "ab" and not its prefix "a". */
  method CompareWithCString() returns (same: bool, shorter: bool)
    ensures same && !shorter
  {
    var mem := new Byte[] [97, 98, 0];
    assert mem[..] == [97, 98, 0] && mem[..][2] == NUL && mem[0..] == mem[..];
    var v := new StringView.FromCString(mem, 0);
    assert v.Content() == [97, 98];
    same := v.EqualsCString([97, 98]);
    shorter := v.EqualsCString([97]);
  }

  /**
   An equal-length replace through a child slice writes into the array the
   parent borrows: the parent, the child and the caller's array all show
   the new byte.
   */
  method ChildReplaceIsSeenByParent(mem: array<Byte>, x: Byte) returns (parent: StringView, child: StringView)
    requires 3 <= mem.Length <= SizeMax
    modifies mem
    ensures parent.Valid() && child.Valid() && parent.buf == mem && child.buf == mem
    ensures !parent.owned && !child.owned
    ensures mem[..] == old(mem[..1]) + [x] + old(mem[2..])
    ensures parent.Content() == mem[..] && child.Content() == [x, old(mem[2])]
  {
    parent := new StringView.FromString(mem);
    child := parent.Slice(1, 3);
    child.Replace(0, 1, [x]);
  }

  /**
   A replace that changes the length leaves the borrowed bytes alone: the
   view owns a new buffer and the caller's array is as it was.
   */
  method GrowingReplaceLeavesSourceAlone(mem: array<Byte>, x: Byte) returns (v: StringView)
    requires 1 <= mem.Length < SizeMax
    modifies mem
    ensures v.Valid() && v.owned && v.buf != mem
    ensures mem[..] == old(mem[..])
    ensures v.Content() == [x, x] + mem[1..] && v.Size() == mem.Length + 1
    ensures v.buf[..] == v.Content()
  {
    v := new StringView.FromString(mem);
    v.Replace(0, 1, [x, x]);
  }

  /** After substitute, a write to the argument is not seen by the view. */
  method SubstituteIsIndependentCopy(v: StringView, str: array<Byte>, x: Byte)
    requires v.Valid() && 1 <= str.Length <= SizeMax
    modifies v, str
    ensures v.Valid() && v.owned && v.Content() == old(str[..])
    ensures str[0] == x
  {
    v.Substitute(str);
    str[0] := x;
  }

  /** A view built over the result of toString equals the original view. */
  method ToStringRoundTrip(v: StringView) returns (w: StringView)
    requires v.Valid()
    ensures w.Valid() && !w.owned && w.Equals(v)
  {
    var s := v.ToString();
    w := new StringView.FromString(s);
  }
}
