/**
 A view on a span of bytes that starts out borrowing caller memory and
 switches to a buffer of its own when an edit changes its length or when
 its content is substituted wholesale.

 The C++ object holds a data pointer, a size and a std::string it may own.
 Here the pointer is a backing array `buf` with an offset `off`, and `owned`
 says whether `buf` is the view's own buffer (the C++ `mData` points into
 `mOwned`) or memory it borrows. The visible bytes are always
 `buf[off..off + size]`; they are read from `buf` each time, so an in-place
 write through one view is seen by every view over the same array.
 */
module StringViews {
  import opened Bytes

  /** The "not found" result of both searches: `~0` as a size_t. */
  const NotFound: nat := SizeMax

  /** A search result as a size_t: the position, or the sentinel. */
  function OffsetOf(r: Option<nat>): nat {
    match r
    case None => NotFound
    case Some(k) => k
  }

  /**
   reverseFind as compiled where plain `char` is signed: the stored byte `b`
   is read as `b - 256` when `b >= 128`, while `c` is an unsigned char
   promoted to int, so the comparison in the loop is between these two ints.
   */
  function SignedChar(b: Byte): int {
    if b < 128 then b as int else b as int - 256
  }

  /** The backward scan of reverseFind, comparing a signed `char` with an unsigned `c`. */
  function ReverseFindSignedChar(s: seq<Byte>, c: Byte, from: nat): (r: Option<nat>)
    requires from <= |s|
    ensures r.Some? ==> r.value < from && s[r.value] == c
  {
    if from == 0 then None
    else if SignedChar(s[from - 1]) == c as int then Some(from - 1)
    else ReverseFindSignedChar(s, c, from - 1)
  }

  /** With signed `char`, reverseFind never reports a byte of 0x80 or above. */
  lemma {:induction false} SignedCharMissesHighBytes(s: seq<Byte>, c: Byte, from: nat)
    requires from <= |s| && c >= 128
    ensures ReverseFindSignedChar(s, c, from) == None
  {
    if from > 0 {
      SignedCharMissesHighBytes(s, c, from - 1);
    }
  }

  /** Below 0x80 the signed comparison agrees with the intended backward search. */
  lemma {:induction false} SignedCharAgreesBelow128(s: seq<Byte>, c: Byte, from: nat)
    requires from <= |s| && c < 128
    ensures ReverseFindSignedChar(s, c, from) == LastIndexBefore(s, c, from)
  {
    if from > 0 && s[from - 1] != c {
      SignedCharAgreesBelow128(s, c, from - 1);
    }
  }

  /** The byte 0xE9 is present before position 1, yet the signed scan does not find it. */
  lemma SignedCharCounterexample()
    ensures LastIndexBefore([0xE9], 0xE9, 1) == Some(0)
    ensures ReverseFindSignedChar([0xE9], 0xE9, 1) == None
  {
    SignedCharMissesHighBytes([0xE9], 0xE9, 1);
  }

  class StringView {
    var buf: array<Byte>
    var off: nat
    var size: nat
    var owned: bool

    /**
     The window lies inside the backing array and its size fits a size_t.
     An owned buffer holds exactly the view's bytes: the view starts at its
     first byte and ends at its last.
     */
    ghost predicate Valid()
      reads this
    {
      off + size <= buf.Length && size <= SizeMax &&
      (owned ==> off == 0 && size == buf.Length)
    }

    /** The bytes the view currently shows. */
    function Content(): seq<Byte>
      reads this, buf
      requires Valid()
    {
      buf[..][off..off + size]
    }

    /**
     StringView(const char*) on the C string that starts at `mem[start]`:
     borrows it, and its size is its strlen.
     */
    constructor FromCString(mem: array<Byte>, start: nat)
      requires start <= mem.Length && NUL in mem[start..] && mem.Length <= SizeMax
      ensures Valid() && buf == mem && off == start && !owned
      ensures start + size < mem.Length && mem[start + size] == NUL
      ensures Content() == mem[start..start + size] && IsCString(Content())
    {
      assert mem[..][start..] == mem[start..];
      var n := Strlen(mem[..], start);
      buf, off, size, owned := mem, start, n, false;
      ghost var w := mem[start..start + n];
      assert IsCString(w) by {
        forall j | 0 <= j < n ensures w[j] != NUL {
          assert w[j] == mem[..][start + j];
        }
      }
    }

    /** StringView(const string&): borrows all the bytes of a string. */
    constructor FromString(str: array<Byte>)
      requires str.Length <= SizeMax
      ensures Valid() && buf == str && off == 0 && !owned
      ensures Content() == str[..]
    {
      buf, off, size, owned := str, 0, str.Length, false;
    }

    /** StringView(const char*, size_t): borrows `n` bytes starting at `start`. */
    constructor Span(data: array<Byte>, start: nat, n: nat)
      requires start + n <= data.Length && n <= SizeMax
      ensures Valid() && buf == data && off == start && size == n && !owned
      ensures Content() == data[start..start + n]
    {
      buf, off, size, owned := data, start, n, false;
    }

    /**
     slice(start, end): a borrowed view of [start, end) over the same bytes.
     The parent is left as it is; the child is borrowed even when the
     parent owns its buffer.
     */
    method Slice(start: nat, end: nat) returns (v: StringView)
      requires Valid() && start <= end <= size
      ensures fresh(v) && v.Valid()
      ensures v.buf == buf && v.off == off + start && v.size == end - start && !v.owned
      ensures v.Content() == Content()[start..end]
    {
      v := new StringView.Span(buf, off + start, end - start);
    }

    /** size() */
    function Size(): (n: nat)
      reads this, buf
      requires Valid()
      ensures n == |Content()| && n <= SizeMax
    {
      size
    }

    /** operator[]: the byte at position `i` of the view. */
    function At(i: nat): (b: Byte)
      reads this, buf
      requires Valid() && i < size
      ensures b == Content()[i]
    {
      buf[off + i]
    }

    /** operator==(const StringView&): same size and the same bytes, wherever they are stored. */
    function Equals(other: StringView): (r: bool)
      reads this, buf, other, other.buf
      requires Valid() && other.Valid()
      ensures r <==> Content() == other.Content()
    {
      if size != other.size then false
      else
        MemEq(Content(), other.Content(), size)
    }

    /** operator!=(const StringView&) */
    function NotEquals(other: StringView): (r: bool)
      reads this, buf, other, other.buf
      requires Valid() && other.Valid()
      ensures r <==> Content() != other.Content()
    {
      !Equals(other)
    }

    /**
     operator==(const char*): walks the view and the C string together and
     accepts when both end at the same position. `str` holds the characters
     before the terminator, so `i == |str|` is the test `*str == '\0'`.
     */
    method EqualsCString(str: seq<Byte>) returns (r: bool)
      requires Valid() && IsCString(str)
      ensures r <==> Content() == str
    {
      var i := 0;
      while i < |str| && i < size && buf[off + i] == str[i]
        invariant i <= |str| && i <= size
        invariant Content()[..i] == str[..i]
      {
        i := i + 1;
      }
      r := i == |str| && i == size;
    }

    /** operator!=(const char*) */
    method NotEqualsCString(str: seq<Byte>) returns (r: bool)
      requires Valid() && IsCString(str)
      ensures r <==> Content() != str
    {
      var eq := EqualsCString(str);
      r := !eq;
    }

    /**
     find(c, offset): on a hit, the first position of `c` and true; on a
     miss, false and the offset left as it was.
     */
    function FindWithOffset(c: Byte, offset: nat): (r: (bool, nat))
      reads this, buf
      requires Valid()
      ensures r.0 <==> c in Content()
      ensures !r.0 ==> r.1 == offset
      ensures r.0 ==> r.1 < size && Content()[r.1] == c && c !in Content()[..r.1]
    {
      match MemChr(Content(), c)
      case None => (false, offset)
      case Some(k) => (true, k)
    }

    /** find(c): the first position of `c`, or NotFound. */
    function Find(c: Byte): (r: nat)
      reads this, buf
      requires Valid()
      ensures r == NotFound <==> c !in Content()
      ensures r != NotFound ==> r < size && Content()[r] == c
      ensures r != NotFound ==> forall j :: 0 <= j < r ==> Content()[j] != c
    {
      OffsetOf(MemChr(Content(), c))
    }

    /**
     reverseFind(c, from): scans from - 1 down to 0 and returns the first
     position holding `c`, or NotFound; `from` itself is never examined.
     Bytes are compared as unsigned values (see ReverseFindSignedChar for
     the comparison as compiled with a signed `char`).
     */
    method ReverseFind(c: Byte, from: nat) returns (r: nat)
      requires Valid() && from <= size
      ensures r == NotFound <==> c !in Content()[..from]
      ensures r != NotFound ==> r < from && Content()[r] == c && c !in Content()[r + 1..from]
    {
      ghost var s := Content();
      var i := 1;
      while i <= from
        invariant 1 <= i <= from + 1
        invariant c !in s[from - i + 1..from]
      {
        assert buf[off + from - i] == s[from - i];
        if buf[off + from - i] == c {
          return from - i;
        }
        assert s[from - i..from] == [s[from - i]] + s[from - i + 1..from];
        i := i + 1;
      }
      assert s[..from] == s[from - i + 1..from];
      return NotFound;
    }

    /**
     subStrEquals(begin, end, str): whether the bytes in [begin, end) are
     exactly the C string `str`; false whenever the lengths differ.
     */
    function SubStrEquals(begin: nat, end: nat, str: seq<Byte>): (r: bool)
      reads this, buf
      requires Valid() && begin <= end <= size && IsCString(str)
      ensures r <==> Content()[begin..end] == str
    {
      var len := end - begin;
      if len != |str| then false
      else
        assert Content()[begin..][..len] == Content()[begin..end];
        MemEq(Content()[begin..], str, len)
    }

    /**
     replace(begin, end, repl): the content becomes the bytes before
     `begin`, then `repl`, then the bytes from `end` on.

     When `repl` is exactly as long as [begin, end) it is written into the
     backing array in place (a write-through to borrowed memory too), and
     size, offset, array and mode stay as they were. Otherwise the result is
     assembled in a fresh buffer that the view then owns, and the array it
     used before is left untouched.
     */
    method Replace(begin: nat, end: nat, repl: seq<Byte>)
      requires Valid() && begin <= end <= size
      requires size - (end - begin) + |repl| <= SizeMax
      modifies this, buf
      ensures Valid()
      ensures Content() == Splice(old(Content()), begin, end, repl)
      ensures size == old(size) - (end - begin) + |repl|
      ensures old(owned) ==> owned
      ensures |repl| == end - begin ==>
        buf == old(buf) && off == old(off) && owned == old(owned) &&
        buf[..] == Splice(old(buf[..]), off + begin, off + end, repl)
      ensures |repl| != end - begin ==>
        fresh(buf) && off == 0 && owned && old(buf)[..] == old(buf[..])
    {
      var removed := end - begin;
      if |repl| == removed {
        if |repl| > 0 {
          OverwriteInPlace(begin, end, repl);
        } else {
          assert Content() == Content()[..begin] + Content()[begin..];
        }
        return;
      }
      Reassemble(begin, end, repl);
    }

    /**
     The equal-length path of replace: copies `repl` over the backing array
     at position `begin` of the view. Only the array changes, so every view
     over it sees the new bytes.
     */
    method OverwriteInPlace(begin: nat, end: nat, repl: seq<Byte>)
      requires Valid() && begin <= end <= size && |repl| == end - begin
      modifies buf
      ensures buf[..] == Splice(old(buf[..]), off + begin, off + end, repl)
      ensures Content() == Splice(old(Content()), begin, end, repl)
    {
      ghost var before := buf[..];
      MemCpy(buf, off + begin, repl);
      SpliceWithinWindow(before, off, size, begin, end, repl);
    }

    /**
     The length-changing path of replace: assembles prefix, replacement and
     suffix in a new buffer and makes the view own it. The array the view
     used before is not written.
     */
    method Reassemble(begin: nat, end: nat, repl: seq<Byte>)
      requires Valid() && begin <= end <= size
      requires size - (end - begin) + |repl| <= SizeMax
      modifies this
      ensures Valid() && fresh(buf) && off == 0 && owned
      ensures Content() == Splice(old(Content()), begin, end, repl)
      ensures old(buf)[..] == old(buf[..])
    {
      var data := Content();
      var result: seq<Byte> := [];
      if begin > 0 {
        result := result + data[..begin];
      }
      if |repl| > 0 {
        result := result + repl;
      }
      if end < size {
        result := result + data[end..];
      }
      assert result == Splice(data, begin, end, repl);
      var newBuf := new Byte[|result|](i requires 0 <= i < |result| => result[i]);
      assert newBuf[..] == result;
      buf, off, size, owned := newBuf, 0, |result|, true;
    }

    /**
     substitute(str): the view takes a private copy of `str` and owns it;
     later writes to `str` are not seen by the view.
     */
    method Substitute(str: array<Byte>)
      requires Valid() && str.Length <= SizeMax
      modifies this
      ensures Valid() && fresh(buf) && off == 0 && owned
      ensures Content() == str[..]
    {
      var copy := str[..];
      buf := new Byte[|copy|](i requires 0 <= i < |copy| => copy[i]);
      off, size, owned := 0, |copy|, true;
      assert Content() == copy;
    }

    /**
     StartsWith(str) as written: builds a string from the data pointer,
     which runs to the first NUL at or after the view's start rather than to
     the view's end. That NUL must exist inside the array for the read to
     stay in bounds.
     */
    function StartsWithAsWritten(prefix: seq<Byte>): (r: bool)
      reads this, buf
      requires Valid() && NUL in buf[off..]
      ensures r <==> HasPrefix(buf[off..off + Strlen(buf[..], off)], prefix)
      ensures r ==> off + |prefix| <= buf.Length && buf[off..off + |prefix|] == prefix
    {
      assert buf[..][off..] == buf[off..];
      HasPrefix(buf[off..off + Strlen(buf[..], off)], prefix)
    }

    /** StartsWith(str) bounded by the view: the first |str| bytes of the content are `str`. */
    function StartsWith(prefix: seq<Byte>): (r: bool)
      reads this, buf
      requires Valid()
      ensures r <==> HasPrefix(Content(), prefix)
    {
      |prefix| <= size && MemEq(Content(), prefix, |prefix|)
    }

    /** toString(): a fresh, independent copy of the visible bytes. */
    method ToString() returns (s: array<Byte>)
      requires Valid()
      ensures fresh(s) && s[..] == Content()
    {
      var content := Content();
      s := new Byte[|content|](i requires 0 <= i < |content| => content[i]);
    }
  }

  /**
   The two find overloads report the same thing: a hit at the same
   position, or a miss.
   */
  lemma FindOverloadsAgree(v: StringView, c: Byte, offset: nat)
    requires v.Valid()
    ensures v.FindWithOffset(c, offset).0 <==> v.Find(c) != NotFound
    ensures v.FindWithOffset(c, offset).0 ==> v.FindWithOffset(c, offset).1 == v.Find(c)
  {
  }

  /**
   Any result meeting ReverseFind's contract is the reference backward
   search turned into a size_t.
   */
  lemma ReverseFindIsLastIndexBefore(s: seq<Byte>, c: Byte, from: nat, r: nat)
    requires from <= |s| <= SizeMax
    requires r == NotFound <==> c !in s[..from]
    requires r != NotFound ==> r < from && s[r] == c && c !in s[r + 1..from]
    ensures r == OffsetOf(LastIndexBefore(s, c, from))
  {
    if r != NotFound {
      LastIndexBeforeUnique(s, c, from, r);
    }
  }

  /**
   On a view whose bytes hold no NUL and are followed in the array by a NUL,
   StartsWith as written and the view-bounded StartsWith agree.
   */
  lemma StartsWithAgreesOnTerminatedView(v: StringView, prefix: seq<Byte>)
    requires v.Valid() && IsCString(v.Content())
    requires v.off + v.size < v.buf.Length && v.buf[v.off + v.size] == NUL
    ensures NUL in v.buf[v.off..]
    ensures v.StartsWithAsWritten(prefix) == v.StartsWith(prefix)
  {
    forall j | v.off <= j < v.off + v.size
      ensures v.buf[..][j] != NUL
    {
      assert v.buf[..][j] == v.Content()[j - v.off];
    }
    StrlenUnique(v.buf[..], v.off, v.size);
    assert v.buf[..][v.off..] == v.buf[v.off..];
  }

  /**
   A two-byte slice of "abc" followed by NUL: StartsWith as written accepts
   "abc", reading past the end of the view.
   */
  lemma StartsWithReadsPastView(v: StringView)
    requires v.Valid() && v.buf[..] == [97, 98, 99, 0] && v.off == 0 && v.size == 2
    ensures NUL in v.buf[v.off..]
    ensures v.StartsWithAsWritten([97, 98, 99])
    ensures !v.StartsWith([97, 98, 99])
  {
    assert v.buf[..][0..] == v.buf[0..];
    StrlenUnique(v.buf[..], 0, 3);
  }
}
