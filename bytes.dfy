/**
 Byte sequences and the C library routines the string view is built on:
 memchr, memcmp and strlen, plus the reference definitions the view's
 operations are specified against (a splice for `replace`, a backward
 search for `reverseFind`).
 */
module Bytes {

  /** A byte as memchr and memcmp read it: an unsigned char. */
  newtype Byte = b: int | 0 <= b < 256

  /** The terminator of a C string. */
  const NUL: Byte := 0

  /** The largest size_t on a 64-bit target; `~0` converted to size_t is this value. */
  const SizeMax: nat := 0xFFFF_FFFF_FFFF_FFFF

  datatype Option<T> = None | Some(value: T)

  /** The characters of a C string, without its terminator, contain no NUL. */
  predicate IsCString(s: seq<Byte>) {
    NUL !in s
  }

  /** std::string::starts_with: `p` is a prefix of `s`. */
  predicate HasPrefix(s: seq<Byte>, p: seq<Byte>) {
    |p| <= |s| && s[..|p|] == p
  }

  /** memchr(s, c, |s|): the first position of `s` holding `c`, if any. */
  function MemChr(s: seq<Byte>, c: Byte): (r: Option<nat>)
    ensures r.Some? ==> r.value < |s| && s[r.value] == c && c !in s[..r.value]
    ensures r.None? <==> c !in s
  {
    if |s| == 0 then None
    else if s[0] == c then Some(0)
    else
      assert s == [s[0]] + s[1..];
      match MemChr(s[1..], c)
      case None => None
      case Some(k) =>
        assert s[..k + 1] == [s[0]] + s[1..][..k];
        Some(k + 1)
  }

  /** memcmp(a, b, n) == 0: the first `n` bytes of `a` and `b` agree. */
  function MemEq(a: seq<Byte>, b: seq<Byte>, n: nat): (r: bool)
    requires n <= |a| && n <= |b|
    ensures r <==> a[..n] == b[..n]
  {
    if n == 0 then true
    else
      assert a[..n] == [a[0]] + a[1..][..n - 1];
      assert b[..n] == [b[0]] + b[1..][..n - 1];
      a[0] == b[0] && MemEq(a[1..], b[1..], n - 1)
  }

  /** strlen(mem + p): the distance from `p` to the first NUL at or after it. */
  function Strlen(mem: seq<Byte>, p: nat): (n: nat)
    requires p <= |mem| && NUL in mem[p..]
    ensures p + n < |mem| && mem[p + n] == NUL
    ensures forall j :: p <= j < p + n ==> mem[j] != NUL
  {
    var n := MemChr(mem[p..], NUL).value;
    assert forall j :: p <= j < p + n ==> mem[j] == mem[p..][..n][j - p];
    n
  }

  /** The first NUL at or after `p` is the only NUL that ends a NUL-free run from `p`. */
  lemma StrlenUnique(mem: seq<Byte>, p: nat, n: nat)
    requires p + n < |mem| && mem[p + n] == NUL
    requires forall j :: p <= j < p + n ==> mem[j] != NUL
    ensures NUL in mem[p..] && Strlen(mem, p) == n
  {
    assert mem[p..][n] == NUL;
  }

  /** `s` with the bytes in [begin, end) replaced by `r`. */
  function Splice(s: seq<Byte>, begin: nat, end: nat, r: seq<Byte>): (t: seq<Byte>)
    requires begin <= end <= |s|
    ensures |t| == |s| - (end - begin) + |r|
  {
    s[..begin] + r + s[end..]
  }

  /** A splice is made of the old prefix, the replacement and the old suffix, in that order. */
  lemma SpliceParts(s: seq<Byte>, begin: nat, end: nat, r: seq<Byte>)
    requires begin <= end <= |s|
    ensures var t := Splice(s, begin, end, r);
      t[..begin] == s[..begin] && t[begin..begin + |r|] == r && t[begin + |r|..] == s[end..]
  {
  }

  /** Putting the removed bytes back undoes a splice. */
  lemma {:induction false} SpliceUndo(s: seq<Byte>, begin: nat, end: nat, r: seq<Byte>)
    requires begin <= end <= |s|
    ensures Splice(Splice(s, begin, end, r), begin, begin + |r|, s[begin..end]) == s
  {
    var t := Splice(s, begin, end, r);
    SpliceParts(s, begin, end, r);
    assert s == s[..begin] + s[begin..end] + s[end..];
    assert t[..begin] == s[..begin] && t[begin + |r|..] == s[end..];
  }

  /**
   A splice that keeps the length overwrites the window in place: every
   byte outside [begin, end) keeps its value and position.
   */
  lemma {:induction false} SpliceInPlace(s: seq<Byte>, begin: nat, end: nat, r: seq<Byte>, k: nat)
    requires begin <= end <= |s| && |r| == end - begin && k < |s|
    ensures |Splice(s, begin, end, r)| == |s|
    ensures Splice(s, begin, end, r)[k] == if begin <= k < end then r[k - begin] else s[k]
  {
    var t := Splice(s, begin, end, r);
    SpliceParts(s, begin, end, r);
    if k < begin {
      assert t[k] == t[..begin][k];
    } else if k < end {
      assert t[k] == t[begin..begin + |r|][k - begin];
    } else {
      assert t[k] == t[begin + |r|..][k - end];
    }
  }

  /**
   One step of a byte-by-byte copy of `r` to position `p`: storing r[i]
   after the first i bytes are copied leaves the first i + 1 copied.
   */
  lemma {:induction false} OverwriteStep(before: seq<Byte>, p: nat, r: seq<Byte>, i: nat)
    requires p + |r| <= |before| && i < |r|
    ensures (before[..p] + r[..i] + before[p + i..])[p + i := r[i]] == before[..p] + r[..i + 1] + before[p + i + 1..]
  {
    var s := before[..p] + r[..i] + before[p + i..];
    var t := before[..p] + r[..i + 1] + before[p + i + 1..];
    assert |s| == |t|;
    forall j | 0 <= j < |s|
      ensures s[p + i := r[i]][j] == t[j]
    {
      if j < p {
        assert s[j] == before[j] && t[j] == before[j];
      } else if j < p + i {
        assert s[j] == r[j - p] && t[j] == r[j - p];
      } else if j > p + i {
        assert s[j] == before[j] && t[j] == before[j];
      }
    }
  }

  /**
   Writing `r` over [off + begin, off + end) of a whole buffer edits the
   window [off, off + size) exactly as splicing the window's own bytes.
   */
  lemma {:induction false} SpliceWithinWindow(mem: seq<Byte>, off: nat, size: nat, begin: nat, end: nat, r: seq<Byte>)
    requires off + size <= |mem| && begin <= end <= size && |r| == end - begin
    ensures Splice(mem, off + begin, off + end, r)[off..off + size] == Splice(mem[off..off + size], begin, end, r)
  {
    var t := Splice(mem, off + begin, off + end, r);
    var w := Splice(mem[off..off + size], begin, end, r);
    forall k | 0 <= k < size
      ensures t[off..off + size][k] == w[k]
    {
      SpliceInPlace(mem, off + begin, off + end, r, off + k);
      SpliceInPlace(mem[off..off + size], begin, end, r, k);
    }
  }

  /** memcpy(dest + at, src, |src|): the bytes of `src` are stored from position `at` on. */
  method MemCpy(dest: array<Byte>, at: nat, src: seq<Byte>)
    requires at + |src| <= dest.Length
    modifies dest
    ensures dest[..] == Splice(old(dest[..]), at, at + |src|, src)
  {
    ghost var before := dest[..];
    var i := 0;
    while i < |src|
      invariant i <= |src|
      invariant dest[..] == before[..at] + src[..i] + before[at + i..]
    {
      OverwriteStep(before, at, src, i);
      dest[at + i] := src[i];
      i := i + 1;
    }
    assert src[..i] == src;
  }

  /**
   The last position below `from` holding `c`: what a backward scan over
   from - 1, from - 2, ..., 0 finds first.
   */
  function LastIndexBefore(s: seq<Byte>, c: Byte, from: nat): (r: Option<nat>)
    requires from <= |s|
    ensures r.Some? ==> r.value < from && s[r.value] == c && c !in s[r.value + 1..from]
    ensures r.None? <==> c !in s[..from]
  {
    if from == 0 then None
    else if s[from - 1] == c then Some(from - 1)
    else
      assert s[..from] == s[..from - 1] + [s[from - 1]];
      var r := LastIndexBefore(s, c, from - 1);
      assert r.Some? ==> s[r.value + 1..from] == s[r.value + 1..from - 1] + [s[from - 1]];
      r
  }

  /** A position holding `c` with no `c` between it and `from` is the one LastIndexBefore finds. */
  lemma {:induction false} LastIndexBeforeUnique(s: seq<Byte>, c: Byte, from: nat, k: nat)
    requires from <= |s| && k < from && s[k] == c && c !in s[k + 1..from]
    ensures LastIndexBefore(s, c, from) == Some(k)
  {
    if k < from - 1 {
      assert s[k + 1..from] == s[k + 1..from - 1] + [s[from - 1]];
      LastIndexBeforeUnique(s, c, from - 1, k);
    }
  }
}
