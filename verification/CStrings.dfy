/** NUL-terminated strings in byte buffers, and the hand-written string loops of the kernel. */
module CStrings {
  import opened Words

  /** A string without its terminator. */
  type Name = s: seq<byte> | 0 !in s witness []

  function StrLen(s: seq<byte>): (n: nat)
    requires 0 in s
    ensures n < |s| && s[n] == 0
    ensures forall i :: 0 <= i < n ==> s[i] != 0
  {
    Terminator(s, 0)
  }

  /** The first NUL of s at or behind position i. */
  function Terminator(s: seq<byte>, i: nat): (n: nat)
    requires 0 in s && i <= |s| && forall j :: 0 <= j < i ==> s[j] != 0
    ensures n < |s| && s[n] == 0
    ensures forall j :: 0 <= j < n ==> s[j] != 0
    decreases |s| - i
  {
    if s[i] == 0 then i else Terminator(s, i + 1)
  }

  /** The string that buffer s holds. */
  function Str(s: seq<byte>): (r: Name)
    requires 0 in s
    ensures |r| < |s| && s[|r|] == 0 && s[..|r|] == r
  {
    s[..StrLen(s)]
  }

  /** A buffer holds exactly one string. */
  lemma StrUnique(s: seq<byte>, n: Name)
    requires |n| < |s| && s[|n|] == 0 && s[..|n|] == n
    ensures 0 in s && Str(s) == n
  {
    assert forall i :: 0 <= i < |n| ==> s[i] == n[i] && n[i] in n;
  }

  /** strcmp of the RAM file system and of kernel MCSFS1: zero exactly on equal strings. */
  method StrCmp(a: seq<byte>, b: seq<byte>) returns (r: int)
    requires 0 in a && 0 in b
    ensures r == 0 <==> Str(a) == Str(b)
  {
    var i := 0;
    while a[i] != 0 && b[i] != 0
      invariant i <= StrLen(a) && i <= StrLen(b)
      invariant a[..i] == b[..i]
      decreases |a| - i
    {
      if a[i] != b[i] {
        assert Str(a)[i] == a[i] && Str(b)[i] == b[i];
        return a[i] as int - b[i] as int;
      }
      assert a[..i+1] == a[..i] + [a[i]] && b[..i+1] == b[..i] + [b[i]];
      i := i + 1;
    }
    if a[i] != b[i] { assert StrLen(a) != StrLen(b); }
    return a[i] as int - b[i] as int;
  }

  /** strcpy: unbounded in the kernel, so the caller owes a destination that is long enough. */
  method StrCpy(dst: seq<byte>, src: seq<byte>) returns (r: seq<byte>)
    requires 0 in src && StrLen(src) < |dst|
    ensures |r| == |dst| && 0 in r && Str(r) == Str(src)
    ensures r[|Str(src)| + 1..] == dst[|Str(src)| + 1..]
  {
    r := dst;
    var i := 0;
    while src[i] != 0
      invariant i <= StrLen(src) && |r| == |dst|
      invariant r[..i] == src[..i] && r[i..] == dst[i..]
      decreases |src| - i
    {
      r := r[i := src[i]];
      i := i + 1;
    }
    r := r[i := 0];
    assert r[..i] == src[..i];
    StrUnique(r, Str(src));
  }

  /** strlen. */
  method Length(s: seq<byte>) returns (n: nat)
    requires 0 in s
    ensures n == |Str(s)|
  {
    n := 0;
    while s[n] != 0
      invariant n <= StrLen(s)
      decreases |s| - n
    {
      n := n + 1;
    }
  }

  /** m15_streq: the loop stops at the first NUL or difference. */
  method StrEq(a: seq<byte>, b: seq<byte>) returns (r: bool)
    requires 0 in a && 0 in b
    ensures r <==> Str(a) == Str(b)
  {
    var i := 0;
    while a[i] != 0 && b[i] != 0
      invariant i <= StrLen(a) && i <= StrLen(b)
      invariant a[..i] == b[..i]
      decreases |a| - i
    {
      if a[i] != b[i] {
        assert Str(a)[i] == a[i] && Str(b)[i] == b[i];
        return false;
      }
      assert a[..i + 1] == a[..i] + [a[i]] && b[..i + 1] == b[..i] + [b[i]];
      i := i + 1;
    }
    if a[i] != b[i] { assert StrLen(a) != StrLen(b); }
    return a[i] == b[i];
  }

  /** The bounded name copy of per-inode MCSFS1: stops behind the NUL. */
  method CopyName(dst: seq<byte>, src: seq<byte>) returns (r: seq<byte>)
    requires 0 in src && StrLen(src) < |dst|
    ensures |r| == |dst| && 0 in r && Str(r) == Str(src)
  {
    r := dst;
    var j := 0;
    while j < |dst|
      invariant j <= StrLen(src) && |r| == |dst|
      invariant r[..j] == src[..j]
    {
      r := r[j := src[j]];
      assert r[..j + 1] == src[..j + 1];
      if src[j] == 0 { break; }
      j := j + 1;
    }
    StrUnique(r, Str(src));
  }
}
