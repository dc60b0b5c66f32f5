/** Bytes, C strings, and the libc string routines (strlen, strchr, strrchr,
    strstr, snprintf truncation, isspace) that the server's C code relies on. */
module Bytes {

  /** An `unsigned char`. */
  type byte = x: int | 0 <= x < 256

  datatype Option<+T> = None | Some(value: T)

  const NUL: byte := 0
  const TAB: byte := 9
  const LF: byte := 10
  const CR: byte := 13
  const SP: byte := 32

  /** The largest 32-bit `unsigned int` and `int`. */
  const UINT_MAX: nat := 0xFFFF_FFFF
  const INT_MAX: nat := 0x7FFF_FFFF

  /** isspace in the C locale: space, \t, \n, \v, \f and \r. */
  predicate IsSpace(b: byte)
  {
    b == SP || TAB <= b <= CR
  }

  /** strlen: the index of the first NUL. */
  function StrLen(s: seq<byte>): (n: nat)
    requires NUL in s
    ensures n < |s| && s[n] == NUL
    ensures NUL !in s[..n]
  {
    if s[0] == NUL then 0
    else
      assert NUL in s[1..] by { var k :| 0 <= k < |s| && s[k] == NUL; assert s[1..][k - 1] == NUL; }
      var n := StrLen(s[1..]) + 1;
      assert s[..n] == [s[0]] + s[1..][..n - 1];
      n
  }

  /** The C string that a pointer to `s` denotes: the bytes before the first
      NUL, or all of `s` when it holds none. */
  function CString(s: seq<byte>): (t: seq<byte>)
    ensures t <= s
    ensures NUL !in t
    ensures |t| < |s| ==> s[|t|] == NUL
  {
    if NUL in s then s[..StrLen(s)] else s
  }

  /** strchr: the index of the first `b`. */
  function IndexOf(s: seq<byte>, b: byte): (r: Option<nat>)
    ensures r.Some? ==> r.value < |s| && s[r.value] == b && b !in s[..r.value]
    ensures r.None? ==> b !in s
  {
    if |s| == 0 then None
    else if s[0] == b then Some(0)
    else
      match IndexOf(s[1..], b)
      case None => None
      case Some(i) =>
        assert s[..i + 1] == [s[0]] + s[1..][..i];
        Some(i + 1)
  }

  /** strrchr: the index of the last `b`. */
  function LastIndexOf(s: seq<byte>, b: byte): (r: Option<nat>)
    ensures r.Some? ==> r.value < |s| && s[r.value] == b && b !in s[r.value + 1..]
    ensures r.None? ==> b !in s
  {
    if |s| == 0 then None
    else if s[|s| - 1] == b then Some(|s| - 1)
    else
      var r := LastIndexOf(s[..|s| - 1], b);
      assert r.Some? ==> s[r.value + 1..] == s[..|s| - 1][r.value + 1..] + [s[|s| - 1]];
      assert r.None? ==> s == s[..|s| - 1] + [s[|s| - 1]];
      r
  }

  /** `pat` occurs in `s` at index `i`. */
  predicate OccursAt(s: seq<byte>, pat: seq<byte>, i: nat)
  {
    i + |pat| <= |s| && s[i..i + |pat|] == pat
  }

  /** strstr from index `i` on: the first occurrence of `pat` at or after `i`. */
  function FindFrom(s: seq<byte>, pat: seq<byte>, i: nat): (r: Option<nat>)
    requires i <= |s|
    ensures r.Some? ==> i <= r.value && OccursAt(s, pat, r.value)
    ensures r.Some? ==> forall j :: i <= j < r.value ==> !OccursAt(s, pat, j)
    ensures r.None? ==> forall j :: i <= j <= |s| ==> !OccursAt(s, pat, j)
    decreases |s| - i
  {
    if i + |pat| > |s| then None
    else if s[i..i + |pat|] == pat then Some(i)
    else FindFrom(s, pat, i + 1)
  }

  /** strstr: the first occurrence of `pat` in `s`. */
  function Find(s: seq<byte>, pat: seq<byte>): (r: Option<nat>)
    ensures r.Some? ==> OccursAt(s, pat, r.value)
    ensures r.Some? ==> forall j :: 0 <= j < r.value ==> !OccursAt(s, pat, j)
    ensures r.None? ==> forall j :: 0 <= j <= |s| ==> !OccursAt(s, pat, j)
  {
    FindFrom(s, pat, 0)
  }

  /** What snprintf keeps of `s` in a buffer of `cap + 1` bytes (one is the NUL). */
  function Truncate(s: seq<byte>, cap: nat): (r: seq<byte>)
    ensures r <= s && |r| <= cap
    ensures |s| <= cap ==> r == s
  {
    if |s| <= cap then s else s[..cap]
  }

  // ---- Facts about the routines above ----

  /** isspace accepts exactly the six C-locale whitespace bytes. */
  lemma IsSpaceBytes(b: byte)
    ensures IsSpace(b) <==> b in [SP, TAB, LF, 11, 12, CR]
  {
  }

  /** snprintf keeps all of a text that fits, and exactly its first `cap`
      bytes of one that does not. */
  lemma TruncateExact(s: seq<byte>, cap: nat)
    ensures cap < |s| ==> Truncate(s, cap) == s[..cap]
    ensures |s| <= cap ==> Truncate(s, cap) == s
  {
  }

  /** A C string ends at the first NUL: a byte sequence whose first NUL is at `k`
      denotes its first `k` bytes. */
  lemma CStringTerminated(s: seq<byte>, k: nat)
    requires k < |s| && s[k] == NUL && NUL !in s[..k]
    ensures CString(s) == s[..k]
  {
  }

  /** Appending after a NUL does not change the C string; appending to a
      NUL-free sequence extends it. */
  lemma {:induction false} CStringAppend(a: seq<byte>, c: seq<byte>)
    ensures NUL in a ==> CString(a + c) == CString(a)
    ensures NUL !in a ==> CString(a + c) == a + CString(c)
  {
    var t := CString(a);
    if NUL in a {
      assert (a + c)[..|t|] == t;
      CStringTerminated(a + c, |t|);
    } else {
      var u := CString(c);
      if |u| < |c| {
        assert (a + c)[..|a| + |u|] == a + u;
        assert (a + c)[|a| + |u|] == NUL;
        assert NUL !in a + u;
        CStringTerminated(a + c, |a| + |u|);
      } else {
        assert u == c;
      }
    }
  }

  /** strchr skips a prefix that lacks the byte it looks for. */
  lemma {:induction false} IndexOfAppend(a: seq<byte>, c: seq<byte>, b: byte)
    requires b !in a
    ensures IndexOf(a + c, b) == match IndexOf(c, b) case None => None case Some(i) => Some(|a| + i)
  {
    if |a| > 0 {
      assert (a + c)[1..] == a[1..] + c;
      IndexOfAppend(a[1..], c, b);
    } else {
      assert a + c == c;
    }
  }

  /** The first occurrence of a pattern stays the first when bytes are appended. */
  lemma {:induction false} FindAppend(s: seq<byte>, t: seq<byte>, pat: seq<byte>)
    requires Find(s, pat).Some?
    ensures Find(s + t, pat) == Find(s, pat)
  {
    var i := Find(s, pat).value;
    FindFromAppend(s, t, pat, 0, i);
  }

  lemma {:induction false} FindFromAppend(s: seq<byte>, t: seq<byte>, pat: seq<byte>, j: nat, i: nat)
    requires j <= i && OccursAt(s, pat, i)
    requires forall k :: j <= k < i ==> !OccursAt(s, pat, k)
    ensures FindFrom(s + t, pat, j) == Some(i)
    decreases i - j
  {
    assert (s + t)[j..j + |pat|] == s[j..j + |pat|] by {
      assert j + |pat| <= |s|;
    }
    if j < i {
      assert !OccursAt(s, pat, j);
      FindFromAppend(s, t, pat, j + 1, i);
    }
  }

  /** strstr returns an index where the pattern occurs and occurs nowhere earlier. */
  lemma FindAt(s: seq<byte>, pat: seq<byte>, i: nat)
    requires OccursAt(s, pat, i)
    requires forall j :: 0 <= j < i ==> !OccursAt(s, pat, j)
    ensures Find(s, pat) == Some(i)
  {
  }
}
