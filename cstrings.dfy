/**
 * C string conventions the helpers rely on: decimal rendering ("%d", "%lu"),
 * field padding ("%-5s"), and the way `snprintf` stores text into a sized buffer.
 */
module CStrings {
  import opened CTypes

  const NUL: char := '\0'

  // ---------------------------------------------------------------- decimal

  function DigitChar(d: nat): (c: char)
    requires d < 10
    ensures '0' <= c <= '9'
  {
    (d + '0' as int) as char
  }

  function DigitValue(c: char): (d: nat)
    requires '0' <= c <= '9'
    ensures d < 10
  {
    c as int - '0' as int
  }

  ghost predicate IsDigits(s: string) {
    forall i :: 0 <= i < |s| ==> '0' <= s[i] <= '9'
  }

  /** The text printf's "%d"/"%lu" give for a non-negative value: no sign, no leading zeros. */
  function DecimalString(n: nat): (r: string)
    ensures 1 <= |r| && IsDigits(r)
    ensures |r| == 1 <==> n < 10
    ensures r[0] == '0' ==> n == 0
    decreases n
  {
    if n < 10 then [DigitChar(n)] else DecimalString(n / 10) + [DigitChar(n % 10)]
  }

  /** The value a string of decimal digits denotes (the inverse of DecimalString). */
  function DecimalValue(s: string): nat
    requires IsDigits(s)
    decreases |s|
  {
    if s == [] then 0 else DecimalValue(s[..|s| - 1]) * 10 + DigitValue(s[|s| - 1])
  }

  lemma {:induction false} DecimalRoundTrip(n: nat)
    ensures DecimalValue(DecimalString(n)) == n
    decreases n
  {
    if n >= 10 {
      var s := DecimalString(n / 10);
      var t := DecimalString(n);
      assert t == s + [DigitChar(n % 10)];
      assert t[..|t| - 1] == s;
      DecimalRoundTrip(n / 10);
    }
  }

  function Pow10(k: nat): (p: nat)
    ensures p >= 1
  {
    if k == 0 then 1 else 10 * Pow10(k - 1)
  }

  /** A value below 10^k prints with at most k digits. */
  lemma {:induction false} DecimalLengthBound(n: nat, k: nat)
    requires 1 <= k && n < Pow10(k)
    ensures |DecimalString(n)| <= k
    decreases k
  {
    if n >= 10 {
      assert k >= 2;
      DecimalLengthBound(n / 10, k - 1);
    }
  }

  // ------------------------------------------------------- padding, repeats

  /** `k` copies of `c`; a non-positive `k` gives the empty string. */
  function Repeat(c: char, k: int): (r: string)
    ensures |r| == Max(k, 0)
    ensures forall i :: 0 <= i < |r| ==> r[i] == c
    decreases Max(k, 0)
  {
    if k <= 0 then [] else [c] + Repeat(c, k - 1)
  }

  lemma RepeatSnoc(c: char, k: nat)
    ensures Repeat(c, k) + [c] == Repeat(c, k + 1)
  {
    var a, b := Repeat(c, k) + [c], Repeat(c, k + 1);
    assert |a| == |b|;
    forall j | 0 <= j < |a| ensures a[j] == b[j] {
    }
  }

  /** "%-<w>s": left-justified in a field of `w` columns, never cut. */
  function PadRight(s: string, w: nat): (r: string)
    ensures |r| == Max(|s|, w)
    ensures r[..|s|] == s
    ensures forall i :: |s| <= i < |r| ==> r[i] == ' '
  {
    if |s| >= w then s else s + Repeat(' ', w - |s|)
  }

  // --------------------------------------------------------------- snprintf

  /** What `snprintf(p, n, ...)` keeps of the formatted text `s` (the NUL not counted). */
  function Fit(s: string, n: nat): (r: string)
    ensures n == 0 ==> r == []
    ensures n > 0 ==> |r| == Min(|s|, n - 1) && r == s[..|r|]
  {
    if n == 0 then [] else s[..Min(|s|, n - 1)]
  }

  /** The buffer `b` after `snprintf(b + off, n, ...)` formats `s`. */
  function Put(b: seq<char>, off: nat, n: nat, s: string): (r: seq<char>)
    requires off + n <= |b|
    ensures |r| == |b|
  {
    if n == 0 then b else b[..off] + Fit(s, n) + [NUL] + b[off + |Fit(s, n)| + 1..]
  }

  lemma PutAt(b: seq<char>, off: nat, n: nat, s: string, j: nat)
    requires off + n <= |b| && j < |b|
    ensures Put(b, off, n, s)[j] ==
      if n > 0 && off <= j < off + |Fit(s, n)| then s[j - off]
      else if n > 0 && j == off + |Fit(s, n)| then NUL
      else b[j]
  {
    if n > 0 {
      var f := Fit(s, n);
      var r := Put(b, off, n, s);
      assert r == b[..off] + f + [NUL] + b[off + |f| + 1..];
      if j < off {
        assert r[j] == b[..off][j];
      } else if j < off + |f| {
        assert r[j] == f[j - off];
      } else if j == off + |f| {
        assert r[j] == [NUL][0];
      } else {
        assert r[j] == b[off + |f| + 1..][j - off - |f| - 1];
      }
    }
  }

  /**
   * `snprintf(buf + off, n, "%s", s)`: stores at most n-1 characters of `s` and a
   * terminating NUL (nothing when n == 0), and returns the length `s` would have
   * had with no limit.
   */
  method Snprintf(buf: array<char>, off: nat, n: nat, s: string) returns (k: nat)
    requires off + n <= buf.Length
    modifies buf
    ensures buf[..] == Put(old(buf[..]), off, n, s)
    ensures k == |s|
  {
    k := |s|;
    if n == 0 {
      return;
    }
    var m := Min(|s|, n - 1);
    var i := 0;
    while i < m
      invariant 0 <= i <= m
      invariant forall j :: 0 <= j < buf.Length ==>
        buf[j] == if off <= j < off + i then s[j - off] else old(buf[j])
    {
      buf[off + i] := s[i];
      i := i + 1;
    }
    buf[off + m] := NUL;
    forall j | 0 <= j < buf.Length
      ensures buf[..][j] == Put(old(buf[..]), off, n, s)[j]
    {
      PutAt(old(buf[..]), off, n, s, j);
    }
  }

  // ------------------------------------------------ appending to a C buffer

  /**
   * `b` is the buffer `orig` after a run of snprintf calls, each at offset
   * `len == |v|` with size `size - len`, whose texts concatenate to `v`: the
   * buffer holds the longest prefix of `v` that fits, then a NUL, and is
   * otherwise untouched. Before the first call (`v == []`) the buffer is `orig`.
   */
  ghost predicate StreamIn(b: seq<char>, orig: seq<char>, v: string, size: nat) {
    |b| == |orig| && 0 < size <= |b| &&
    if v == [] then b == orig
    else
      var m := Min(|v|, size - 1);
      (forall j :: 0 <= j < m ==> b[j] == v[j]) && b[m] == NUL &&
      (forall j :: m < j < |b| ==> b[j] == orig[j])
  }

  /** One more `len += snprintf(buf + len, size - len, ...)` keeps StreamIn. */
  lemma StreamAppend(b: seq<char>, orig: seq<char>, v: string, size: nat, s: string)
    requires StreamIn(b, orig, v, size) && |v| <= size && s != []
    ensures StreamIn(Put(b, |v|, size - |v|, s), orig, v + s, size)
  {
    if |v| == size {
      StreamAppendFull(b, orig, v, size, s);
    } else {
      StreamAppendRoom(b, orig, v, size, s);
    }
  }

  /** With the buffer already full, snprintf gets size 0 and stores nothing. */
  lemma StreamAppendFull(b: seq<char>, orig: seq<char>, v: string, size: nat, s: string)
    requires StreamIn(b, orig, v, size) && |v| == size && s != []
    ensures StreamIn(Put(b, |v|, 0, s), orig, v + s, size)
  {
    var w := v + s;
    var m' := Min(|w|, size - 1);
    assert v != [] && Min(|v|, size - 1) == m';
    forall j | 0 <= j < m' ensures b[j] == w[j] {
      assert w[j] == v[j];
    }
  }

  /** With room left, snprintf stores what fits of the new text and a NUL after it. */
  lemma StreamAppendRoom(b: seq<char>, orig: seq<char>, v: string, size: nat, s: string)
    requires StreamIn(b, orig, v, size) && |v| < size && s != []
    ensures StreamIn(Put(b, |v|, size - |v|, s), orig, v + s, size)
  {
    var n := size - |v|;
    var r := Put(b, |v|, n, s);
    var w := v + s;
    var m' := Min(|w|, size - 1);
    var f := Fit(s, n);
    assert m' == |v| + |f|;
    forall j | 0 <= j < |b| ensures r[j] ==
      if |v| <= j < |v| + |f| then s[j - |v|] else if j == |v| + |f| then NUL else b[j]
    {
      PutAt(b, |v|, n, s, j);
    }
    forall j | 0 <= j < m' ensures r[j] == w[j] {
      if j < |v| {
        assert v != [] && j < Min(|v|, size - 1);
      }
    }
    forall j | m' < j < |b| ensures r[j] == orig[j] {
      if v != [] {
        assert Min(|v|, size - 1) == |v| < j;
      }
    }
  }

  /**
   * `len += snprintf(buf + len, size - len, "%s", s)` on a buffer that holds the
   * run of texts `v` formatted so far (`len == |v|`, at most `size`).
   */
  method SnprintfAppend(buf: array<char>, size: nat, len: nat, s: string, ghost orig: seq<char>, ghost v: string)
    returns (len': nat)
    requires size <= buf.Length && len == |v| <= size && s != []
    requires StreamIn(buf[..], orig, v, size)
    modifies buf
    ensures len' == len + |s|
    ensures StreamIn(buf[..], orig, v + s, size)
  {
    StreamAppend(buf[..], orig, v, size, s);
    var k := Snprintf(buf, len, size - len, s);
    len' := len + k;
  }

  /** The C string a buffer holds: everything before its first NUL. */
  function CStr(b: seq<char>): (r: string)
    ensures NUL !in r
  {
    if b == [] || b[0] == NUL then [] else [b[0]] + CStr(b[1..])
  }

  /** A buffer whose first |t| characters are `t` (with no NUL in it) followed by a NUL holds the C string `t`. */
  lemma {:induction false} CStrOfTerminated(b: seq<char>, t: string)
    requires |t| < |b| && b[|t|] == NUL && NUL !in t
    requires forall j :: 0 <= j < |t| ==> b[j] == t[j]
    ensures CStr(b) == t
    decreases |t|
  {
    if t != [] {
      assert b[0] == t[0] != NUL;
      CStrOfTerminated(b[1..], t[1..]);
      assert [t[0]] + t[1..] == t;
    }
  }

  /**
   * After `snprintf(b, n, "%s", s)` with n > 0 and a text with no NUL in it, the
   * buffer holds the C string `s` cut to n - 1 characters.
   */
  lemma CStrOfPut(b: seq<char>, n: nat, s: string)
    requires 0 < n <= |b| && NUL !in s
    ensures CStr(Put(b, 0, n, s)) == Fit(s, n)
  {
    var r := Put(b, 0, n, s);
    var f := Fit(s, n);
    forall j | 0 <= j < |f| ensures r[j] == f[j] {
      PutAt(b, 0, n, s, j);
    }
    PutAt(b, 0, n, s, |f|);
    assert NUL !in f by {
      forall j | 0 <= j < |f| ensures f[j] != NUL {
        assert f[j] == s[j];
      }
    }
    CStrOfTerminated(r, f);
  }

  /**
   * What a reader sees in a buffer that holds a run of formatted texts `v`:
   * the longest prefix of `v` that fits before the last byte of `size`.
   */
  lemma StreamCStr(b: seq<char>, orig: seq<char>, v: string, size: nat)
    requires StreamIn(b, orig, v, size) && v != [] && NUL !in v
    ensures CStr(b) == v[..Min(|v|, size - 1)]
  {
    var t := v[..Min(|v|, size - 1)];
    assert NUL !in t by {
      forall j | 0 <= j < |t| ensures t[j] != NUL {
        assert t[j] == v[j];
      }
    }
    CStrOfTerminated(b, t);
  }
}
