/**
 * The procfs glue helpers of elf_det.h: the bounded copy of a PID written to
 * /proc/elf_det/pid, the read/EOF toggle behind each procfile read, and the
 * formatting of the procfile's one line of output.
 */
module ProcfsIo {
  import opened CTypes
  import opened CStrings

  // ------------------------------------------------ update_pid_write_buffer

  /**
   * The destination after `update_pid_write_buffer` copied `copied` into the
   * first `dstSize` characters of `b`: the copied text, then NULs up to
   * `dstSize`, and `b` beyond that.
   */
  function PidBuffer(b: seq<char>, dstSize: nat, copied: string): (r: seq<char>)
    requires |copied| < dstSize <= |b|
    ensures |r| == |b|
  {
    copied + Repeat(NUL, dstSize - |copied|) + b[dstSize..]
  }

  /**
   * The state the copy leaves: the copied text at the front, a NUL at index
   * `|copied|` and at every later index below `dstSize`, the rest of `b` untouched.
   */
  lemma PidBufferLayout(b: seq<char>, dstSize: nat, copied: string)
    requires |copied| < dstSize <= |b|
    ensures PidBuffer(b, dstSize, copied)[..|copied|] == copied
    ensures forall j :: |copied| <= j < dstSize ==> PidBuffer(b, dstSize, copied)[j] == NUL
    ensures PidBuffer(b, dstSize, copied)[dstSize..] == b[dstSize..]
  {
    var r := PidBuffer(b, dstSize, copied);
    var z := Repeat(NUL, dstSize - |copied|);
    assert r == copied + z + b[dstSize..];
    forall j | |copied| <= j < dstSize ensures r[j] == NUL {
      assert r[j] == z[j - |copied|];
    }
    assert r[dstSize..] == b[dstSize..];
  }

  /**
   * No stale bytes: the first `dstSize` characters after the copy do not depend
   * on what the buffer held before.
   */
  lemma PidBufferForgetsOld(b1: seq<char>, b2: seq<char>, dstSize: nat, copied: string)
    requires |copied| < dstSize <= |b1| && dstSize <= |b2|
    ensures PidBuffer(b1, dstSize, copied)[..dstSize] == PidBuffer(b2, dstSize, copied)[..dstSize]
  {
    var z := Repeat(NUL, dstSize - |copied|);
    assert PidBuffer(b1, dstSize, copied)[..dstSize] == copied + z;
    assert PidBuffer(b2, dstSize, copied)[..dstSize] == copied + z;
  }

  /** A C string read back from the buffer is the copied text when it has no NUL in it. */
  lemma PidBufferCString(b: seq<char>, dstSize: nat, copied: string)
    requires |copied| < dstSize <= |b| && NUL !in copied
    ensures CStr(PidBuffer(b, dstSize, copied)) == copied
  {
    var r := PidBuffer(b, dstSize, copied);
    PidBufferLayout(b, dstSize, copied);
    forall j | 0 <= j < |copied| ensures r[j] == copied[j] {
      assert r[j] == r[..|copied|][j];
    }
    CStrOfTerminated(r, copied);
  }

  /** Writing the same input twice leaves the buffer as writing it once. */
  lemma PidBufferIdempotent(b: seq<char>, dstSize: nat, copied: string)
    requires |copied| < dstSize <= |b|
    ensures PidBuffer(PidBuffer(b, dstSize, copied), dstSize, copied) == PidBuffer(b, dstSize, copied)
  {
    var once := PidBuffer(b, dstSize, copied);
    PidBufferLayout(b, dstSize, copied);
    assert once[dstSize..] == b[dstSize..];
  }

  /**
   * `update_pid_write_buffer(dst, dst_size, src, src_len)`: returns 0 and leaves
   * `dst` alone when either pointer is NULL or `dst_size` is 0; otherwise clears
   * the first `dst_size` bytes of `dst`, copies `min(src_len, dst_size - 1)`
   * bytes of `src` to its front and returns that count.
   */
  method UpdatePidWriteBuffer(dst: array?<char>, dstSize: nat, src: array?<char>, srcLen: nat)
    returns (r: nat)
    requires dst != null ==> dstSize <= dst.Length
    requires dst != null && src != null && dstSize > 0 ==>
      src != dst && Min(srcLen, dstSize - 1) <= src.Length
    modifies dst
    ensures dst == null || src == null || dstSize == 0 ==>
      r == 0 && (dst != null ==> dst[..] == old(dst[..]))
    ensures dst != null && src != null && dstSize > 0 ==>
      r == Min(srcLen, dstSize - 1) && r < dstSize &&
      dst[..] == PidBuffer(old(dst[..]), dstSize, src[..r])
  {
    if dst == null || src == null || dstSize == 0 {
      return 0;
    }
    var copyLen := if srcLen < dstSize - 1 then srcLen else dstSize - 1;
    // memset(dst, 0, dst_size)
    var i := 0;
    while i < dstSize
      invariant 0 <= i <= dstSize
      invariant forall j :: 0 <= j < dst.Length ==> dst[j] == if j < i then NUL else old(dst[j])
    {
      dst[i] := NUL;
      i := i + 1;
    }
    // memcpy(dst, src, copy_len)
    i := 0;
    while i < copyLen
      invariant 0 <= i <= copyLen
      invariant forall j :: 0 <= j < dst.Length ==>
        dst[j] == if j < i then src[j] else if j < dstSize then NUL else old(dst[j])
    {
      dst[i] := src[i];
      i := i + 1;
    }
    dst[copyLen] := NUL;
    r := copyLen;
    ghost var want := PidBuffer(old(dst[..]), dstSize, src[..r]);
    forall j | 0 <= j < dst.Length ensures dst[j] == want[j] {
      PidBufferLayout(old(dst[..]), dstSize, src[..r]);
      if j < r {
        assert want[j] == want[..r][j];
      } else if j >= dstSize {
        assert want[j] == want[dstSize..][j - dstSize];
      }
    }
    assert dst[..] == want;
  }

  // ------------------------------------------------ procfile_read_should_finish

  /** An `int` that the caller owns and passes by pointer. */
  class IntCell {
    var value: i32

    constructor (v: i32)
      ensures value == v
    {
      value := v;
    }
  }

  /**
   * One call of `procfile_read_should_finish` on a flag: the pair of what it
   * returns (1 = report EOF, 0 = emit data) and the flag it leaves.
   */
  function ReadStep(finished: int): (r: (int, int))
    ensures finished != 0 ==> r == (1, 0)
    ensures finished == 0 ==> r == (0, 1)
  {
    if finished != 0 then (1, 0) else (0, 1)
  }

  /** Two calls in a row restore any flag to 0 or 1: a set flag comes back set, a clear one clear. */
  lemma ReadStepTwice(finished: int)
    ensures ReadStep(ReadStep(finished).1).1 == if finished != 0 then 1 else 0
    ensures ReadStep(finished).0 + ReadStep(ReadStep(finished).1).0 == 1
  {
  }

  /** The results of `k` successive reads starting from the flag `finished`. */
  function ReadResults(finished: int, k: nat): (r: seq<int>)
    ensures |r| == k
    decreases k
  {
    if k == 0 then [] else [ReadStep(finished).0] + ReadResults(ReadStep(finished).1, k - 1)
  }

  /**
   * Starting from a cleared flag the reads alternate data, EOF, data, EOF, ...:
   * the j-th read (from 0) returns j % 2.
   */
  lemma {:induction false} ReadsAlternate(finished: int, k: nat)
    ensures forall j :: 0 <= j < k ==>
      ReadResults(finished, k)[j] == if finished == 0 then j % 2 else 1 - j % 2
    decreases k
  {
    if k > 0 {
      var rest := ReadResults(ReadStep(finished).1, k - 1);
      ReadsAlternate(ReadStep(finished).1, k - 1);
      forall j | 0 <= j < k
        ensures ReadResults(finished, k)[j] == if finished == 0 then j % 2 else 1 - j % 2
      {
        if j > 0 {
          assert ReadResults(finished, k)[j] == rest[j - 1];
        }
      }
    }
  }

  /**
   * `procfile_read_should_finish(finished)`: a NULL flag means EOF; a set flag
   * is cleared and means EOF; a clear flag is set and means "emit the data".
   */
  method ProcfileReadShouldFinish(finished: IntCell?) returns (r: i32)
    modifies finished
    ensures finished == null ==> r == 1
    ensures finished != null ==>
      (r as int, finished.value as int) == ReadStep(old(finished.value))
  {
    if finished == null {
      return 1;
    }
    if finished.value != 0 {
      finished.value := 0;
      return 1;
    }
    finished.value := 1;
    return 0;
  }

  // ------------------------------------------------ format_procfile_output

  /** The line a procfile read emits for the stored text `src`. */
  function ProcfileText(src: string): (r: string)
    ensures |r| == |src| + 17
    ensures r[..16] == "buff variable : " && r[16..|r| - 1] == src && r[|r| - 1] == '\n'
  {
    "buff variable : " + src + "\n"
  }

  /** The stored text can be read back from the line, so distinct texts give distinct lines. */
  lemma ProcfileTextInjective(a: string, b: string)
    ensures ProcfileText(a) == ProcfileText(b) ==> a == b
  {
    if ProcfileText(a) == ProcfileText(b) {
      assert a == ProcfileText(a)[16..|a| + 16];
    }
  }

  /**
   * `format_procfile_output(src, out, out_size)`: 0 with nothing written when
   * `src` or `out` is NULL or `out_size <= 0`; otherwise snprintf of the line
   * into `out`, returning the line's full length.
   */
  method FormatProcfileOutput(src: Option<string>, out: array?<char>, outSize: i32) returns (r: int)
    requires out != null && outSize > 0 ==> outSize as int <= out.Length
    requires src.Some? ==> NUL !in src.value
    modifies out
    ensures src.None? || out == null || outSize <= 0 ==>
      r == 0 && (out != null ==> out[..] == old(out[..]))
    ensures src.Some? && out != null && outSize > 0 ==>
      r == |ProcfileText(src.value)| && out[..] == Put(old(out[..]), 0, outSize as nat, ProcfileText(src.value))
  {
    if src.None? || out == null || outSize <= 0 {
      return 0;
    }
    var k := Snprintf(out, 0, outSize as nat, ProcfileText(src.value));
    r := k;
  }

  /** What a reader of the buffer sees: the line, cut to `out_size - 1` characters. */
  lemma ProcfileOutputReadBack(b: seq<char>, outSize: nat, src: string)
    requires 0 < outSize <= |b| && NUL !in src
    ensures CStr(Put(b, 0, outSize, ProcfileText(src))) == Fit(ProcfileText(src), outSize)
    ensures outSize > |src| + 17 ==> CStr(Put(b, 0, outSize, ProcfileText(src))) == ProcfileText(src)
  {
    var t := ProcfileText(src);
    assert NUL !in t by {
      forall j | 0 <= j < |t| ensures t[j] != NUL {
        if 16 <= j < |t| - 1 {
          assert t[j] == t[16..|t| - 1][j - 16];
        } else if j < 16 {
          assert t[j] == t[..16][j];
        }
      }
    }
    CStrOfPut(b, outSize, t);
  }
}
