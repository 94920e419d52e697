/**
 * The helpers shared by elf_helpers.h and elf_det.h (identical bodies in both):
 * CPU usage in permyriad, BSS and heap range derivation, the half-open
 * address-range test, the task-state letter table and the CPU-affinity list.
 */
module ElfHelpers {
  import opened CTypes
  import opened CStrings

  // ------------------------------------------------------------- CPU usage

  /**
   * compute_usage_permyriad: CPU time over elapsed time in hundredths of a
   * percent, rounded down; 0 when no time has elapsed. Not clamped at 10000.
   */
  function UsagePermyriad(totalNs: u64, deltaNs: u64): (r: u64)
    requires deltaNs != 0 ==> 10000 * totalNs < U64_LIMIT
    ensures deltaNs == 0 ==> r == 0
    ensures deltaNs != 0 ==> r * deltaNs <= 10000 * totalNs < (r + 1) * deltaNs
  {
    if deltaNs == 0 then 0 else (10000 * totalNs) / deltaNs
  }

  /** More CPU time over the same interval never reads as less usage. */
  lemma UsageMonotonic(t1: u64, t2: u64, deltaNs: u64)
    requires t1 <= t2
    requires deltaNs != 0 ==> 10000 * t2 < U64_LIMIT
    ensures UsagePermyriad(t1, deltaNs) <= UsagePermyriad(t2, deltaNs)
  {
    if deltaNs != 0 {
      var r1, r2 := UsagePermyriad(t1, deltaNs), UsagePermyriad(t2, deltaNs);
      MulMonotone(r2 + 1, r1, deltaNs);
    }
  }

  /** A process busy for the whole interval reads as 100.00%, and k times that as k * 100.00%. */
  lemma UsageFullScale(e: u64, k: nat)
    requires e != 0 && 10000 * k * e < U64_LIMIT
    ensures UsagePermyriad(k * e, e) == 10000 * k
  {
    var r := UsagePermyriad(k * e, e);
    MulMonotone(r + 1, 10000 * k, e);
    MulMonotone(10000 * k + 1, r, e);
  }

  /** The unit-test expectations for compute_usage_permyriad. */
  lemma UsageExamples()
    ensures UsagePermyriad(0, 1000000) == 0
    ensures UsagePermyriad(500000, 1000000) == 5000
    ensures UsagePermyriad(250000, 1000000) == 2500
    ensures UsagePermyriad(1000000, 1000000) == 10000
    ensures UsagePermyriad(0, 0) == 0
  {
  }

  // --------------------------------------------------- segment boundaries

  /**
   * compute_bss_range: the BSS lies between the end of initialised data and the
   * start of the break; an inverted pair is rejected with 0 and a zero range.
   */
  method ComputeBssRange(endData: u64, startBrk: u64) returns (ok: i32, outStart: u64, outEnd: u64)
    ensures ok == 1 <==> endData <= startBrk
    ensures ok == 0 <==> startBrk < endData
    ensures ok == 1 ==> outStart == endData && outEnd == startBrk
    ensures ok == 0 ==> outStart == 0 && outEnd == 0
    ensures outStart <= outEnd
  {
    if startBrk < endData {
      outStart := 0;
      outEnd := 0;
      return 0, outStart, outEnd;
    }
    outStart := endData;
    outEnd := startBrk;
    return 1, outStart, outEnd;
  }

  /**
   * compute_heap_range: the classic heap runs from the start of the break to the
   * current break; zero length is valid, an inverted pair is rejected.
   */
  method ComputeHeapRange(startBrk: u64, brk: u64) returns (ok: i32, outStart: u64, outEnd: u64)
    ensures ok == 1 <==> startBrk <= brk
    ensures ok == 0 <==> brk < startBrk
    ensures ok == 1 ==> outStart == startBrk && outEnd == brk
    ensures ok == 0 ==> outStart == 0 && outEnd == 0
    ensures outStart <= outEnd
  {
    if brk < startBrk {
      outStart := 0;
      outEnd := 0;
      return 0, outStart, outEnd;
    }
    outStart := startBrk;
    outEnd := brk;
    return 1, outStart, outEnd;
  }

  /** is_address_in_range (1/0 as true/false): the half-open range [rangeStart, rangeEnd). */
  function IsAddressInRange(addr: u64, rangeStart: u64, rangeEnd: u64): (r: bool)
    ensures r <==> rangeStart <= addr < rangeEnd
    ensures rangeStart > rangeEnd ==> !r
  {
    if rangeStart > rangeEnd then false
    else addr >= rangeStart && addr < rangeEnd
  }

  /** Cutting a range at any interior point splits its addresses between the two halves. */
  lemma AddressRangeSplit(addr: u64, lo: u64, mid: u64, hi: u64)
    requires lo <= mid <= hi
    ensures IsAddressInRange(addr, lo, hi) <==> IsAddressInRange(addr, lo, mid) || IsAddressInRange(addr, mid, hi)
    ensures !(IsAddressInRange(addr, lo, mid) && IsAddressInRange(addr, mid, hi))
  {
  }

  // ------------------------------------------------------- task state table

  const KnownTaskStates: set<int> := {0x0000, 0x0001, 0x0002, 0x0004, 0x0008, 0x0020, 0x0040}

  /**
   * get_thread_state_char: TASK_RUNNING 'R', TASK_INTERRUPTIBLE 'S',
   * TASK_UNINTERRUPTIBLE 'D', __TASK_STOPPED 'T', __TASK_TRACED 't',
   * EXIT_ZOMBIE 'Z', EXIT_DEAD 'X'; every other code '?'.
   */
  function ThreadStateChar(state: u64): (c: char)
    ensures c == '?' <==> state !in KnownTaskStates
  {
    match state
    case 0x0000 => 'R'
    case 0x0001 => 'S'
    case 0x0002 => 'D'
    case 0x0004 => 'T'
    case 0x0008 => 't'
    case 0x0020 => 'Z'
    case 0x0040 => 'X'
    case _ => '?'
  }

  /** The state code a letter stands for (the inverse table). */
  function ThreadStateCode(c: char): (r: Option<u64>)
    ensures r.Some? ==> r.value in KnownTaskStates
  {
    match c
    case 'R' => Some(0x0000)
    case 'S' => Some(0x0001)
    case 'D' => Some(0x0002)
    case 'T' => Some(0x0004)
    case 't' => Some(0x0008)
    case 'Z' => Some(0x0020)
    case 'X' => Some(0x0040)
    case _ => None
  }

  /** The unit-test expectations for get_thread_state_char. */
  lemma ThreadStateExamples()
    ensures ThreadStateChar(0) == 'R' && ThreadStateChar(1) == 'S' && ThreadStateChar(2) == 'D'
    ensures ThreadStateChar(4) == 'T' && ThreadStateChar(8) == 't'
    ensures ThreadStateChar(32) == 'Z' && ThreadStateChar(64) == 'X'
    ensures ThreadStateChar(0x9999) == '?' && ThreadStateChar(0xFFFF) == '?'
  {
  }

  /** The table is a bijection between the seven known codes and their letters. */
  lemma ThreadStateRoundTrip(state: u64, c: char)
    ensures state in KnownTaskStates ==> ThreadStateCode(ThreadStateChar(state)) == Some(state)
    ensures ThreadStateCode(c).Some? ==> ThreadStateChar(ThreadStateCode(c).value) == c
  {
  }

  // --------------------------------------------------------- CPU affinity

  /** The CPUs in [from, maxCpus) whose mask entry is non-zero, in increasing order. */
  function EnabledCpus(mask: seq<int>, from: nat, maxCpus: int): (r: seq<nat>)
    requires maxCpus <= |mask|
    ensures forall k :: 0 <= k < |r| ==> from <= r[k] < maxCpus && mask[r[k]] != 0
    ensures forall k, l :: 0 <= k < l < |r| ==> r[k] < r[l]
    ensures forall i :: from <= i < maxCpus && mask[i] != 0 ==> i in r
    decreases maxCpus - from
  {
    if from >= maxCpus then []
    else (if mask[from] != 0 then [from] else []) + EnabledCpus(mask, from + 1, maxCpus)
  }

  /** One "%d," the loop appends. */
  function Piece(cpu: nat): string {
    DecimalString(cpu) + ","
  }

  /** The pieces for a list of CPUs, trailing comma included. */
  function Pieces(cpus: seq<nat>): (r: string)
    ensures |r| >= 2 * |cpus|
  {
    if cpus == [] then [] else Piece(cpus[0]) + Pieces(cpus[1..])
  }

  /** The CPUs written in decimal and separated by commas. */
  function Joined(cpus: seq<nat>): string
    requires cpus != []
  {
    if |cpus| == 1 then DecimalString(cpus[0]) else DecimalString(cpus[0]) + "," + Joined(cpus[1..])
  }

  lemma {:induction false} PiecesJoined(cpus: seq<nat>)
    requires cpus != []
    ensures Pieces(cpus) == Joined(cpus) + ","
  {
    if |cpus| > 1 {
      PiecesJoined(cpus[1..]);
    }
  }

  /**
   * The text the loop of build_cpu_affinity_string formats, from CPU `i` on with
   * `w` already formatted: it stops at maxCpus or once `len < buf_size - 2`
   * fails (`len` is |w|, snprintf returning the untruncated length).
   */
  function AffinityStream(mask: seq<int>, maxCpus: int, bufSize: int, i: nat, w: string): string
    requires maxCpus <= |mask|
    decreases maxCpus - i
  {
    if i < maxCpus && |w| < bufSize - 2 then
      AffinityStream(mask, maxCpus, bufSize, i + 1, if mask[i] != 0 then w + Piece(i) else w)
    else w
  }

  function AffinityEmitted(mask: seq<int>, maxCpus: int, bufSize: int): string
    requires maxCpus <= |mask|
  {
    AffinityStream(mask, maxCpus, bufSize, 0, [])
  }

  /**
   * The string build_cpu_affinity_string leaves in a buffer of bufSize >= 5
   * characters: "none" when no CPU was formatted, otherwise what was formatted
   * without its last character (the trailing comma when nothing was cut).
   */
  function AffinityText(mask: seq<int>, maxCpus: int, bufSize: int): (r: string)
    requires maxCpus <= |mask| && bufSize >= 5
    ensures |r| < bufSize && NUL !in r
  {
    var w := AffinityEmitted(mask, maxCpus, bufSize);
    AffinityStreamNoNul(mask, maxCpus, bufSize, 0, []);
    if w == [] then "none" else w[..Min(|w|, bufSize) - 1]
  }

  lemma {:induction false} AffinityStreamNoNul(mask: seq<int>, maxCpus: int, bufSize: int, i: nat, w: string)
    requires maxCpus <= |mask| && NUL !in w
    ensures NUL !in AffinityStream(mask, maxCpus, bufSize, i, w)
    decreases maxCpus - i
  {
    if i < maxCpus && |w| < bufSize - 2 {
      var p := Piece(i);
      assert NUL !in p by {
        assert IsDigits(DecimalString(i));
      }
      AffinityStreamNoNul(mask, maxCpus, bufSize, i + 1, if mask[i] != 0 then w + p else w);
    }
  }

  /** When the whole list and its trailing comma fit before the NUL, the loop formats every enabled CPU. */
  lemma {:induction false} AffinityStreamComplete(mask: seq<int>, maxCpus: int, bufSize: int, i: nat, w: string)
    requires maxCpus <= |mask|
    requires |w| + |Pieces(EnabledCpus(mask, i, maxCpus))| < bufSize
    ensures AffinityStream(mask, maxCpus, bufSize, i, w) == w + Pieces(EnabledCpus(mask, i, maxCpus))
    decreases maxCpus - i
  {
    if i < maxCpus {
      var rest := EnabledCpus(mask, i + 1, maxCpus);
      if mask[i] != 0 {
        assert EnabledCpus(mask, i, maxCpus) == [i] + rest;
        assert Pieces([i] + rest) == Piece(i) + Pieces(rest) by {
          assert ([i] + rest)[1..] == rest;
        }
        AffinityStreamComplete(mask, maxCpus, bufSize, i + 1, w + Piece(i));
      } else {
        assert EnabledCpus(mask, i, maxCpus) == rest;
        if |w| < bufSize - 2 {
          AffinityStreamComplete(mask, maxCpus, bufSize, i + 1, w);
        } else {
          assert rest == [];
        }
      }
    }
  }

  /**
   * With room for the whole list, the buffer receives exactly the enabled CPUs
   * below maxCpus, comma-joined in increasing order, or "none" if there are none.
   */
  lemma AffinityListsEnabledCpus(mask: seq<int>, maxCpus: int, bufSize: int)
    requires maxCpus <= |mask| && bufSize >= 5
    requires EnabledCpus(mask, 0, maxCpus) != [] ==> |Joined(EnabledCpus(mask, 0, maxCpus))| + 2 <= bufSize
    ensures var cpus := EnabledCpus(mask, 0, maxCpus);
      AffinityText(mask, maxCpus, bufSize) == if cpus == [] then "none" else Joined(cpus)
    ensures var cpus := EnabledCpus(mask, 0, maxCpus);
      AffinityLenAsWritten(mask, maxCpus, bufSize) == if cpus == [] then 4 else |Joined(cpus)|
  {
    var cpus := EnabledCpus(mask, 0, maxCpus);
    if cpus != [] {
      PiecesJoined(cpus);
    }
    AffinityStreamComplete(mask, maxCpus, bufSize, 0, []);
    assert [] + Pieces(cpus) == Pieces(cpus);
  }

  /** While every index has one digit, the formatted text never runs past the last byte before the NUL. */
  lemma {:induction false} AffinityStreamSingleDigits(mask: seq<int>, maxCpus: int, bufSize: int, i: nat, w: string)
    requires maxCpus <= |mask| && maxCpus <= 10 && |w| < bufSize
    ensures |AffinityStream(mask, maxCpus, bufSize, i, w)| < bufSize
    decreases maxCpus - i
  {
    if i < maxCpus && |w| < bufSize - 2 {
      assert |Piece(i)| == 2;
      AffinityStreamSingleDigits(mask, maxCpus, bufSize, i + 1, if mask[i] != 0 then w + Piece(i) else w);
    }
  }

  lemma PieceOfDigit(d: nat)
    requires d < 10
    ensures Piece(d) == [DigitChar(d), ',']
  {
  }

  /** One iteration of the loop: CPU i is formatted when its mask entry is set. */
  lemma AffinityStep(mask: seq<int>, maxCpus: int, bufSize: int, i: nat, w: string)
    requires maxCpus <= |mask| && i < maxCpus && |w| < bufSize - 2
    ensures AffinityStream(mask, maxCpus, bufSize, i, w) ==
      AffinityStream(mask, maxCpus, bufSize, i + 1, if mask[i] != 0 then w + Piece(i) else w)
  {
  }

  /** One iteration that formats the single-digit CPU d after `w`. */
  lemma AffinityDigitStep(mask: seq<int>, maxCpus: int, bufSize: int, d: nat, w: string)
    requires maxCpus <= |mask| && d < maxCpus && d < 10 && |w| < bufSize - 2 && mask[d] != 0
    ensures AffinityStream(mask, maxCpus, bufSize, d, w) ==
      AffinityStream(mask, maxCpus, bufSize, d + 1, w + [DigitChar(d), ','])
  {
    PieceOfDigit(d);
    AffinityStep(mask, maxCpus, bufSize, d, w);
  }

  /** The loop stops at max_cpus or once the buffer guard fails. */
  lemma AffinityStop(mask: seq<int>, maxCpus: int, bufSize: int, i: nat, w: string)
    requires maxCpus <= |mask| && !(i < maxCpus && |w| < bufSize - 2)
    ensures AffinityStream(mask, maxCpus, bufSize, i, w) == w
  {
  }

  /** The text and the as-written result once the loop is known to have formatted `w`. */
  lemma AffinityOfEmitted(mask: seq<int>, maxCpus: int, bufSize: int, w: string)
    requires maxCpus <= |mask| && bufSize >= 5 && AffinityEmitted(mask, maxCpus, bufSize) == w
    requires w != [] && |w| <= bufSize
    ensures AffinityText(mask, maxCpus, bufSize) == w[..|w| - 1]
    ensures AffinityLenAsWritten(mask, maxCpus, bufSize) == |w| - 1
  {
  }

  /** The pieces for the masks of the unit tests. */
  lemma DigitRunEven()
    ensures DigitRun([1, 0, 1, 0, 1, 0, 1, 0], 0, 8) == "0,2,4,6,"
  {
  }

  lemma DigitRunAll()
    ensures DigitRun([1, 1, 1, 1, 1, 1, 1, 1], 0, 8) == "0,1,2,3,4,5,6,7,"
  {
    DigitRunAllHigh();
  }

  lemma DigitRunAllHigh()
    ensures DigitRun([1, 1, 1, 1, 1, 1, 1, 1], 4, 8) == "4,5,6,7,"
  {
  }

  lemma DigitRunNone()
    ensures DigitRun([0, 0, 0, 0, 0, 0, 0, 0], 0, 8) == []
  {
  }

  lemma DigitRunLast()
    ensures DigitRun([0, 0, 0, 0, 0, 0, 0, 1], 0, 8) == "7,"
  {
  }

  lemma DigitRunFirst()
    ensures DigitRun([1, 0, 0, 0, 0, 0, 0, 0], 0, 8) == "0,"
  {
  }

  /** The unit-test expectation for build_cpu_affinity_string on CPUs 0, 2, 4, 6 of 8. */
  lemma AffinityExampleEven(m: seq<int>)
    requires m == [1, 0, 1, 0, 1, 0, 1, 0]
    ensures AffinityText(m, 8, 64) == "0,2,4,6" && AffinityLenAsWritten(m, 8, 64) == 7
  {
    AffinityEmittedDigits(m, 8, 64);
    DigitRunEven();
    AffinityOfEmitted(m, 8, 64, "0,2,4,6,");
  }

  /** The unit-test expectation for all eight CPUs enabled. */
  lemma AffinityExampleAll(m: seq<int>)
    requires m == [1, 1, 1, 1, 1, 1, 1, 1]
    ensures AffinityText(m, 8, 64) == "0,1,2,3,4,5,6,7" && AffinityLenAsWritten(m, 8, 64) == 15
  {
    AffinityEmittedDigits(m, 8, 64);
    DigitRunAll();
    AffinityOfEmitted(m, 8, 64, "0,1,2,3,4,5,6,7,");
  }

  /** The unit-test expectation for an empty mask: the text is "none". */
  lemma AffinityExampleNone(m: seq<int>)
    requires m == [0, 0, 0, 0, 0, 0, 0, 0]
    ensures AffinityText(m, 8, 64) == "none" && AffinityLenAsWritten(m, 8, 64) == 4
  {
    AffinityEmittedDigits(m, 8, 64);
    DigitRunNone();
  }

  /** The unit-test expectations for a single CPU, last or first. */
  lemma AffinityExampleSingle(last: seq<int>, first: seq<int>)
    requires last == [0, 0, 0, 0, 0, 0, 0, 1] && first == [1, 0, 0, 0, 0, 0, 0, 0]
    ensures AffinityText(last, 8, 64) == "7" && AffinityLenAsWritten(last, 8, 64) == 1
    ensures AffinityText(first, 8, 64) == "0" && AffinityLenAsWritten(first, 8, 64) == 1
  {
    AffinityEmittedDigits(last, 8, 64);
    DigitRunLast();
    AffinityOfEmitted(last, 8, 64, "7,");
    AffinityEmittedDigits(first, 8, 64);
    DigitRunFirst();
    AffinityOfEmitted(first, 8, 64, "0,");
  }

  /**
   * Proof device, not a second model of the loop: the pieces the loop formats
   * for CPUs i .. j-1 when every index is a single digit, written with literal
   * digit characters so that the unit-test masks evaluate cheaply.
   * AffinityStreamDigitRun ties it to AffinityStream.
   */
  function DigitRun(mask: seq<int>, i: nat, j: nat): string
    requires i <= j <= |mask| && j <= 10
    decreases j - i
  {
    if i == j then []
    else if mask[i] != 0 then [DigitChar(i), ','] + DigitRun(mask, i + 1, j)
    else DigitRun(mask, i + 1, j)
  }

  /** With room for every piece, the loop over the single-digit CPUs i .. j-1 appends DigitRun. */
  lemma {:induction false} AffinityStreamDigitRun(mask: seq<int>, maxCpus: int, bufSize: int, i: nat, j: nat, w: string)
    requires maxCpus <= |mask| && i <= j <= maxCpus && j <= 10 && |w| + 2 * (j - i) < bufSize
    ensures AffinityStream(mask, maxCpus, bufSize, i, w) ==
      AffinityStream(mask, maxCpus, bufSize, j, w + DigitRun(mask, i, j))
    decreases j - i
  {
    if i < j {
      var rest := DigitRun(mask, i + 1, j);
      AffinityStep(mask, maxCpus, bufSize, i, w);
      if mask[i] != 0 {
        var p := [DigitChar(i), ','];
        PieceOfDigit(i);
        assert DigitRun(mask, i, j) == p + rest;
        AffinityStreamDigitRun(mask, maxCpus, bufSize, i + 1, j, w + p);
        AppendAssoc(w, p, rest);
      } else {
        assert DigitRun(mask, i, j) == [] + rest == rest;
        AffinityStreamDigitRun(mask, maxCpus, bufSize, i + 1, j, w);
      }
    } else {
      assert w + DigitRun(mask, i, j) == w;
    }
  }

  lemma AppendAssoc(a: string, b: string, c: string)
    ensures (a + b) + c == a + (b + c)
  {
  }

  /** The whole loop over at most ten CPUs, with room for every piece. */
  lemma AffinityEmittedDigits(mask: seq<int>, maxCpus: int, bufSize: int)
    requires maxCpus <= |mask| && 0 <= maxCpus <= 10 && 2 * maxCpus < bufSize
    ensures AffinityEmitted(mask, maxCpus, bufSize) == DigitRun(mask, 0, maxCpus)
  {
    AffinityStreamDigitRun(mask, maxCpus, bufSize, 0, maxCpus, []);
    assert [] + DigitRun(mask, 0, maxCpus) == DigitRun(mask, 0, maxCpus);
    AffinityStop(mask, maxCpus, bufSize, maxCpus, DigitRun(mask, 0, maxCpus));
  }

  /** Fewer CPUs than the mask holds, and a buffer with room for only part of the list. */
  lemma AffinityExampleTruncated()
    ensures AffinityText([1, 0, 1, 0, 1, 0, 1, 0], 4, 64) == "0,2"
    ensures AffinityLenAsWritten([1, 0, 1, 0, 1, 0, 1, 0], 4, 64) == 3
    ensures AffinityText([1, 0, 1, 0, 1, 0, 1, 0], 8, 6) == "0,2"
  {
    EvenCpusCut([1, 0, 1, 0, 1, 0, 1, 0], 4, 64);
    AffinityOfEmitted([1, 0, 1, 0, 1, 0, 1, 0], 4, 64, "0,2,");
    EvenCpusCut([1, 0, 1, 0, 1, 0, 1, 0], 8, 6);
    AffinityOfEmitted([1, 0, 1, 0, 1, 0, 1, 0], 8, 6, "0,2,");
  }

  /** CPUs 0, 2, 4, 6 set, and the loop stopped after CPU 2 by max_cpus 4 or by a 6-byte buffer. */
  lemma EvenCpusCut(m: seq<int>, maxCpus: int, bufSize: int)
    requires m == [1, 0, 1, 0, 1, 0, 1, 0]
    requires (maxCpus == 4 && bufSize == 64) || (maxCpus == 8 && bufSize == 6)
    ensures AffinityEmitted(m, maxCpus, bufSize) == "0,2,"
  {
    AffinityDigitStep(m, maxCpus, bufSize, 0, []);
    assert [] + [DigitChar(0), ','] == "0,";
    AffinityStep(m, maxCpus, bufSize, 1, "0,");
    AffinityDigitStep(m, maxCpus, bufSize, 2, "0,");
    assert "0," + [DigitChar(2), ','] == "0,2,";
    if maxCpus == 4 {
      AffinityStep(m, maxCpus, bufSize, 3, "0,2,");
      AffinityStop(m, maxCpus, bufSize, 4, "0,2,");
    } else {
      AffinityStop(m, maxCpus, bufSize, 3, "0,2,");
    }
  }

  /**
   * What the code as written returns in a buffer of bufSize >= 5. When CPUs
   * were formatted it is len - 1, and it stores the final NUL at index len - 1.
   */
  function AffinityLenAsWritten(mask: seq<int>, maxCpus: int, bufSize: int): int
    requires maxCpus <= |mask|
  {
    var w := AffinityEmitted(mask, maxCpus, bufSize);
    if w != [] then |w| - 1 else 4
  }

  /**
   * With at most ten CPUs (single-digit indices) the code as written is
   * correct: its NUL store at index len - 1 is inside the buffer and it returns
   * the length of the string left there.
   */
  lemma AffinitySingleDigitsInBounds(mask: seq<int>, maxCpus: int, bufSize: int)
    requires maxCpus <= |mask| && maxCpus <= 10 && bufSize >= 5
    ensures AffinityLenAsWritten(mask, maxCpus, bufSize) == |AffinityText(mask, maxCpus, bufSize)| < bufSize
  {
    AffinityStreamSingleDigits(mask, maxCpus, bufSize, 0, []);
  }

  /** A run of zero mask entries formats nothing and does not stop the loop early. */
  lemma {:induction false} AffinityStreamSkipsZeros(mask: seq<int>, maxCpus: int, bufSize: int, i: nat, j: nat, w: string)
    requires maxCpus <= |mask| && i <= j <= maxCpus && |w| < bufSize - 2
    requires forall k :: i <= k < j ==> mask[k] == 0
    ensures AffinityStream(mask, maxCpus, bufSize, i, w) == AffinityStream(mask, maxCpus, bufSize, j, w)
    decreases j - i
  {
    if i < j {
      AffinityStreamSkipsZeros(mask, maxCpus, bufSize, i + 1, j, w);
    }
  }

  /**
   * The code as written overruns its buffer. CPUs 0 and 100 set, max_cpus 101,
   * buf_size 5: "0," fits, then snprintf gets 3 bytes for "100," and keeps
   * "10", but len becomes 6, so the code stores NUL at out_buf[5], one byte
   * past the buffer, and returns 5 for the 4-character string "0,10".
   */
  lemma AffinityAsWrittenOverrun(mask: seq<int>)
    requires |mask| == 101 && mask[0] != 0 && mask[100] != 0
    requires forall k :: 0 < k < 100 ==> mask[k] == 0
    ensures AffinityEmitted(mask, 101, 5) == "0,100,"
    ensures AffinityLenAsWritten(mask, 101, 5) == 5
    ensures AffinityText(mask, 101, 5) == "0,10"
  {
    AffinityDigitStep(mask, 101, 5, 0, []);
    assert [] + [DigitChar(0), ','] == "0,";
    AffinityStreamSkipsZeros(mask, 101, 5, 1, 100, "0,");
    PieceOf100();
    AffinityStep(mask, 101, 5, 100, "0,");
    AffinityStop(mask, 101, 5, 101, "0,100,");
  }

  lemma PieceOf100()
    ensures "0," + Piece(100) == "0,100,"
  {
    assert DecimalString(10) == "10";
  }

  /**
   * `b` holds the C string `text` of length `r`, and every byte past index
   * r + 1 is still the byte of `orig`.
   */
  ghost predicate HoldsCString(b: seq<char>, orig: seq<char>, r: int, text: string) {
    && |b| == |orig|
    && 0 <= r == |text| < |b|
    && (forall j :: 0 <= j < r ==> b[j] == text[j])
    && b[r] == NUL
    && CStr(b) == text
    && (forall j :: r + 1 < j < |b| ==> b[j] == orig[j])
  }

  /** The buffer after the trailing character of a non-empty formatted text is replaced by NUL. */
  lemma AffinityFinish(mask: seq<int>, maxCpus: int, bufSize: nat, b: seq<char>, orig: seq<char>)
    requires maxCpus <= |mask| && 5 <= bufSize
    requires var w := AffinityEmitted(mask, maxCpus, bufSize); w != [] && StreamIn(b, orig, w, bufSize)
    ensures var w := AffinityEmitted(mask, maxCpus, bufSize);
      var p := Min(|w|, bufSize) - 1;
      && HoldsCString(b[p := NUL], orig, p, AffinityText(mask, maxCpus, bufSize))
      && (AffinityLenAsWritten(mask, maxCpus, bufSize) < bufSize ==> p == AffinityLenAsWritten(mask, maxCpus, bufSize))
  {
    var w := AffinityEmitted(mask, maxCpus, bufSize);
    AffinityStreamNoNul(mask, maxCpus, bufSize, 0, []);
    var p := Min(|w|, bufSize) - 1;
    var b' := b[p := NUL];
    var text := w[..p];
    assert text == AffinityText(mask, maxCpus, bufSize);
    assert NUL !in text by {
      forall j | 0 <= j < p ensures text[j] != NUL {
        assert text[j] == w[j];
      }
    }
    CStrOfTerminated(b', text);
  }

  /** The buffer after `snprintf(out_buf, buf_size, "none")` when no CPU was formatted. */
  lemma AffinityNone(mask: seq<int>, maxCpus: int, bufSize: nat, orig: seq<char>)
    requires maxCpus <= |mask| && 5 <= bufSize <= |orig|
    requires AffinityEmitted(mask, maxCpus, bufSize) == []
    ensures HoldsCString(Put(orig, 0, bufSize, "none"), orig, 4, AffinityText(mask, maxCpus, bufSize))
    ensures AffinityLenAsWritten(mask, maxCpus, bufSize) == 4
  {
    var b := Put(orig, 0, bufSize, "none");
    forall j | 0 <= j < |b| ensures b[j] == if j < 4 then "none"[j] else if j == 4 then NUL else orig[j] {
      PutAt(orig, 0, bufSize, "none", j);
    }
    CStrOfTerminated(b, "none");
  }

  /**
   * build_cpu_affinity_string, with the old overrun corrected: `len` is capped at
   * buf_size before the trailing character is replaced by NUL, so the NUL store
   * stays inside the buffer and the result is the length of the string there.
   * On every input where the original stays in bounds the two agree.
   */
  method BuildCpuAffinityString(cpuMask: seq<i32>, maxCpus: i32, outBuf: array?<char>, bufSize: i32)
    returns (r: i32)
    requires maxCpus <= |cpuMask|
    requires outBuf != null ==> bufSize <= outBuf.Length
    modifies outBuf
    ensures outBuf == null || bufSize < 5 ==> r == 0
    ensures outBuf != null && bufSize < 5 ==> outBuf[..] == old(outBuf[..])
    ensures outBuf != null && bufSize >= 5 ==>
      HoldsCString(outBuf[..], old(outBuf[..]), r as int, AffinityText(cpuMask, maxCpus, bufSize))
    ensures outBuf != null && bufSize >= 5 && AffinityLenAsWritten(cpuMask, maxCpus, bufSize) < bufSize as int ==>
      r as int == AffinityLenAsWritten(cpuMask, maxCpus, bufSize)
  {
    if outBuf == null || bufSize < 5 {
      return 0;
    }
    var size: int := bufSize as int;
    ghost var orig := outBuf[..];
    ghost var emitted := AffinityEmitted(cpuMask, maxCpus as int, size);
    ghost var w: string := [];
    var i: int := 0;
    var len: nat := 0;
    var hasCpu := false;
    while i < maxCpus as int && len < size - 2
      invariant 0 <= i && (i <= maxCpus as int || i == 0)
      invariant len == |w|
      invariant StreamIn(outBuf[..], orig, w, size)
      invariant AffinityStream(cpuMask, maxCpus as int, size, i, w) == emitted
      invariant hasCpu <==> w != []
    {
      AffinityStep(cpuMask, maxCpus as int, size, i, w);
      if cpuMask[i] != 0 {
        hasCpu := true;
        var piece := Piece(i);
        len := SnprintfAppend(outBuf, size, len, piece, orig, w);
        w := w + piece;
      }
      i := i + 1;
    }
    assert w == emitted;
    if hasCpu && len > 0 {
      if len > size {
        len := size;
      }
      ghost var b := outBuf[..];
      outBuf[len - 1] := NUL;
      assert outBuf[..] == b[len - 1 := NUL];
      AffinityFinish(cpuMask, maxCpus as int, size, b, orig);
      r := (len - 1) as i32;
      return;
    }
    var _ := Snprintf(outBuf, 0, size, "none");
    AffinityNone(cpuMask, maxCpus as int, size, orig);
    r := 4;
  }
}
