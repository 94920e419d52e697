/**
 * The memory-pressure helpers of elf_det.h: RSS, page and fault sums, the OOM
 * score adjustment range, the usage percentage, the swap-pressure rule and the
 * page-fault summary line.
 */
module MemoryStats {
  import opened CTypes
  import opened CStrings

  // ------------------------------------------------------------- sums

  /** calculate_rss_pages: resident pages are anonymous + file-backed + shared-memory pages. */
  function RssPages(anonPages: u64, filePages: u64, shmemPages: u64): (r: u64)
    requires anonPages + filePages + shmemPages < U64_LIMIT
    ensures r == anonPages + filePages + shmemPages
    ensures anonPages <= r && filePages <= r && shmemPages <= r
  {
    anonPages + filePages + shmemPages
  }

  /** Growing any component never shrinks the RSS. */
  lemma RssMonotonic(a1: u64, f1: u64, s1: u64, a2: u64, f2: u64, s2: u64)
    requires a1 <= a2 && f1 <= f2 && s1 <= s2 && a2 + f2 + s2 < U64_LIMIT
    ensures RssPages(a1, f1, s1) <= RssPages(a2, f2, s2)
  {
  }

  /** The size of a page in bytes in the user-space build. */
  const PAGE_SIZE: nat := 4096

  /** pages_to_kb, user-space branch: four kilobytes per page. */
  function PagesToKb(pages: u64): (r: u64)
    requires pages * 4 < U64_LIMIT
    ensures r * 1024 == pages * PAGE_SIZE
  {
    pages * 4
  }

  function Pow2(k: nat): (p: nat)
    ensures p >= 1
  {
    if k == 0 then 1 else 2 * Pow2(k - 1)
  }

  /**
   * pages_to_kb, kernel branch: `pages << (PAGE_SHIFT - 10)`, with the page
   * shift a parameter because it is fixed by the platform.
   */
  function PagesToKbShifted(pages: u64, pageShift: nat): (r: u64)
    requires 10 <= pageShift && pages * Pow2(pageShift - 10) < U64_LIMIT
    ensures r * 1024 == pages * Pow2(pageShift)
  {
    PowSplit(pageShift);
    pages * Pow2(pageShift - 10)
  }

  lemma {:induction false} PowSplit(k: nat)
    requires 10 <= k
    ensures Pow2(k) == 1024 * Pow2(k - 10)
  {
    if k > 10 {
      PowSplit(k - 1);
    }
  }

  /** With 4 KiB pages (PAGE_SHIFT 12) the two branches agree. */
  lemma PagesToKbBranchesAgree(pages: u64)
    requires pages * 4 < U64_LIMIT
    ensures PagesToKbShifted(pages, 12) == PagesToKb(pages)
  {
    assert Pow2(2) == 4;
  }

  /** calculate_total_faults: major plus minor faults. */
  function TotalFaults(majorFaults: u64, minorFaults: u64): (r: u64)
    requires majorFaults + minorFaults < U64_LIMIT
    ensures r == majorFaults + minorFaults
    ensures majorFaults <= r && minorFaults <= r
    ensures r == majorFaults <==> minorFaults == 0
  {
    majorFaults + minorFaults
  }

  /** More faults of either kind never lower the total. */
  lemma TotalFaultsMonotonic(maj1: u64, min1: u64, maj2: u64, min2: u64)
    requires maj1 <= maj2 && min1 <= min2 && maj2 + min2 < U64_LIMIT
    ensures TotalFaults(maj1, min1) <= TotalFaults(maj2, min2)
  {
  }

  // ------------------------------------------------------------- OOM score

  const OOM_SCORE_ADJ_MIN: int := -1000
  const OOM_SCORE_ADJ_MAX: int := 1000

  /** is_valid_oom_score_adj: accepts exactly the kernel's range [-1000, 1000]. */
  function IsValidOomScoreAdj(oomScoreAdj: i64): (r: bool)
    ensures r <==> OOM_SCORE_ADJ_MIN <= oomScoreAdj <= OOM_SCORE_ADJ_MAX
  {
    oomScoreAdj >= -1000 && oomScoreAdj <= 1000
  }

  /** The range has 2001 members, 0 among them, and negating a valid value keeps it valid. */
  lemma OomRangeSymmetric(oomScoreAdj: i64)
    requires oomScoreAdj != I64_MIN
    ensures IsValidOomScoreAdj(oomScoreAdj) <==> IsValidOomScoreAdj(-oomScoreAdj)
    ensures IsValidOomScoreAdj(0) && !IsValidOomScoreAdj(-1001) && !IsValidOomScoreAdj(1001)
  {
  }

  // ------------------------------------------------------------- percentages

  /**
   * calculate_memory_usage_percent: used over total in whole percent, rounded
   * down; 0 for a zero total. Not clamped at 100.
   */
  function UsagePercent(usedKb: u64, totalKb: u64): (r: u64)
    requires totalKb != 0 ==> usedKb * 100 < U64_LIMIT
    ensures totalKb == 0 ==> r == 0
    ensures totalKb != 0 ==> r * totalKb <= usedKb * 100 < (r + 1) * totalKb
  {
    if totalKb == 0 then 0 else (usedKb * 100) / totalKb
  }

  /** Using no more than the total reads as at most 100%, and all of it as exactly 100%. */
  lemma UsagePercentBounded(usedKb: u64, totalKb: u64)
    requires totalKb != 0 && usedKb <= totalKb && usedKb * 100 < U64_LIMIT
    ensures UsagePercent(usedKb, totalKb) <= 100
    ensures usedKb == totalKb ==> UsagePercent(usedKb, totalKb) == 100
  {
    var r := UsagePercent(usedKb, totalKb);
    MulMonotone(101, r, totalKb);
    MulMonotone(usedKb, totalKb, 100);
    if usedKb == totalKb {
      MulMonotone(r + 1, 100, totalKb);
    }
  }

  /** Using more of the same total never reads as a lower percentage. */
  lemma UsagePercentMonotonic(u1: u64, u2: u64, totalKb: u64)
    requires u1 <= u2 && (totalKb != 0 ==> u2 * 100 < U64_LIMIT)
    ensures UsagePercent(u1, totalKb) <= UsagePercent(u2, totalKb)
  {
    if totalKb != 0 {
      var r1, r2 := UsagePercent(u1, totalKb), UsagePercent(u2, totalKb);
      MulMonotone(r2 + 1, r1, totalKb);
    }
  }

  // ------------------------------------------------------------- swap pressure

  /**
   * is_high_memory_pressure: swap above a tenth of RSS. With no RSS the rule
   * reads "any swap at all", which is the same test `swap * 10 > rss` at rss 0.
   */
  function IsHighMemoryPressure(rssKb: u64, swapKb: u64): (r: bool)
    requires rssKb != 0 ==> swapKb * 10 < U64_LIMIT
    ensures rssKb == 0 ==> (r <==> swapKb > 0)
    ensures r <==> swapKb * 10 > rssKb
  {
    if rssKb == 0 then swapKb > 0 else swapKb * 10 > rssKb
  }

  /** In whole kilobytes the rule is "swap exceeds a tenth of RSS, rounded down". */
  lemma PressureThreshold(rssKb: u64, swapKb: u64)
    requires rssKb != 0 ==> swapKb * 10 < U64_LIMIT
    ensures IsHighMemoryPressure(rssKb, swapKb) <==> swapKb > rssKb / 10
  {
    var q := rssKb / 10;
    assert q * 10 <= rssKb < q * 10 + 10;
    if swapKb > q {
      MulMonotone(q + 1, swapKb, 10);
    } else {
      MulMonotone(swapKb, q, 10);
    }
  }

  /** More swap, or less resident memory, never turns high pressure off. */
  lemma PressureMonotonic(rss1: u64, swap1: u64, rss2: u64, swap2: u64)
    requires rss2 <= rss1 && swap1 <= swap2
    requires rss1 != 0 ==> swap1 * 10 < U64_LIMIT
    requires rss2 != 0 ==> swap2 * 10 < U64_LIMIT
    ensures IsHighMemoryPressure(rss1, swap1) ==> IsHighMemoryPressure(rss2, swap2)
  {
  }

  /** The boundary cases around 10% of an RSS of 10000 KB. */
  lemma PressureExamples()
    ensures !IsHighMemoryPressure(10000, 1000)
    ensures IsHighMemoryPressure(10000, 1001)
    ensures !IsHighMemoryPressure(0, 0)
    ensures IsHighMemoryPressure(0, 100)
  {
  }

  // ------------------------------------------------------------- fault summary

  /** The line format_page_fault_stats formats: "Major: %lu, Minor: %lu, Total: %lu". */
  function FaultStatsText(majorFaults: u64, minorFaults: u64): (r: string)
    requires majorFaults + minorFaults < U64_LIMIT
  {
    "Major: " + DecimalString(majorFaults) + ", Minor: " + DecimalString(minorFaults) +
    ", Total: " + DecimalString(TotalFaults(majorFaults, minorFaults))
  }

  /** The line has no NUL in it and is 25 characters plus its three numbers. */
  lemma FaultStatsTextShape(majorFaults: u64, minorFaults: u64)
    requires majorFaults + minorFaults < U64_LIMIT
    ensures NUL !in FaultStatsText(majorFaults, minorFaults)
    ensures |FaultStatsText(majorFaults, minorFaults)| ==
      25 + |DecimalString(majorFaults)| + |DecimalString(minorFaults)| +
      |DecimalString(majorFaults + minorFaults)|
  {
    var t := FaultStatsText(majorFaults, minorFaults);
    forall j | 0 <= j < |t| ensures t[j] != NUL {
      var a, b, c := DecimalString(majorFaults), DecimalString(minorFaults),
        DecimalString(majorFaults + minorFaults);
      assert t == "Major: " + a + ", Minor: " + b + ", Total: " + c;
      if 7 <= j < 7 + |a| {
        assert t[j] == a[j - 7];
      } else if 16 + |a| <= j < 16 + |a| + |b| {
        assert t[j] == b[j - 16 - |a|];
      } else if 25 + |a| + |b| <= j {
        assert t[j] == c[j - 25 - |a| - |b|];
      }
    }
  }

  /**
   * The "Total:" field of the summary line ends the line and reads back as the
   * sum of the two counts shown before it.
   */
  lemma FaultStatsTotalField(majorFaults: u64, minorFaults: u64)
    requires majorFaults + minorFaults < U64_LIMIT
    ensures var t := FaultStatsText(majorFaults, minorFaults);
      var c := |DecimalString(majorFaults + minorFaults)|;
      9 + c <= |t| && t[|t| - c - 9..|t| - c] == ", Total: " &&
      IsDigits(t[|t| - c..]) && DecimalValue(t[|t| - c..]) == majorFaults + minorFaults
  {
    var a, b, c := DecimalString(majorFaults), DecimalString(minorFaults),
      DecimalString(majorFaults + minorFaults);
    var p := "Major: " + a + ", Minor: " + b;
    var t := FaultStatsText(majorFaults, minorFaults);
    assert t == p + ", Total: " + c;
    assert t[|t| - |c|..] == c;
    assert t[|t| - |c| - 9..|t| - |c|] == ", Total: ";
    DecimalRoundTrip(majorFaults + minorFaults);
  }

  /**
   * While the total stays below a million faults the line is shorter than 50,
   * the smallest buffer the function accepts, so it is never cut off.
   */
  lemma FaultStatsFitSmallestBuffer(b: seq<char>, bufSize: nat, majorFaults: u64, minorFaults: u64)
    requires majorFaults + minorFaults < 1000000
    requires 50 <= bufSize <= |b|
    ensures CStr(Put(b, 0, bufSize, FaultStatsText(majorFaults, minorFaults))) ==
      FaultStatsText(majorFaults, minorFaults)
  {
    FaultStatsTextShape(majorFaults, minorFaults);
    DecimalLengthBound(majorFaults, 6);
    DecimalLengthBound(minorFaults, 6);
    DecimalLengthBound(majorFaults + minorFaults, 6);
    CStrOfPut(b, bufSize, FaultStatsText(majorFaults, minorFaults));
  }

  /**
   * format_page_fault_stats: 0 with nothing written for a NULL buffer or one
   * under 50 characters; otherwise snprintf of the summary line.
   */
  method FormatPageFaultStats(majorFaults: u64, minorFaults: u64, outBuf: array?<char>, bufSize: i32)
    returns (r: int)
    requires majorFaults + minorFaults < U64_LIMIT
    requires outBuf != null && bufSize >= 50 ==> bufSize as int <= outBuf.Length
    modifies outBuf
    ensures outBuf == null || bufSize < 50 ==>
      r == 0 && (outBuf != null ==> outBuf[..] == old(outBuf[..]))
    ensures outBuf != null && bufSize >= 50 ==>
      r == |FaultStatsText(majorFaults, minorFaults)| &&
      outBuf[..] == Put(old(outBuf[..]), 0, bufSize as nat, FaultStatsText(majorFaults, minorFaults))
  {
    if outBuf == null || bufSize < 50 {
      return 0;
    }
    var k := Snprintf(outBuf, 0, bufSize as nat, FaultStatsText(majorFaults, minorFaults));
    r := k;
  }
}
