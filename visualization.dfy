/**
 * The memory-map rendering helpers of elf_det.h: byte sizes in B/KB/MB, the
 * proportional bar width, and the text block for one memory region.
 */
module Visualization {
  import opened CTypes
  import opened CStrings

  const KIB: nat := 1024
  const MIB: nat := 1024 * 1024

  // ------------------------------------------------------------- sizes

  /** The text format_size_with_unit formats: "%lu MB", "%lu KB" or "%lu B". */
  function SizeText(size: u64): string {
    if size >= MIB then DecimalString(size / MIB) + " MB"
    else if size >= KIB then DecimalString(size / KIB) + " KB"
    else DecimalString(size) + " B"
  }

  /** The unit the size is shown in: the largest of B, KB and MB that does not exceed it. */
  function SizeUnit(size: u64): (u: string)
    ensures u == "MB" <==> size >= MIB
    ensures u == "B" <==> size < KIB
  {
    if size >= MIB then "MB" else if size >= KIB then "KB" else "B"
  }

  function UnitBytes(u: string): nat {
    if u == "MB" then MIB else if u == "KB" then KIB else 1
  }

  /** A number followed by a space and a unit splits back into the two. */
  lemma SplitNumberUnit(q: nat, u: string)
    ensures var t := DecimalString(q) + " " + u;
      t[..|t| - |u| - 1] == DecimalString(q) && t[|t| - |u| - 1..] == " " + u
  {
  }

  /** The number the text shows: the size in whole units. */
  function SizeQuotient(size: u64): nat {
    if size >= MIB then size / MIB else if size >= KIB then size / KIB else size
  }

  /** Dividing by a unit no larger than the value gives at least one unit, rounded down. */
  lemma WholeUnits(size: nat, unit: nat, limit: nat)
    requires 0 < unit <= size < limit
    ensures 1 <= size / unit && (size / unit) * unit <= size < (size / unit + 1) * unit
    ensures (size / unit) * unit < limit
  {
    DivFloor(size, unit);
  }

  /** The text is the quotient, a space and the unit, and the quotient rounds the size down to whole units. */
  lemma SizeQuotientBounds(size: u64)
    ensures var q := SizeQuotient(size);
      SizeText(size) == DecimalString(q) + " " + SizeUnit(size) &&
      q * UnitBytes(SizeUnit(size)) <= size < (q + 1) * UnitBytes(SizeUnit(size)) &&
      (SizeUnit(size) != "MB" ==> q < 1024) &&
      (SizeUnit(size) != "B" ==> 1 <= q) &&
      q < 17592186044416
  {
    if size >= MIB {
      WholeUnits(size, MIB, U64_LIMIT);
    } else if size >= KIB {
      WholeUnits(size, KIB, MIB);
    }
  }

  /** "<q> <u>" reads back as q followed by the unit. */
  lemma NumberUnitReadBack(q: nat, u: string)
    ensures var t := DecimalString(q) + " " + u;
      var cut := |t| - |u| - 1;
      0 < cut && t[cut..] == " " + u && IsDigits(t[..cut]) && DecimalValue(t[..cut]) == q
  {
    SplitNumberUnit(q, u);
    DecimalRoundTrip(q);
  }

  /**
   * Reading the text back: it is a decimal number, a space and the unit; the
   * number times the unit is the size rounded down to a whole unit, and it is
   * between 1 and 1023 unless the unit is MB (at least 1) or B (at most 1023).
   */
  lemma SizeTextReadBack(size: u64)
    ensures var t, u := SizeText(size), SizeUnit(size);
      var cut := |t| - |u| - 1;
      0 < cut && t[cut..] == " " + u && IsDigits(t[..cut]) &&
      DecimalValue(t[..cut]) * UnitBytes(u) <= size < (DecimalValue(t[..cut]) + 1) * UnitBytes(u) &&
      (u != "MB" ==> DecimalValue(t[..cut]) < 1024) &&
      (u != "B" ==> 1 <= DecimalValue(t[..cut]))
  {
    SizeQuotientBounds(size);
    NumberUnitReadBack(SizeQuotient(size), SizeUnit(size));
  }

  /** "<q> <u>" has no NUL in it and is one character longer than its two parts. */
  lemma NumberUnitShape(q: nat, u: string)
    requires NUL !in u
    ensures NUL !in DecimalString(q) + " " + u
    ensures |DecimalString(q) + " " + u| == |DecimalString(q)| + 1 + |u|
  {
    var d := DecimalString(q);
    var t := d + " " + u;
    forall j | 0 <= j < |t| ensures t[j] != NUL {
      if j < |d| {
        assert t[j] == d[j];
        assert '0' <= d[j] <= '9';
      } else if j > |d| {
        assert t[j] == u[j - |d| - 1];
      }
    }
  }

  /** The text has no NUL in it and is at most 17 characters (14 digits of MB and " MB"). */
  lemma SizeTextShort(size: u64)
    ensures NUL !in SizeText(size) && |SizeText(size)| <= 17
  {
    var q := SizeQuotient(size);
    SizeQuotientBounds(size);
    assert Pow10(14) == 100000000000000;
    DecimalLengthBound(q, 14);
    NumberUnitShape(q, SizeUnit(size));
  }

  /** The unit-test expectations for format_size_with_unit. */
  lemma SizeTextExamples()
    ensures SizeText(512) == "512 B" && SizeText(0) == "0 B" && SizeText(1023) == "1023 B"
    ensures SizeText(1024) == "1 KB" && SizeText(2048) == "2 KB"
    ensures SizeText(1048576) == "1 MB" && SizeText(5 * 1048576) == "5 MB"
  {
    SizeTextBytesExamples();
    SizeTextUnitExamples();
  }

  lemma SizeTextBytesExamples()
    ensures SizeText(512) == "512 B" && SizeText(0) == "0 B" && SizeText(1023) == "1023 B"
  {
    assert DecimalString(5) == "5";
    assert DecimalString(51) == "51";
    assert DecimalString(512) == "512";
    assert DecimalString(10) == "10";
    assert DecimalString(102) == "102";
    assert DecimalString(1023) == "1023";
  }

  lemma SizeTextUnitExamples()
    ensures SizeText(1024) == "1 KB" && SizeText(2048) == "2 KB"
    ensures SizeText(1048576) == "1 MB" && SizeText(5 * 1048576) == "5 MB"
  {
    assert 1024 / KIB == 1 && 2048 / KIB == 2;
    assert 1048576 / MIB == 1 && (5 * 1048576) / MIB == 5;
  }

  /**
   * format_size_with_unit: 0 with nothing written for a NULL buffer or one
   * under 10 characters; otherwise snprintf of the size text.
   */
  method FormatSizeWithUnit(size: u64, outBuf: array?<char>, bufSize: i32) returns (r: int)
    requires outBuf != null && bufSize >= 10 ==> bufSize as int <= outBuf.Length
    modifies outBuf
    ensures outBuf == null || bufSize < 10 ==>
      r == 0 && (outBuf != null ==> outBuf[..] == old(outBuf[..]))
    ensures outBuf != null && bufSize >= 10 ==>
      r == |SizeText(size)| && outBuf[..] == Put(old(outBuf[..]), 0, bufSize as nat, SizeText(size))
  {
    if outBuf == null || bufSize < 10 {
      return 0;
    }
    var k := Snprintf(outBuf, 0, bufSize as nat, SizeText(size));
    r := k;
  }

  // ------------------------------------------------------------- bar width

  /**
   * calculate_bar_width: the region's share of `barWidth` columns, rounded
   * down, but at least one column for a non-empty region; 0 for a zero total.
   */
  function BarWidth(regionSize: u64, totalSize: u64, barWidth: i32): (r: i32)
    requires barWidth >= 0 && regionSize * barWidth < U64_LIMIT
    requires totalSize != 0 ==> regionSize * barWidth / totalSize <= I32_MAX
    ensures totalSize == 0 || regionSize == 0 ==> r == 0
    ensures totalSize != 0 && regionSize != 0 ==> r >= 1
    ensures totalSize != 0 && regionSize * barWidth >= totalSize ==>
      r * totalSize <= regionSize * barWidth < (r + 1) * totalSize
    ensures totalSize != 0 && regionSize != 0 && regionSize * barWidth < totalSize ==> r == 1
  {
    if totalSize == 0 then 0
    else
      var p := regionSize * barWidth;
      var width := p / totalSize;
      DivFloor(p, totalSize);
      if regionSize > 0 && width == 0 then 1 else width
  }

  /** A region no larger than the total never gets more than the whole bar. */
  lemma BarWidthBounded(regionSize: u64, totalSize: u64, barWidth: i32)
    requires 1 <= barWidth && regionSize * barWidth < U64_LIMIT
    requires regionSize <= totalSize && totalSize != 0
    ensures (MulMonotone(regionSize, totalSize, barWidth);
             DivAtMost(regionSize * barWidth, totalSize, barWidth);
             BarWidth(regionSize, totalSize, barWidth) <= barWidth)
  {
    var p := regionSize * barWidth;
    MulMonotone(regionSize, totalSize, barWidth);
    DivAtMost(p, totalSize, barWidth);
    assert BarWidth(regionSize, totalSize, barWidth) == if regionSize > 0 && p / totalSize == 0 then 1 else p / totalSize;
  }

  /** A larger region never gets a shorter bar. */
  lemma BarWidthMonotonic(r1: u64, r2: u64, totalSize: u64, barWidth: i32)
    requires r1 <= r2 && barWidth >= 0 && r2 * barWidth < U64_LIMIT
    requires totalSize != 0 ==> r2 * barWidth / totalSize <= I32_MAX
    ensures (MulMonotone(r1, r2, barWidth);
             DivMonotone(r1 * barWidth, r2 * barWidth, if totalSize == 0 then 1 else totalSize);
             BarWidth(r1, totalSize, barWidth) <= BarWidth(r2, totalSize, barWidth))
  {
    MulMonotone(r1, r2, barWidth);
    if totalSize != 0 {
      var p1, p2 := r1 * barWidth, r2 * barWidth;
      DivMonotone(p1, p2, totalSize);
      DivFloor(p1, totalSize);
      DivFloor(p2, totalSize);
      assert BarWidth(r1, totalSize, barWidth) == if r1 > 0 && p1 / totalSize == 0 then 1 else p1 / totalSize;
      assert BarWidth(r2, totalSize, barWidth) == if r2 > 0 && p2 / totalSize == 0 then 1 else p2 / totalSize;
    }
  }

  /**
   * The unit-test expectations for calculate_bar_width, and the case with no
   * bar at all, where the one-column minimum still applies.
   */
  lemma BarWidthExamples()
    ensures BarWidth(100, 1000, 50) == 5 && BarWidth(500, 1000, 50) == 25
    ensures BarWidth(1000, 1000, 50) == 50 && BarWidth(1, 1000000, 50) == 1
    ensures BarWidth(0, 1000, 50) == 0 && BarWidth(100, 0, 50) == 0
    ensures BarWidth(1, 1, 0) == 1
  {
  }

  // ------------------------------------------------------------- one region

  /** struct memory_region; `present` is the C field `exists`. */
  datatype MemoryRegion = MemoryRegion(name: string, size: u64, present: i32)

  /** The header line "%-5s (%s)\n". */
  function RegionHeader(name: string, sizeText: string): string {
    PadRight(name, 5) + " (" + sizeText + ")\n"
  }

  /** Whether generate_region_visualization writes anything at all. */
  predicate RegionWrites(region: Option<MemoryRegion>, outBuf: array?<char>, bufSize: int) {
    region.Some? && outBuf != null && bufSize >= 100 && region.value.present != 0 && region.value.size != 0
  }

  /**
   * The texts generate_region_visualization formats, concatenated: header,
   * "      [", `width` '=' and `barWidth - width` spaces as far as the loops'
   * guard `len < buf_size - 2` lets them run, then "]\n\n".
   */
  function RegionStream(name: string, size: u64, width: int, barWidth: int, bufSize: int): string {
    var prefix := RegionHeader(name, SizeText(size)) + "      [";
    prefix + BarTail(width, barWidth, bufSize - 2 - |prefix|)
  }

  /**
   * What the two bar loops and the closing "]\n\n" format when `room` more
   * characters pass the guard `len < buf_size - 2`.
   */
  function BarTail(width: int, barWidth: int, room: int): string {
    var e := Max(0, Min(width, room));
    var s := Max(0, Min(barWidth - width, room - e));
    Repeat('=', e) + Repeat(' ', s) + "]\n\n"
  }

  /**
   * With room for the whole bar, the region text is the padded name, the size,
   * exactly `width` '=' and `barWidth - width` spaces, and a reader sees all of it.
   */
  lemma RegionStreamIdeal(name: string, size: u64, width: int, barWidth: int, bufSize: int)
    requires 0 <= width <= barWidth
    requires |RegionHeader(name, SizeText(size))| + 7 + barWidth + 3 < bufSize
    ensures RegionStream(name, size, width, barWidth, bufSize) ==
      RegionHeader(name, SizeText(size)) + "      [" + Repeat('=', width) + Repeat(' ', barWidth - width) + "]\n\n"
    ensures |RegionStream(name, size, width, barWidth, bufSize)| < bufSize
  {
  }

  /** The unit-test region: CODE, 1 MB, 25 of 50 columns, in a 256-character buffer. */
  lemma RegionExampleCode()
    ensures RegionStream("CODE", 1048576, 25, 50, 256) ==
      "CODE  (1 MB)\n      [" + Repeat('=', 25) + Repeat(' ', 25) + "]\n\n"
  {
    SizeTextExamples();
    assert PadRight("CODE", 5) == "CODE ";
    assert RegionHeader("CODE", SizeText(1048576)) == "CODE  (1 MB)\n";
    RegionStreamIdeal("CODE", 1048576, 25, 50, 256);
  }

  /**
   * `for (i = from; i < to && len < size - 2; i++) len += snprintf(buf + len, size - len, "<c>");`
   * appends `c` as many times as both bounds allow.
   */
  method AppendRun(buf: array<char>, size: nat, len: nat, c: char, from: int, to: int,
                   ghost orig: seq<char>, ghost v: string)
    returns (len': nat)
    requires size <= buf.Length && len == |v| <= size
    requires StreamIn(buf[..], orig, v, size)
    modifies buf
    ensures len' == len + Max(0, Min(to - from, size - 2 - len)) && len' <= size
    ensures StreamIn(buf[..], orig, v + Repeat(c, len' - len), size)
  {
    len' := len;
    var i := from;
    assert v + Repeat(c, 0) == v;
    while i < to && len' < size - 2
      invariant from <= i && len' == len + (i - from) <= size
      invariant i - from <= Max(0, Min(to - from, size - 2 - len))
      invariant StreamIn(buf[..], orig, v + Repeat(c, i - from), size)
    {
      RepeatSnoc(c, i - from);
      assert v + Repeat(c, i - from) + [c] == v + Repeat(c, i - from + 1);
      len' := SnprintfAppend(buf, size, len', [c], orig, v + Repeat(c, i - from));
      i := i + 1;
    }
  }

  /**
   * The bar of `generate_region_visualization`: both loops and the closing
   * "]\n\n", appended to the texts `v` already in the buffer.
   */
  method AppendBar(buf: array<char>, size: nat, len: nat, width: int, barWidth: int,
                   ghost orig: seq<char>, ghost v: string)
    returns (len': nat)
    requires size <= buf.Length && len == |v| <= size
    requires StreamIn(buf[..], orig, v, size)
    modifies buf
    ensures len' == len + |BarTail(width, barWidth, size - 2 - len)|
    ensures StreamIn(buf[..], orig, v + BarTail(width, barWidth, size - 2 - len), size)
  {
    ghost var e := Max(0, Min(width, size - 2 - len));
    var len1 := AppendRun(buf, size, len, '=', 0, width, orig, v);
    assert len1 - len == e;
    ghost var mid := v + Repeat('=', e);
    ghost var s := Max(0, Min(barWidth - width, size - 2 - len - e));
    var len2 := AppendRun(buf, size, len1, ' ', width, barWidth, orig, mid);
    assert len2 - len1 == s;
    ghost var w := mid + Repeat(' ', s);
    assert StreamIn(buf[..], orig, w, size);
    len' := SnprintfAppend(buf, size, len2, "]\n\n", orig, w);
    BarTailParts(v, width, barWidth, size - 2 - len);
    assert w + "]\n\n" == v + BarTail(width, barWidth, size - 2 - len);
  }

  /** The bar text appended piece by piece is the text appended at once. */
  lemma BarTailParts(v: string, width: int, barWidth: int, room: int)
    ensures var e := Max(0, Min(width, room));
      var s := Max(0, Min(barWidth - width, room - e));
      v + Repeat('=', e) + Repeat(' ', s) + "]\n\n" == v + BarTail(width, barWidth, room)
  {
    var e := Max(0, Min(width, room));
    var s := Max(0, Min(barWidth - width, room - e));
    var a, b, c := Repeat('=', e), Repeat(' ', s), "]\n\n";
    assert BarTail(width, barWidth, room) == a + b + c;
    assert v + a + b + c == v + (a + b + c);
  }

  /**
   * `char size_str[32]; format_size_with_unit(size, size_str, sizeof(size_str));`
   * and the `%s` that reads it back: the whole size text, which always fits.
   */
  method SizeString(size: u64) returns (t: string)
    ensures t == SizeText(size)
  {
    var sizeStr := new char[32];
    ghost var blank := sizeStr[..];
    var _ := FormatSizeWithUnit(size, sizeStr, 32);
    SizeTextShort(size);
    CStrOfPut(blank, 32, SizeText(size));
    t := CStr(sizeStr[..]);
  }

  /**
   * generate_region_visualization: returns 0 and writes nothing without a
   * region or buffer, with a buffer under 100 characters, or for a region that
   * is absent or empty; otherwise formats the region's text into the buffer
   * (cut to fit) and returns its full length.
   */
  method GenerateRegionVisualization(region: Option<MemoryRegion>, width: i32, barWidth: i32,
                                     outBuf: array?<char>, bufSize: i32)
    returns (r: int)
    requires outBuf != null && bufSize >= 100 ==> bufSize as int <= outBuf.Length
    requires region.Some? ==> NUL !in region.value.name
    requires RegionWrites(region, outBuf, bufSize as int) ==>
      |RegionHeader(region.value.name, SizeText(region.value.size))| + 7 <= bufSize as int
    modifies outBuf
    ensures !RegionWrites(region, outBuf, bufSize as int) ==>
      r == 0 && (outBuf != null ==> outBuf[..] == old(outBuf[..]))
    ensures RegionWrites(region, outBuf, bufSize as int) ==>
      var v := RegionStream(region.value.name, region.value.size, width as int, barWidth as int, bufSize as int);
      r == |v| && StreamIn(outBuf[..], old(outBuf[..]), v, bufSize as nat)
  {
    if region.None? || outBuf == null || bufSize < 100 {
      return 0;
    }
    var reg := region.value;
    if reg.present == 0 || reg.size == 0 {
      return 0;
    }
    var sizeText := SizeString(reg.size);
    ghost var orig := outBuf[..];
    var size: nat := bufSize as nat;
    var header := RegionHeader(reg.name, sizeText);
    var len := SnprintfAppend(outBuf, size, 0, header, orig, []);
    assert [] + header == header;
    len := SnprintfAppend(outBuf, size, len, "      [", orig, header);
    len := AppendBar(outBuf, size, len, width as int, barWidth as int, orig, header + "      [");
    r := len;
  }

  /** The header line has no NUL in it when the name and the size text have none. */
  lemma RegionHeaderNoNul(name: string, sizeText: string)
    requires NUL !in name && NUL !in sizeText
    ensures NUL !in RegionHeader(name, sizeText)
  {
    var p := PadRight(name, 5);
    assert NUL !in p by {
      forall j | 0 <= j < |p| ensures p[j] != NUL {
        if j < |name| {
          assert p[j] == p[..|name|][j] == name[j];
        }
      }
    }
  }

  /** A run of one character other than NUL has no NUL in it. */
  lemma RepeatNoNul(c: char, k: int)
    requires c != NUL
    ensures NUL !in Repeat(c, k)
  {
    var r := Repeat(c, k);
    forall j | 0 <= j < |r| ensures r[j] != NUL {
    }
  }

  /** The region text has no NUL in it. */
  lemma RegionStreamNoNul(name: string, size: u64, width: int, barWidth: int, bufSize: int)
    requires NUL !in name
    ensures NUL !in RegionStream(name, size, width, barWidth, bufSize)
  {
    SizeTextShort(size);
    var h := RegionHeader(name, SizeText(size));
    RegionHeaderNoNul(name, SizeText(size));
    var room := bufSize - 2 - |h + "      ["|;
    var e := Max(0, Min(width, room));
    var s := Max(0, Min(barWidth - width, room - e));
    RepeatNoNul('=', e);
    RepeatNoNul(' ', s);
    assert NUL !in BarTail(width, barWidth, room);
  }

  /** What a reader of the buffer sees afterwards: the region text, cut to bufSize - 1 characters. */
  lemma RegionTextSeen(b: seq<char>, orig: seq<char>, name: string, size: u64, width: int, barWidth: int, bufSize: nat)
    requires NUL !in name
    requires StreamIn(b, orig, RegionStream(name, size, width, barWidth, bufSize), bufSize)
    ensures var v := RegionStream(name, size, width, barWidth, bufSize);
      CStr(b) == v[..Min(|v|, bufSize - 1)]
  {
    RegionStreamNoNul(name, size, width, barWidth, bufSize);
    StreamCStr(b, orig, RegionStream(name, size, width, barWidth, bufSize), bufSize);
  }
}
