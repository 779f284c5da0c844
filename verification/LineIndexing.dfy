/** Line regions of a byte buffer, the canonical content of an extent, and the
    `LineIndex` that caches line offsets and prefix hashes. Buffers are valid
    UTF-8, so the lossy decoding of the original is the identity. */
module LineIndexing {
  import opened Text
  import opened Fingerprint

  const LF: byte := 10
  const CR: byte := 13
  const PREFILTER_TABLES_MAX_BYTES: nat := 32 * 1024 * 1024

  datatype AnchorExtent = WholeFile | LineRange(start: u32, end: u32)

  /** A `usize as u32` cast. */
  function AsU32(x: nat): u32 { x % 0x1_0000_0000 }

  function Min(a: nat, b: nat): nat { if a < b then a else b }

  // --- Reference definitions ---

  function LinesOf(bytes: seq<byte>): seq<seq<byte>> { StrLines(bytes, LF, CR) }

  /** The inclusive 1-based slice of the lines, clamped to the last, joined. */
  function JoinRange(lines: seq<seq<byte>>, start: nat, end: nat): seq<byte> {
    var lo := if start == 0 then 0 else start - 1;
    var hi := Min(end, |lines|);
    if lo < hi then Join(lines[lo..hi], LF) else []
  }

  /** The content a line range stands for: decode, split, slice, join. */
  function CanonicalJoin(bytes: seq<byte>, start: nat, end: nat): seq<byte> {
    JoinRange(LinesOf(bytes), start, end)
  }

  /** No carriage return in `bytes[lo..hi]`. */
  predicate NoCr(bytes: seq<byte>, lo: nat, hi: nat)
    requires lo <= hi <= |bytes|
  {
    forall i :: lo <= i < hi ==> bytes[i] != CR
  }

  /** Start and content end of one line. */
  datatype Bound = Bound(lo: nat, hi: nat)

  /** The content an extent stands for; a range starting at line 0 selects none. */
  function Canonical(bytes: seq<byte>, extent: AnchorExtent): seq<byte> {
    match extent
    case WholeFile => bytes
    case LineRange(start, end) => if start == 0 then [] else CanonicalJoin(bytes, start, end)
  }

  /** Start and content end of every line at or after offset `from`. */
  function Bounds(bytes: seq<byte>, from: nat): seq<Bound>
    requires from <= |bytes|
    decreases |bytes| - from
  {
    if from == |bytes| then []
    else
      var k := NextBreak(bytes, from, LF);
      if k == |bytes| then [Bound(from, k)] else [Bound(from, k)] + Bounds(bytes, k + 1)
  }

  function Region(bounds: seq<Bound>, start: nat, end: nat): Option<Bound> {
    var hi := Min(end, |bounds|);
    if start == 0 || start > hi then None else Some(Bound(bounds[start - 1].lo, bounds[hi - 1].hi))
  }

  // --- Bounds against lines ---

  /** Line `b` as `str::lines` yields it: the carriage return of a terminated
      line is dropped, that of a final unterminated line is kept. */
  function LineAt(bytes: seq<byte>, b: Bound): seq<byte> {
    if b.lo <= b.hi < |bytes| then StripCr(bytes[b.lo..b.hi], CR)
    else if b.lo <= b.hi == |bytes| then bytes[b.lo..]
    else []
  }

  function LinesAt(bytes: seq<byte>, bounds: seq<Bound>): (lines: seq<seq<byte>>)
    ensures |lines| == |bounds|
    ensures forall i :: 0 <= i < |bounds| ==> lines[i] == LineAt(bytes, bounds[i])
  {
    if bounds == [] then [] else [LineAt(bytes, bounds[0])] + LinesAt(bytes, bounds[1..])
  }

  lemma LinesOfStep(bytes: seq<byte>, from: nat, k: nat)
    requires from <= k < |bytes| && k == NextBreak(bytes, from, LF)
    ensures LinesOf(bytes[from..]) == [StripCr(bytes[from..k], CR)] + LinesOf(bytes[k + 1..])
  {
    assert bytes[from..] == bytes[from..k] + [LF] + bytes[k + 1..];
    StrLinesCons(bytes[from..k], bytes[k + 1..], LF, CR);
  }

  lemma LinesOfLast(bytes: seq<byte>, from: nat)
    requires from < |bytes| && NextBreak(bytes, from, LF) == |bytes|
    ensures LinesOf(bytes[from..]) == [bytes[from..]]
  {
    NextBreakUnique(bytes[from..], 0, LF, |bytes| - from);
  }

  lemma LinesAtCons(bytes: seq<byte>, b: Bound, rest: seq<Bound>)
    ensures LinesAt(bytes, [b] + rest) == [LineAt(bytes, b)] + LinesAt(bytes, rest)
  {
    assert ([b] + rest)[1..] == rest;
  }

  lemma {:induction false} BoundsAreLines(bytes: seq<byte>, from: nat)
    requires from <= |bytes|
    ensures LinesOf(bytes[from..]) == LinesAt(bytes, Bounds(bytes, from))
    decreases |bytes| - from
  {
    if from < |bytes| {
      var k := NextBreak(bytes, from, LF);
      if k == |bytes| {
        calc {
          LinesOf(bytes[from..]);
          { LinesOfLast(bytes, from); }
          [LineAt(bytes, Bound(from, k))] + LinesAt(bytes, []);
          { LinesAtCons(bytes, Bound(from, k), []); assert [Bound(from, k)] + [] == Bounds(bytes, from); }
          LinesAt(bytes, Bounds(bytes, from));
        }
      } else {
        calc {
          LinesOf(bytes[from..]);
          { LinesOfStep(bytes, from, k); }
          [LineAt(bytes, Bound(from, k))] + LinesOf(bytes[k + 1..]);
          { BoundsAreLines(bytes, k + 1); }
          [LineAt(bytes, Bound(from, k))] + LinesAt(bytes, Bounds(bytes, k + 1));
          { LinesAtCons(bytes, Bound(from, k), Bounds(bytes, k + 1)); }
          LinesAt(bytes, Bounds(bytes, from));
        }
      }
    }
  }

  /** Consecutive lines are separated by exactly one line feed. */
  lemma {:induction false} BoundsAdjacent(bytes: seq<byte>, from: nat, i: nat)
    requires from <= |bytes| && i < |Bounds(bytes, from)|
    ensures i == 0 ==> Bounds(bytes, from)[i].lo == from
    ensures i + 1 < |Bounds(bytes, from)| ==> Bounds(bytes, from)[i + 1].lo == Bounds(bytes, from)[i].hi + 1
    decreases |bytes| - from
  {
    var k := NextBreak(bytes, from, LF);
    if k < |bytes| {
      var rest := Bounds(bytes, k + 1);
      assert Bounds(bytes, from) == [Bound(from, k)] + rest;
      if i > 0 {
        BoundsAdjacent(bytes, k + 1, i - 1);
      } else if rest != [] {
        BoundsAdjacent(bytes, k + 1, 0);
      }
    }
  }

  /** `b` splits `bytes` at its line feeds, and nowhere else. */
  ghost predicate Splits(bytes: seq<byte>, b: seq<Bound>) {
    && (forall k :: 0 <= k < |b| ==> b[k].lo <= b[k].hi <= |bytes|)
    && (forall k :: 0 <= k < |b| ==> if b[k].hi < |bytes| then bytes[b[k].hi] == LF
      else k == |b| - 1 && b[k].lo < b[k].hi)
    && (forall k, j :: 0 <= k < |b| && b[k].lo <= j < b[k].hi ==> bytes[j] != LF)
    && (forall k, j :: 0 <= k < j < |b| && j == k + 1 ==> b[j].lo == b[k].hi + 1)
    && (if b == [] then bytes == [] else b[0].lo == 0 && b[|b| - 1].hi + 1 >= |bytes|)
  }

  lemma {:induction false} BoundsShape(bytes: seq<byte>, from: nat, k: nat)
    requires from <= |bytes| && k < |Bounds(bytes, from)|
    ensures Shaped(bytes, Bounds(bytes, from)[k], k == |Bounds(bytes, from)| - 1)
    decreases |bytes| - from
  {
    var e := NextBreak(bytes, from, LF);
    if k > 0 {
      BoundsShape(bytes, e + 1, k - 1);
    } else if e < |bytes| && |Bounds(bytes, from)| == 1 {
      assert Bounds(bytes, e + 1) == [];
    }
  }

  /** What one bound says of its line, given how many lines there are. */
  ghost predicate Shaped(bytes: seq<byte>, b: Bound, last: bool) {
    && b.lo <= b.hi <= |bytes|
    && (forall j :: b.lo <= j < b.hi ==> bytes[j] != LF)
    && (if b.hi < |bytes| then bytes[b.hi] == LF else last && b.lo < b.hi)
    && (last ==> b.hi + 1 >= |bytes|)
  }

  lemma SplitsIfShaped(bytes: seq<byte>, b: seq<Bound>)
    requires forall k :: 0 <= k < |b| ==> Shaped(bytes, b[k], k == |b| - 1)
    requires forall k, j :: 0 <= k < j < |b| && j == k + 1 ==> b[j].lo == b[k].hi + 1
    requires if b == [] then bytes == [] else b[0].lo == 0
    ensures Splits(bytes, b)
  {
  }

  lemma BoundsSplit(bytes: seq<byte>)
    ensures Splits(bytes, Bounds(bytes, 0))
  {
    var b := Bounds(bytes, 0);
    assert b == [] ==> bytes == [];
    hide Bounds, Splits;
    forall k | 0 <= k < |b|
      ensures Shaped(bytes, b[k], k == |b| - 1)
    {
      BoundsShape(bytes, 0, k);
    }
    forall k, j | 0 <= k < j < |b| && j == k + 1
      ensures b[j].lo == b[k].hi + 1
    {
      BoundsAdjacent(bytes, 0, k);
    }
    if b != [] {
      BoundsAdjacent(bytes, 0, 0);
    }
    SplitsIfShaped(bytes, b);
  }

  lemma {:induction false} SplitsAgree(bytes: seq<byte>, b: seq<Bound>, c: seq<Bound>, k: nat)
    requires Splits(bytes, b) && Splits(bytes, c) && k < |b| && k < |c|
    ensures b[k] == c[k]
  {
    if k > 0 {
      SplitsAgree(bytes, b, c, k - 1);
      assert b[k].lo == b[k - 1].hi + 1 && c[k].lo == c[k - 1].hi + 1;
    }
    assert b[k].hi < |bytes| ==> bytes[b[k].hi] == LF;
    assert c[k].hi < |bytes| ==> bytes[c[k].hi] == LF;
  }

  lemma SplitsInside(bytes: seq<byte>, c: seq<Bound>, j: nat)
    requires Splits(bytes, c) && 0 < j < |c|
    ensures c[j].lo == c[j - 1].hi + 1 < |bytes|
  {
  }

  lemma SplitsNotShorter(bytes: seq<byte>, b: seq<Bound>, c: seq<Bound>)
    requires Splits(bytes, b) && Splits(bytes, c)
    ensures |c| <= |b|
  {
    if 0 < |b| < |c| {
      SplitsInside(bytes, c, |b|);
      SplitsAgree(bytes, b, c, |b| - 1);
    }
  }

  /** A buffer has exactly one line table. */
  lemma SplitsUnique(bytes: seq<byte>, b: seq<Bound>)
    requires Splits(bytes, b)
    ensures b == Bounds(bytes, 0)
  {
    var c := Bounds(bytes, 0);
    BoundsSplit(bytes);
    SplitsNotShorter(bytes, b, c);
    SplitsNotShorter(bytes, c, b);
    forall k | 0 <= k < |b|
      ensures b[k] == c[k]
    {
      SplitsAgree(bytes, b, c, k);
    }
  }

  lemma {:induction false} SplitsOrdered(bytes: seq<byte>, b: seq<Bound>, i: nat, j: nat)
    requires Splits(bytes, b) && i <= j < |b|
    ensures b[i].lo <= b[j].lo && b[i].hi <= b[j].hi
    decreases j
  {
    if i < j {
      SplitsOrdered(bytes, b, i, j - 1);
      assert b[j].lo == b[j - 1].hi + 1;
    }
  }

  /** `b` and `lines` are the offsets and the texts of all lines of `bytes`. */
  ghost predicate LineTable(bytes: seq<byte>, b: seq<Bound>, lines: seq<seq<byte>>) {
    && Splits(bytes, b)
    && |lines| == |b|
    && (forall i :: 0 <= i < |b| ==> lines[i] == LineAt(bytes, b[i]))
  }

  lemma BoundsLineTable(bytes: seq<byte>)
    ensures LineTable(bytes, Bounds(bytes, 0), LinesOf(bytes))
    ensures |LinesOf(bytes)| <= |bytes|
  {
    BoundsSplit(bytes);
    BoundsAreLines(bytes, 0);
    assert bytes[0..] == bytes;
    StrLinesShape(bytes, LF, CR);
  }

  lemma CleanLineAt(bytes: seq<byte>, b: Bound)
    requires b.lo <= b.hi <= |bytes| && NoCr(bytes, b.lo, b.hi)
    ensures LineAt(bytes, b) == bytes[b.lo..b.hi]
  {
  }

  lemma SpliceLine(bytes: seq<byte>, rs: nat, mid: nat, re: nat)
    requires rs <= mid < re <= |bytes| && bytes[mid] == LF
    ensures bytes[rs..re] == bytes[rs..mid] + [LF] + bytes[mid + 1..re]
  {
  }

  lemma JoinExtend(lines: seq<seq<byte>>, lo: nat, last: nat, hi: nat)
    requires lo < last < |lines| && hi == last + 1
    ensures Join(lines[lo..hi], LF) == Join(lines[lo..last], LF) + [LF] + lines[last]
  {
    assert lines[lo..hi] == lines[lo..last] + [lines[last]];
    JoinSnoc(lines[lo..last], lines[last], LF);
  }

  lemma CleanRegionExtend(bytes: seq<byte>, b: seq<Bound>, lines: seq<seq<byte>>, lo: nat, last: nat, hi: nat)
    requires LineTable(bytes, b, lines)
    requires lo < last < |b| && hi == last + 1 && b[lo].lo <= b[last - 1].hi && b[lo].lo <= b[last].hi
    requires NoCr(bytes, b[lo].lo, b[last].hi)
    requires Join(lines[lo..last], LF) == bytes[b[lo].lo..b[last - 1].hi]
    ensures Join(lines[lo..hi], LF) == bytes[b[lo].lo..b[last].hi]
  {
    var rs, mid, re := b[lo].lo, b[last - 1].hi, b[last].hi;
    assert b[last].lo == mid + 1 && bytes[mid] == LF;
    calc {
      Join(lines[lo..hi], LF);
      { JoinExtend(lines, lo, last, hi); }
      Join(lines[lo..last], LF) + [LF] + lines[last];
      { CleanLineAt(bytes, b[last]); }
      bytes[rs..mid] + [LF] + bytes[mid + 1..re];
      { SpliceLine(bytes, rs, mid, re); }
      bytes[rs..re];
    }
  }

  /** A region without carriage returns is, byte for byte, the joined lines. */
  lemma {:induction false} CleanRegionIsJoin(bytes: seq<byte>, b: seq<Bound>, lines: seq<seq<byte>>, lo: nat, hi: nat)
    requires LineTable(bytes, b, lines)
    requires lo < hi <= |b| && b[lo].lo <= b[hi - 1].hi
    requires NoCr(bytes, b[lo].lo, b[hi - 1].hi)
    ensures Join(lines[lo..hi], LF) == bytes[b[lo].lo..b[hi - 1].hi]
    decreases hi
  {
    var last := hi - 1;
    if lo == last {
      assert lines[lo..hi] == [lines[lo]];
      CleanLineAt(bytes, b[lo]);
    } else {
      assert b[lo].lo <= b[last - 1].hi <= b[last].hi by {
        SplitsOrdered(bytes, b, lo, last - 1);
        SplitsOrdered(bytes, b, last - 1, last);
      }
      CleanRegionIsJoin(bytes, b, lines, lo, last);
      CleanRegionExtend(bytes, b, lines, lo, last, hi);
    }
  }

  /** What `canonical_region` hands to its digest. */
  function CanonicalRegion(bytes: seq<byte>, rs: nat, re: nat, start: nat, end: nat): seq<byte>
    requires rs <= re <= |bytes|
  {
    if NoCr(bytes, rs, re) then bytes[rs..re] else CanonicalJoin(bytes, start, end)
  }

  /** The fast path and the fallback both yield the canonical content, and an
      empty region means an empty content: the two never disagree. */
  lemma RegionIsCanonical(bytes: seq<byte>, start: u32, end: u32)
    ensures var r := Region(Bounds(bytes, 0), start, end);
      && (r.None? ==> Canonical(bytes, LineRange(start, end)) == [])
      && (r.Some? ==> r.value.lo <= r.value.hi <= |bytes|)
      && (r.Some? ==>
           CanonicalRegion(bytes, r.value.lo, r.value.hi, start, end) == Canonical(bytes, LineRange(start, end)))
  {
    BoundsLineTable(bytes);
    RegionOfTable(bytes, Bounds(bytes, 0), LinesOf(bytes), start, end);
  }

  lemma RegionOfLines(bytes: seq<byte>, b: seq<Bound>, lines: seq<seq<byte>>, lo: nat, hi: nat)
    requires LineTable(bytes, b, lines) && lo < hi <= |b|
    ensures b[lo].lo <= b[hi - 1].hi <= |bytes|
    ensures NoCr(bytes, b[lo].lo, b[hi - 1].hi) ==> bytes[b[lo].lo..b[hi - 1].hi] == Join(lines[lo..hi], LF)
  {
    SplitsOrdered(bytes, b, lo, hi - 1);
    if NoCr(bytes, b[lo].lo, b[hi - 1].hi) {
      CleanRegionIsJoin(bytes, b, lines, lo, hi);
    }
  }

  lemma TableSize(bytes: seq<byte>, b: seq<Bound>, lines: seq<seq<byte>>)
    requires LineTable(bytes, b, lines)
    ensures |b| == |lines|
  {
  }

  lemma RegionOfTable(bytes: seq<byte>, b: seq<Bound>, lines: seq<seq<byte>>, start: u32, end: u32)
    requires LineTable(bytes, b, lines)
    ensures Region(b, start, end).None? ==> start == 0 || JoinRange(lines, start, end) == []
    ensures Region(b, start, end).Some? ==>
      var r := Region(b, start, end).value;
      && start > 0 && r.lo <= r.hi <= |bytes|
      && (NoCr(bytes, r.lo, r.hi) ==> bytes[r.lo..r.hi] == JoinRange(lines, start, end))
  {
    hide LineTable, NoCr, Join;
    TableSize(bytes, b, lines);
    var hi := Min(end, |b|);
    if 1 <= start <= hi {
      RegionOfLines(bytes, b, lines, start - 1, hi);
    }
  }

  // --- Scanning for line feeds ---

  /** A scan of `i` bytes of a buffer with line table `b` has seen `nl` line
      feeds; the current line starts at `seg`. */
  ghost predicate Scanned(bytes: seq<byte>, b: seq<Bound>, i: nat, nl: nat, seg: nat) {
    && seg <= i <= |bytes|
    && nl <= |b|
    && seg == (if nl == 0 then 0 else b[nl - 1].hi + 1)
    && (nl == |b| ==> seg == |bytes|)
    && (nl < |b| ==> b[nl].lo == seg && i <= b[nl].hi)
  }

  lemma ScannedStart(bytes: seq<byte>, b: seq<Bound>)
    requires Splits(bytes, b)
    ensures Scanned(bytes, b, 0, 0, 0)
  {
  }

  lemma ScannedStep(bytes: seq<byte>, b: seq<Bound>, i: nat, nl: nat, seg: nat)
    requires Splits(bytes, b) && Scanned(bytes, b, i, nl, seg) && i < |bytes|
    ensures bytes[i] != LF ==> Scanned(bytes, b, i + 1, nl, seg)
    ensures bytes[i] == LF ==> nl < |b| && b[nl] == Bound(seg, i) && Scanned(bytes, b, i + 1, nl + 1, i + 1)
  {
    assert nl < |b|;
    if bytes[i] == LF && nl + 1 < |b| {
      assert b[nl + 1].lo == b[nl].hi + 1;
    }
  }

  lemma ScannedEnd(bytes: seq<byte>, b: seq<Bound>, nl: nat, seg: nat)
    requires Splits(bytes, b) && Scanned(bytes, b, |bytes|, nl, seg)
    ensures seg < |bytes| ==> |b| == nl + 1 && b[nl] == Bound(seg, |bytes|)
    ensures seg == |bytes| ==> |b| == nl
    ensures seg < |bytes| <==> bytes != [] && bytes[|bytes| - 1] != LF
  {
    if nl > 0 && seg == |bytes| {
      assert b[nl - 1].hi < |bytes|;
    }
  }

  /** What the region scan has recorded once `nl` line feeds are behind it. */
  ghost predicate RegionState(b: seq<Bound>, lo: nat, hi: nat, nl: nat, seg: nat,
                              regionStart: Option<nat>, regionEnd: Option<nat>, lastNl: Option<nat>)
  {
    && lo < hi && nl <= hi && nl <= |b|
    && regionEnd == (if nl < hi then None else Some(b[hi - 1].hi))
    && regionStart == (if lo < nl then Some(b[lo].lo) else if lo == nl then Some(seg) else None)
    && lastNl == (if nl == 0 then None else Some(b[nl - 1].hi))
  }

  lemma RegionStart(b: seq<Bound>, lo: nat, hi: nat)
    requires lo < hi
    ensures RegionState(b, lo, hi, 0, 0, if lo == 0 then Some(0) else None, None, None)
  {
  }

  lemma RegionOpen(b: seq<Bound>, lo: nat, hi: nat, nl: nat, seg: nat, regionStart: Option<nat>, lastNl: Option<nat>)
    requires RegionState(b, lo, hi, nl, seg, regionStart, None, lastNl)
    ensures nl < hi
  {
  }

  lemma RegionStep(b: seq<Bound>, lo: nat, hi: nat, nl: nat, seg: nat, i: nat,
                   regionStart: Option<nat>, regionEnd: Option<nat>, lastNl: Option<nat>)
    requires RegionState(b, lo, hi, nl, seg, regionStart, regionEnd, lastNl)
    requires nl < hi && nl < |b| && b[nl] == Bound(seg, i)
    ensures RegionState(b, lo, hi, nl + 1, i + 1, if nl + 1 == lo then Some(i + 1) else regionStart,
                        if nl + 1 == hi then Some(i) else regionEnd, Some(i))
  {
  }

  lemma RegionDone(b: seq<Bound>, lo: nat, hi: nat, nl: nat, seg: nat, len: nat, trailing: bool,
                   regionStart: Option<nat>, regionEnd: Option<nat>, lastNl: Option<nat>)
    requires RegionState(b, lo, hi, nl, seg, regionStart, regionEnd, lastNl)
    requires regionEnd.None? ==> (trailing <==> seg < len)
    requires regionEnd.None? ==> if seg < len then |b| == nl + 1 && b[nl] == Bound(seg, len) else |b| == nl
    ensures var lineCount := nl + if trailing then 1 else 0;
      if lo >= lineCount then Region(b, lo + 1, hi) == None
      else
        && regionStart.Some? && (regionEnd.Some? || trailing || lastNl.Some?)
        && var re := if regionEnd.Some? then regionEnd.value else if trailing then len else lastNl.value;
        Region(b, lo + 1, hi) == Some(Bound(regionStart.value, re))
  {
  }

  /** The forward pass: counts line feeds up to the one ending the range. */
  method RegionPass(bytes: seq<byte>, lo: nat, hi: nat, ghost b: seq<Bound>)
    returns (nl: nat, regionStart: Option<nat>, regionEnd: Option<nat>, lastNl: Option<nat>, ghost seg: nat)
    requires Splits(bytes, b) && lo < hi
    ensures RegionState(b, lo, hi, nl, seg, regionStart, regionEnd, lastNl)
    ensures regionEnd == None ==> Scanned(bytes, b, |bytes|, nl, seg)
  {
    RegionStart(b, lo, hi);
    ScannedStart(bytes, b);
    hide Splits, RegionState, Scanned;
    regionStart, regionEnd, lastNl := if lo == 0 then Some(0) else None, None, None;
    nl, seg := 0, 0;
    var i: nat := 0;
    while i < |bytes| && regionEnd == None
      invariant i <= |bytes|
      invariant Scanned(bytes, b, i, nl, seg)
      invariant RegionState(b, lo, hi, nl, seg, regionStart, regionEnd, lastNl)
    {
      ScannedStep(bytes, b, i, nl, seg);
      if bytes[i] == LF {
        RegionOpen(b, lo, hi, nl, seg, regionStart, lastNl);
        RegionStep(b, lo, hi, nl, seg, i, regionStart, regionEnd, lastNl);
        regionStart := if nl + 1 == lo then Some(i + 1) else regionStart;
        regionEnd := if nl + 1 == hi then Some(i) else regionEnd;
        nl := nl + 1;
        lastNl := Some(i);
        seg := i + 1;
      }
      i := i + 1;
    }
  }

  /** Byte offsets of a line range in one forward pass that stops at the line
      feed ending the range; `b` is the line table of `bytes`. */
  method LineRangeRegion(bytes: seq<byte>, startLine: u32, endLine: u32, ghost b: seq<Bound>) returns (r: Option<Bound>)
    requires Splits(bytes, b)
    ensures r == Region(b, startLine, endLine)
  {
    if startLine == 0 {
      return None;
    }
    var lo: nat, hi: nat := startLine - 1, endLine;
    if lo >= hi {
      return None;
    }
    var len := |bytes|;
    var trailing := bytes != [] && bytes[len - 1] != LF;
    var nl, regionStart, regionEnd, lastNl, seg := RegionPass(bytes, lo, hi, b);
    hide Splits, RegionState, Scanned, Region;
    if regionEnd == None {
      ScannedEnd(bytes, b, nl, seg);
    }
    RegionDone(b, lo, hi, nl, seg, len, trailing, regionStart, regionEnd, lastNl);
    var lineCount := nl + if trailing then 1 else 0;
    if lo >= lineCount {
      return None;
    }
    var re := if regionEnd.Some? then regionEnd.value else if trailing then len else lastNl.value;
    return Some(Bound(regionStart.value, re));
  }

  // --- The reusable index ---

  datatype PrefixTables = PrefixTables(atStart: seq<u64>, atEnd: seq<u64>, powHi: seq<u64>)

  class LineIndex {
    const bytes: seq<byte>
    const starts: seq<u32>
    const ends: seq<u32>
    const lfClean: bool
    var fpTables: Option<PrefixTables>
    var wholeFp: Option<u64>

    /** The line table that `starts` and `ends` hold as two columns. */
    ghost function Table(): seq<Bound>
      requires |starts| == |ends|
    {
      seq(|starts|, i requires 0 <= i < |starts| => Bound(starts[i], ends[i]))
    }

    ghost predicate OffsetsValid() {
      && |bytes| <= U32_MAX
      && |starts| == |ends| <= U32_MAX
      && Splits(bytes, Table())
      && (lfClean <==> NoCr(bytes, 0, |bytes|))
    }

    ghost predicate TablesValid(t: PrefixTables)
      requires OffsetsValid()
    {
      && |t.atStart| == |t.atEnd| == |starts|
      && (forall i :: 0 <= i < |starts| ==> starts[i] <= ends[i] <= |bytes|)
      && (forall i :: 0 <= i < |starts| ==> t.atStart[i] == Fp(bytes[..starts[i]]))
      && (forall i :: 0 <= i < |ends| ==> t.atEnd[i] == Fp(bytes[..ends[i]]))
      && PowHiValid(t.powHi)
      && |t.powHi| == |bytes| / 256 + 2
    }

    /** Every cache, once filled, holds what a fresh computation would. */
    ghost predicate Valid()
      reads this
    {
      && OffsetsValid()
      && (fpTables.Some? ==> TablesValid(fpTables.value))
      && (wholeFp.Some? ==> wholeFp.value == Fp(bytes))
    }

    /** One forward newline scan. The original refuses longer buffers. */
    constructor BuildFrom(source: seq<byte>)
      requires |source| <= U32_MAX
      ensures Valid() && bytes == source
      ensures fpTables == None && wholeFp == None
    {
      BoundsSplit(source);
      var ss, es, hasCr := ScanLines(source, Bounds(source, 0));
      bytes, starts, ends := source, ss, es;
      lfClean := !hasCr;
      fpTables, wholeFp := None, None;
      new;
      assert Table() == Bounds(source, 0);
      BoundsLineTable(source);
    }

    /** `ss` and `es` hold the first rows of the line table `b` as columns. */
    static ghost predicate Columns(b: seq<Bound>, ss: seq<u32>, es: seq<u32>) {
      && |ss| == |es| <= |b|
      && (forall i :: 0 <= i < |ss| ==> b[i] == Bound(ss[i], es[i]))
    }

    static lemma ColumnsSnoc(b: seq<Bound>, ss: seq<u32>, es: seq<u32>, s: nat, e: nat)
      requires Columns(b, ss, es) && |ss| < |b| && b[|ss|] == Bound(s, e)
      requires s <= U32_MAX && e <= U32_MAX
      ensures Columns(b, ss + [AsU32(s)], es + [AsU32(e)])
    {
    }

    static method ScanLines(source: seq<byte>, ghost b: seq<Bound>) returns (ss: seq<u32>, es: seq<u32>, hasCr: bool)
      requires |source| <= U32_MAX && Splits(source, b)
      ensures |ss| == |b| && Columns(b, ss, es)
      ensures hasCr <==> !NoCr(source, 0, |source|)
    {
      ss, es, hasCr := [], [], false;
      var seg := 0;
      for i := 0 to |source|
        invariant Scanned(source, b, i, |ss|, seg)
        invariant Columns(b, ss, es)
        invariant hasCr <==> !NoCr(source, 0, i)
      {
        ScannedStep(source, b, i, |ss|, seg);
        if source[i] == LF {
          ColumnsSnoc(b, ss, es, seg, i);
          ss := ss + [AsU32(seg)];
          es := es + [AsU32(i)];
          seg := i + 1;
        } else if source[i] == CR {
          hasCr := true;
        }
      }
      ScannedEnd(source, b, |ss|, seg);
      if seg < |source| {
        ColumnsSnoc(b, ss, es, seg, |source|);
        ss := ss + [AsU32(seg)];
        es := es + [AsU32(|source|)];
      }
    }

    function LineCount(): (n: nat)
      requires OffsetsValid()
      ensures n == |LinesOf(bytes)| <= U32_MAX
    {
      BoundsLineTable(bytes);
      SplitsUnique(bytes, Table());
      |starts|
    }

    /** The indexed region agrees with the one-pass scan on every range. */
    function RegionOf(start: u32, end: u32): (r: Option<Bound>)
      requires OffsetsValid()
      ensures r == Region(Table(), start, end)
    {
      if start == 0 || start > end then None
      else
        var lo, hi := start - 1, Min(end, |starts|);
        if lo >= hi then None else Some(Bound(starts[lo], ends[hi - 1]))
    }

    lemma OffsetsOrdered(line: nat)
      requires OffsetsValid() && line < |starts|
      ensures starts[line] <= ends[line] <= |bytes|
      ensures line > 0 ==> starts[line] as int == ends[line - 1] as int + 1
    {
      assert Table()[line] == Bound(starts[line], ends[line]);
      assert line > 0 ==> Table()[line - 1] == Bound(starts[line - 1], ends[line - 1]);
    }

    /** One pass recording the running Horner value at every line boundary. */
    method BuildPrefixTables() returns (t: PrefixTables)
      requires OffsetsValid()
      ensures TablesValid(t)
    {
      hide Fp, PowHiValid;
      FpNone();
      var lines, atStart: seq<u64>, atEnd: seq<u64> := |starts|, [], [];
      var h: u64, pos := 0, 0;
      for line := 0 to lines
        invariant |atStart| == |atEnd| == line
        invariant pos <= |bytes| && h == Fp(bytes[..pos])
        invariant pos == if line == 0 then 0 else ends[line - 1]
        invariant forall i :: 0 <= i < line ==> starts[i] <= ends[i] <= |bytes|
        invariant forall i :: 0 <= i < line ==> atStart[i] == Fp(bytes[..starts[i]])
        invariant forall i :: 0 <= i < line ==> atEnd[i] == Fp(bytes[..ends[i]])
      {
        var s, e := starts[line], ends[line];
        OffsetsOrdered(line);
        h, pos := Absorb(h, pos, s);
        atStart := atStart + [h];
        h, pos := Absorb(h, pos, e);
        atEnd := atEnd + [h];
      }
      var powHi := BuildPowHi(|bytes| / 256 + 2);
      t := PrefixTables(atStart, atEnd, powHi);
    }

    method Absorb(h0: u64, pos0: nat, to: nat) returns (h: u64, pos: nat)
      requires pos0 <= to <= |bytes| && h0 == Fp(bytes[..pos0])
      ensures pos == to && h == Fp(bytes[..to])
    {
      h, pos := h0, pos0;
      while pos < to
        invariant pos0 <= pos <= to && h == Fp(bytes[..pos])
      {
        HornerStep(bytes[..pos], bytes[pos]);
        assert bytes[..pos + 1] == bytes[..pos] + [bytes[pos]];
        h := WrapAdd(WrapMul(h, FP_BASE), FpByte(bytes[pos]));
        pos := pos + 1;
      }
    }

    static method BuildPowHi(strides: nat) returns (powHi: seq<u64>)
      ensures |powHi| == strides && PowHiValid(powHi)
    {
      powHi := [];
      var p: u64, fine := 1, 255;
      PowHiStart();
      hide Pow, PowHiValid, PowStride;
      PowHiNone();
      for j := 0 to strides
        invariant |powHi| == j && PowHiValid(powHi)
        invariant p == Pow(FP_BASE, 256 * j) % WORD
      {
        PowHiStep(j, fine);
        PowHiSnoc(powHi, j, p);
        powHi := powHi + [p];
        p := WrapMul(p, PowStride(fine));
      }
    }

    /** Fills the table cache on first use, within the size threshold. */
    method PrefilterTables() returns (t: Option<PrefixTables>)
      requires Valid()
      modifies this`fpTables
      ensures Valid()
      ensures t.Some? <==> |bytes| <= PREFILTER_TABLES_MAX_BYTES
      ensures t.Some? ==> TablesValid(t.value) && fpTables == t
      ensures t.None? || old(fpTables).Some? ==> fpTables == old(fpTables)
    {
      if |bytes| > PREFILTER_TABLES_MAX_BYTES {
        return None;
      }
      if fpTables.None? {
        var built := BuildPrefixTables();
        fpTables := Some(built);
      }
      return fpTables;
    }

    method WholeFileFingerprint() returns (fp: u64)
      requires Valid()
      modifies this`wholeFp
      ensures Valid() && fp == Fp(bytes) && wholeFp == Some(fp)
    {
      if wholeFp.None? {
        var h := Horner(bytes);
        wholeFp := Some(h);
      }
      fp := wholeFp.value;
    }
  }

  // --- Fingerprints of extents ---

  /** Fingerprint of raw bytes: the hash of the canonical content, for every
      buffer and extent, degenerate ones included. */
  method CheapFingerprintWithExtent(bytes: seq<byte>, extent: AnchorExtent) returns (fp: u64)
    ensures fp == Fp(Canonical(bytes, extent))
  {
    match extent
    case WholeFile =>
      fp := Horner(bytes);
    case LineRange(start, end) =>
      BoundsSplit(bytes);
      var region := LineRangeRegion(bytes, start, end, Bounds(bytes, 0));
      RegionIsCanonical(bytes, start, end);
      match region {
        case Some(p) => fp := Horner(CanonicalRegion(bytes, p.lo, p.hi, start, end));
        case None => fp := 0;
      }
  }

  /** The same fingerprint over a prebuilt index. */
  method CheapFingerprintIndexed(idx: LineIndex, extent: AnchorExtent) returns (fp: u64)
    requires idx.Valid()
    modifies idx`wholeFp
    ensures idx.Valid() && fp == Fp(Canonical(idx.bytes, extent))
  {
    match extent
    case WholeFile =>
      fp := idx.WholeFileFingerprint();
    case LineRange(start, end) =>
      var region := idx.RegionOf(start, end);
      SplitsUnique(idx.bytes, idx.Table());
      RegionIsCanonical(idx.bytes, start, end);
      match region {
        case Some(p) => fp := Horner(CanonicalRegion(idx.bytes, p.lo, p.hi, start, end));
        case None => fp := 0;
      }
  }

  // --- Line-ending independence ---

  function Twin(text: seq<byte>): seq<byte> { CrlfTwin(text, LF, CR) }

  lemma {:induction false} CrlfTwinPrefix(a: seq<byte>, b: seq<byte>)
    requires LF !in a
    ensures Twin(a + b) == a + Twin(b)
  {
    if a == [] {
      assert a + b == b;
    } else {
      assert (a + b)[1..] == a[1..] + b;
      CrlfTwinPrefix(a[1..], b);
    }
  }

  lemma CrlfTwinLine(line: seq<byte>, rest: seq<byte>)
    requires LF !in line
    ensures Twin(line + [LF] + rest) == line + [CR] + [LF] + Twin(rest)
  {
    assert line + [LF] + rest == line + ([LF] + rest);
    CrlfTwinPrefix(line, [LF] + rest);
    assert ([LF] + rest)[1..] == rest;
  }

  /** A carriage-return-free text and its CRLF twin have the same lines. */
  lemma {:induction false} CrlfTwinLines(text: seq<byte>)
    requires CR !in text
    ensures LinesOf(Twin(text)) == LinesOf(text)
    decreases |text|
  {
    if text != [] {
      var k := NextBreak(text, 0, LF);
      var line := text[..k];
      if k == |text| {
        assert text == line + [];
        CrlfTwinPrefix(line, []);
      } else {
        var rest := text[k + 1..];
        calc {
          LinesOf(Twin(text));
          { CrlfTwinLine(line, rest); assert text == line + [LF] + rest; }
          LinesOf(line + [CR] + [LF] + Twin(rest));
          { StrLinesCons(line + [CR], Twin(rest), LF, CR); }
          [line] + LinesOf(Twin(rest));
          { CrlfTwinLines(rest); }
          [line] + LinesOf(rest);
          { StrLinesCons(line, rest, LF, CR); assert text == line + [LF] + rest; }
          LinesOf(text);
        }
      }
    }
  }

  /** Hence every line-range fingerprint is independent of the line endings. */
  lemma LineEndingIndependence(text: seq<byte>, start: u32, end: u32)
    requires CR !in text
    ensures Fp(Canonical(Twin(text), LineRange(start, end))) == Fp(Canonical(text, LineRange(start, end)))
  {
    CrlfTwinLines(text);
  }
}
