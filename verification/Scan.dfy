/** The move matcher: every window of a file whose fingerprint equals a target. */
module Scan {
  import opened Text
  import opened Fingerprint
  import opened LineIndexing
  import opened Sorting

  datatype Location = Location(path: string, startLine: u32, endLine: u32)
  datatype File = File(path: string, bytes: seq<byte>)
  datatype IndexedFile = IndexedFile(path: string, idx: LineIndex)

  /** Window height of a range, 0 for a degenerate one that selects nothing. */
  function LineRangeExtent(start: u32, end: u32): u32 {
    if start == 0 || end < start then 0 else end - start + 1
  }

  // --- Reference: filter every window by its fingerprint ---

  predicate Hit(content: seq<byte>, target: u64, confirm: seq<byte> -> bool) {
    Fp(content) == target && confirm(content)
  }

  function Emit(path: string, win: nat, extent: nat): Location
    requires win + extent <= U32_MAX && 0 < extent
  {
    Location(path, AsU32(win) + 1, AsU32(win) + AsU32(extent))
  }

  /** The matching windows among `lo .. hi - 1`, in positional order. */
  function Hits(path: string, lines: seq<seq<byte>>, extent: nat, lo: nat, hi: nat, target: u64,
                confirm: seq<byte> -> bool): seq<Location>
    requires 0 < extent && (lo < hi ==> hi - 1 + extent <= |lines| <= U32_MAX)
  {
    if hi <= lo then []
    else
      var win := hi - 1;
      var here := if Hit(Join(lines[win..win + extent], LF), target, confirm) then [Emit(path, win, extent)] else [];
      Hits(path, lines, extent, lo, hi - 1, target, confirm) + here
  }

  const ANY: seq<byte> -> bool := (_: seq<byte>) => true

  /** Larger buffers are refused by the index. */
  predicate Indexable(f: File) { |f.bytes| <= U32_MAX }

  function WindowCount(lines: seq<seq<byte>>, extent: nat): nat {
    if |lines| < extent then 0 else |lines| - extent + 1
  }

  function FileHits(f: File, extent: nat, target: u64): seq<Location>
    requires 0 < extent <= U32_MAX
  {
    if !Indexable(f) then []
    else
      var lines := LinesOf(f.bytes);
      StrLinesShape(f.bytes, LF, CR);
      Hits(f.path, lines, extent, 0, WindowCount(lines, extent), target, ANY)
  }

  function WholeHit(f: File, target: u64): seq<Location> {
    if Fp(f.bytes) == target then [Location(f.path, 0, 0)] else []
  }

  function WholeHits(target: u64): File -> seq<Location> { f => WholeHit(f, target) }

  function RangeHits(extent: nat, target: u64): File -> seq<Location>
    requires 0 < extent <= U32_MAX
  {
    f => FileHits(f, extent, target)
  }

  /** What `hits` finds in the first `n` files, file by file. */
  function PerFile(files: seq<File>, n: nat, hits: File -> seq<Location>): seq<Location>
    requires n <= |files|
  {
    if n == 0 then [] else PerFile(files, n - 1, hits) + hits(files[n - 1])
  }

  // --- Nearest-first order ---

  function AbsDiff(a: nat, b: nat): nat { if a < b then b - a else a - b }

  predicate NearLe(near: u32, a: Location, b: Location) {
    var da, db := AbsDiff(a.startLine, near), AbsDiff(b.startLine, near);
    da < db || (da == db && a.startLine <= b.startLine)
  }

  function SortNear(out: seq<Location>, near: u32): seq<Location> {
    Sort(out, (a, b) => NearLe(near, a, b))
  }

  function Matches(files: seq<File>, target: u64, extent: AnchorExtent, near: Option<u32>): seq<Location>
  {
    match extent
    case WholeFile => PerFile(files, |files|, WholeHits(target))
    case LineRange(start, end) =>
      var height := LineRangeExtent(start, end);
      if height == 0 then []
      else
        var found := PerFile(files, |files|, RangeHits(height, target));
        if near.Some? then SortNear(found, near.value) else found
  }

  /** One more window, given its content and fingerprint however computed. */
  lemma HitsStep(path: string, lines: seq<seq<byte>>, extent: nat, lo: nat, win: nat, target: u64,
                 confirm: seq<byte> -> bool, content: seq<byte>)
    requires 0 < extent && lo <= win && win + extent <= |lines| <= U32_MAX
    requires content == Join(lines[win..win + extent], LF)
    ensures Hits(path, lines, extent, lo, win + 1, target, confirm) ==
      Hits(path, lines, extent, lo, win, target, confirm)
      + if Fp(content) == target && confirm(content) then [Emit(path, win, extent)] else []
  {
  }

  lemma {:induction false} HitsSound(path: string, lines: seq<seq<byte>>, extent: nat, lo: nat, hi: nat, target: u64,
                                     loc: Location)
    returns (win: nat)
    requires 0 < extent && (lo < hi ==> hi - 1 + extent <= |lines| <= U32_MAX)
    requires loc in Hits(path, lines, extent, lo, hi, target, ANY)
    ensures lo <= win < hi && loc == Emit(path, win, extent) && Fp(Join(lines[win..win + extent], LF)) == target
    decreases hi
  {
    hide Join;
    HitsStep(path, lines, extent, lo, hi - 1, target, ANY, Join(lines[hi - 1..hi - 1 + extent], LF));
    if loc in Hits(path, lines, extent, lo, hi - 1, target, ANY) {
      win := HitsSound(path, lines, extent, lo, hi - 1, target, loc);
    } else {
      win := hi - 1;
    }
  }

  lemma {:induction false} HitsComplete(path: string, lines: seq<seq<byte>>, extent: nat, lo: nat, hi: nat,
                                        target: u64, win: nat)
    requires 0 < extent && (lo < hi ==> hi - 1 + extent <= |lines| <= U32_MAX)
    requires lo <= win < hi && Fp(Join(lines[win..win + extent], LF)) == target
    ensures Emit(path, win, extent) in Hits(path, lines, extent, lo, hi, target, ANY)
    decreases hi
  {
    if win < hi - 1 {
      HitsComplete(path, lines, extent, lo, hi - 1, target, win);
    }
  }

  /** Start lines strictly increase, up to a bound. */
  ghost predicate Ascends(s: seq<Location>, bound: nat) {
    && (forall i, j :: 0 <= i < j < |s| ==> s[i].startLine < s[j].startLine)
    && forall i :: 0 <= i < |s| ==> s[i].startLine <= bound
  }

  lemma AscendsSnoc(s: seq<Location>, bound: nat, here: seq<Location>, path: string, extent: nat)
    requires Ascends(s, bound) && 0 < extent && bound + extent <= U32_MAX
    requires here == [] || here == [Emit(path, bound, extent)]
    ensures Ascends(s + here, bound + 1)
  {
  }

  lemma NothingAscends(bound: nat)
    ensures Ascends([], bound)
  {
  }

  lemma {:induction false} HitsAscend(path: string, lines: seq<seq<byte>>, extent: nat, lo: nat, hi: nat, target: u64)
    requires 0 < extent && (lo < hi ==> hi - 1 + extent <= |lines| <= U32_MAX)
    ensures Ascends(Hits(path, lines, extent, lo, hi, target, ANY), hi)
    decreases hi
  {
    hide Ascends, Hit, Join;
    if lo < hi {
      var win := hi - 1;
      var content := Join(lines[win..win + extent], LF);
      HitsAscend(path, lines, extent, lo, win, target);
      HitsStep(path, lines, extent, lo, win, target, ANY, content);
      var here := if Fp(content) == target && ANY(content) then [Emit(path, win, extent)] else [];
      AscendsSnoc(Hits(path, lines, extent, lo, win, target, ANY), win, here, path, extent);
    } else {
      NothingAscends(hi);
    }
  }

  lemma WindowRange(lines: seq<seq<byte>>, win: nat, extent: nat, start: nat, end: nat)
    requires 0 < extent && win + extent <= |lines| && start == win + 1 && end == win + extent
    ensures JoinRange(lines, start, end) == Join(lines[win..win + extent], LF)
  {
  }

  lemma EmitShape(path: string, win: nat, extent: nat)
    requires win + extent <= U32_MAX && 0 < extent
    ensures Emit(path, win, extent) == Location(path, win + 1, win + extent)
  {
  }

  lemma HitsInRange(path: string, lines: seq<seq<byte>>, extent: nat, n: nat, target: u64, loc: Location)
    requires 0 < extent && n == WindowCount(lines, extent) && |lines| <= U32_MAX
    requires loc in Hits(path, lines, extent, 0, n, target, ANY)
    ensures loc.path == path && 1 <= loc.startLine && loc.endLine == loc.startLine - 1 + extent <= |lines|
    ensures Fp(JoinRange(lines, loc.startLine, loc.endLine)) == target
  {
    var win := HitsSound(path, lines, extent, 0, n, target, loc);
    EmitShape(path, win, extent);
    WindowRange(lines, win, extent, loc.startLine, loc.endLine);
  }

  lemma RangeInHits(path: string, lines: seq<seq<byte>>, extent: nat, n: nat, target: u64, win: nat, start: nat,
                    end: nat)
    requires 0 < extent && n == WindowCount(lines, extent) && |lines| <= U32_MAX
    requires win + extent <= |lines| && start == win + 1 && end == win + extent
    requires Fp(JoinRange(lines, start, end)) == target
    ensures Emit(path, win, extent) in Hits(path, lines, extent, 0, n, target, ANY)
  {
    assert Fp(Join(lines[win..win + extent], LF)) == target by {
      WindowRange(lines, win, extent, start, end);
    }
    HitsComplete(path, lines, extent, 0, n, target, win);
  }

  /** `loc` names a window of `extent` of the given lines. */
  predicate NamesWindow(path: string, lines: seq<seq<byte>>, extent: nat, loc: Location) {
    loc.path == path && 1 <= loc.startLine && loc.endLine == loc.startLine - 1 + extent <= |lines|
  }

  /** `loc` is a window of the lines with the target's fingerprint. */
  predicate IsMatch(path: string, lines: seq<seq<byte>>, extent: nat, target: u64, loc: Location) {
    NamesWindow(path, lines, extent, loc) && Fp(JoinRange(lines, loc.startLine, loc.endLine)) == target
  }

  lemma HitIsMatch(path: string, lines: seq<seq<byte>>, extent: nat, n: nat, target: u64, loc: Location)
    requires 0 < extent && n == WindowCount(lines, extent) && |lines| <= U32_MAX
    requires loc in Hits(path, lines, extent, 0, n, target, ANY)
    ensures IsMatch(path, lines, extent, target, loc)
  {
    HitsInRange(path, lines, extent, n, target, loc);
  }

  lemma MatchIsHit(path: string, lines: seq<seq<byte>>, extent: nat, n: nat, target: u64, loc: Location)
    requires 0 < extent && n == WindowCount(lines, extent) && |lines| <= U32_MAX
    requires IsMatch(path, lines, extent, target, loc)
    ensures loc in Hits(path, lines, extent, 0, n, target, ANY)
  {
    var win := loc.startLine - 1;
    assert win + extent <= |lines| && loc == Emit(path, win, extent);
    RangeInHits(path, lines, extent, n, target, win, loc.startLine, loc.endLine);
  }

  lemma HitsExact(path: string, lines: seq<seq<byte>>, extent: nat, n: nat, target: u64, loc: Location)
    requires 0 < extent && n == WindowCount(lines, extent) && |lines| <= U32_MAX
    ensures loc in Hits(path, lines, extent, 0, n, target, ANY) <==> IsMatch(path, lines, extent, target, loc)
  {
    if loc in Hits(path, lines, extent, 0, n, target, ANY) {
      HitIsMatch(path, lines, extent, n, target, loc);
    } else if IsMatch(path, lines, extent, target, loc) {
      MatchIsHit(path, lines, extent, n, target, loc);
    }
  }

  /** The reported locations of a file are exactly the windows with the target's
      fingerprint. */
  lemma FileHitsExact(f: File, extent: nat, target: u64, loc: Location)
    requires 0 < extent <= U32_MAX && Indexable(f)
    ensures loc in FileHits(f, extent, target) <==>
      NamesWindow(f.path, LinesOf(f.bytes), extent, loc) &&
        Fp(Canonical(f.bytes, LineRange(loc.startLine, loc.endLine))) == target
  {
    StrLinesShape(f.bytes, LF, CR);
    HitsExact(f.path, LinesOf(f.bytes), extent, WindowCount(LinesOf(f.bytes), extent), target, loc);
  }

  /** Each window is reported once, in positional order. */
  lemma FileHitsAscend(f: File, extent: nat, target: u64)
    requires 0 < extent <= U32_MAX && Indexable(f)
    ensures forall i, j :: 0 <= i < j < |FileHits(f, extent, target)| ==>
      FileHits(f, extent, target)[i].startLine < FileHits(f, extent, target)[j].startLine
  {
    StrLinesShape(f.bytes, LF, CR);
    HitsAscend(f.path, LinesOf(f.bytes), extent, 0, WindowCount(LinesOf(f.bytes), extent), target);
  }

  /** With `near`, the same locations sorted by (distance, start), and locations
      that tie on both keep their positional order: there is one such list. */
  lemma NearestFirst(found: seq<Location>, near: u32, r: seq<Location>)
    ensures r == SortNear(found, near) <==> StableArrangement(found, r, (a, b) => NearLe(near, a, b))
    ensures multiset(SortNear(found, near)) == multiset(found)
  {
    var le := (a, b) => NearLe(near, a, b);
    SortPermutes(found, le);
    StableSortUnique(found, r, le);
  }

  // --- The indexed scan ---

  /** `lines` are the lines of the indexed buffer. */
  ghost predicate LinesAre(idx: LineIndex, lines: seq<seq<byte>>)
    requires idx.OffsetsValid()
  {
    LineTable(idx.bytes, idx.Table(), lines)
  }

  lemma WindowSliceOf(bytes: seq<byte>, b: seq<Bound>, lines: seq<seq<byte>>, lo: nat, hi: nat, rs: nat, re: nat)
    requires LineTable(bytes, b, lines) && NoCr(bytes, 0, |bytes|)
    requires lo < hi <= |b| && rs == b[lo].lo && re == b[hi - 1].hi
    ensures rs <= re <= |bytes| && bytes[rs..re] == Join(lines[lo..hi], LF)
  {
    RegionOfLines(bytes, b, lines, lo, hi);
  }

  lemma TableAt(idx: LineIndex, i: nat)
    requires |idx.starts| == |idx.ends| && i < |idx.starts|
    ensures |idx.Table()| == |idx.starts| && idx.Table()[i] == Bound(idx.starts[i], idx.ends[i])
  {
  }

  /** In a carriage-return-free file a window is the slice between its offsets. */
  lemma WindowSlice(idx: LineIndex, lines: seq<seq<byte>>, extent: nat, win: nat)
    requires idx.OffsetsValid() && idx.lfClean && LinesAre(idx, lines)
    requires 0 < extent && win + extent <= |idx.starts|
    ensures idx.starts[win] <= idx.ends[win + extent - 1] <= |idx.bytes|
    ensures idx.bytes[idx.starts[win]..idx.ends[win + extent - 1]] == Join(lines[win..win + extent], LF)
  {
    hide LineTable, NoCr;
    var last := win + extent - 1;
    TableAt(idx, win);
    TableAt(idx, last);
    WindowSliceOf(idx.bytes, idx.Table(), lines, win, win + extent, idx.starts[win], idx.ends[last]);
  }

  /** The fingerprint of a window by prefix hashes, in constant time. */
  function TableFp(idx: LineIndex, t: PrefixTables, extent: nat, win: nat): u64
    requires |idx.starts| == |idx.ends| == |t.atStart| == |t.atEnd|
    requires 0 < extent && win + extent <= |idx.starts| && idx.starts[win] <= idx.ends[win + extent - 1]
    requires (idx.ends[win + extent - 1] - idx.starts[win]) / 256 < |t.powHi|
  {
    var rs, last := idx.starts[win], win + extent - 1;
    var re := idx.ends[last];
    WrapSub(t.atEnd[last], WrapMul(t.atStart[win], PowBase(t.powHi, re - rs)))
  }

  lemma TableFpIsFp(idx: LineIndex, t: PrefixTables, lines: seq<seq<byte>>, extent: nat, win: nat)
    requires idx.OffsetsValid() && idx.TablesValid(t) && idx.lfClean && LinesAre(idx, lines)
    requires 0 < extent && win + extent <= |idx.starts|
    ensures idx.starts[win] <= idx.ends[win + extent - 1] <= |idx.bytes|
    ensures (idx.ends[win + extent - 1] - idx.starts[win]) / 256 < |t.powHi|
    ensures idx.bytes[idx.starts[win]..idx.ends[win + extent - 1]] == Join(lines[win..win + extent], LF)
    ensures TableFp(idx, t, extent, win) == Fp(idx.bytes[idx.starts[win]..idx.ends[win + extent - 1]])
  {
    hide Splits, NoCr, Join;
    WindowSlice(idx, lines, extent, win);
    RollingWindow(idx.bytes, idx.starts[win], idx.ends[win + extent - 1], t.powHi);
  }

  method WindowByTables(idx: LineIndex, t: PrefixTables, extent: nat, win: nat, ghost lines: seq<seq<byte>>)
    returns (content: seq<byte>, fp: u64)
    requires idx.OffsetsValid() && idx.lfClean && idx.TablesValid(t) && LinesAre(idx, lines)
    requires 0 < extent && win + extent <= |idx.starts|
    ensures content == Join(lines[win..win + extent], LF) && fp == Fp(content)
  {
    TableFpIsFp(idx, t, lines, extent, win);
    content := idx.bytes[idx.starts[win]..idx.ends[win + extent - 1]];
    fp := TableFp(idx, t, extent, win);
  }

  method WindowByHorner(idx: LineIndex, extent: nat, win: nat, ghost lines: seq<seq<byte>>)
    returns (content: seq<byte>, fp: u64)
    requires idx.OffsetsValid() && idx.lfClean && LinesAre(idx, lines)
    requires 0 < extent && win + extent <= |idx.starts|
    ensures content == Join(lines[win..win + extent], LF) && fp == Fp(content)
  {
    WindowSlice(idx, lines, extent, win);
    content := idx.bytes[idx.starts[win]..idx.ends[win + extent - 1]];
    fp := Horner(content);
  }

  method ScanByTables(f: IndexedFile, t: PrefixTables, extent: nat, winLo: nat, winHi: nat, target: u64,
                      confirm: seq<byte> -> bool, ghost lines: seq<seq<byte>>) returns (out: seq<Location>)
    requires f.idx.OffsetsValid() && f.idx.lfClean && f.idx.TablesValid(t) && LinesAre(f.idx, lines)
    requires 0 < extent && winLo <= winHi && winHi + extent <= |f.idx.starts|
    ensures out == Hits(f.path, lines, extent, winLo, winHi + 1, target, confirm)
  {
    out := [];
    for win := winLo to winHi + 1
      invariant out == Hits(f.path, lines, extent, winLo, win, target, confirm)
    {
      var content, fp := WindowByTables(f.idx, t, extent, win, lines);
      HitsStep(f.path, lines, extent, winLo, win, target, confirm, content);
      if fp == target && confirm(content) {
        out := out + [Emit(f.path, win, extent)];
      }
    }
  }

  method ScanByHorner(f: IndexedFile, extent: nat, winLo: nat, winHi: nat, target: u64,
                      confirm: seq<byte> -> bool, ghost lines: seq<seq<byte>>) returns (out: seq<Location>)
    requires f.idx.OffsetsValid() && f.idx.lfClean && LinesAre(f.idx, lines)
    requires 0 < extent && winLo <= winHi && winHi + extent <= |f.idx.starts|
    ensures out == Hits(f.path, lines, extent, winLo, winHi + 1, target, confirm)
  {
    out := [];
    for win := winLo to winHi + 1
      invariant out == Hits(f.path, lines, extent, winLo, win, target, confirm)
    {
      var content, fp := WindowByHorner(f.idx, extent, win, lines);
      HitsStep(f.path, lines, extent, winLo, win, target, confirm, content);
      if fp == target && confirm(content) {
        out := out + [Emit(f.path, win, extent)];
      }
    }
  }

  method ScanByJoin(path: string, lines: seq<seq<byte>>, extent: nat, winLo: nat, winHi: nat, target: u64,
                    confirm: seq<byte> -> bool) returns (out: seq<Location>)
    requires 0 < extent && winLo <= winHi && winHi + extent <= |lines| <= U32_MAX
    ensures out == Hits(path, lines, extent, winLo, winHi + 1, target, confirm)
  {
    out := [];
    for win := winLo to winHi + 1
      invariant out == Hits(path, lines, extent, winLo, win, target, confirm)
    {
      var joined := Join(lines[win..win + extent], LF);
      var fp := Horner(joined);
      HitsStep(path, lines, extent, winLo, win, target, confirm, joined);
      if fp == target && confirm(joined) {
        out := out + [Emit(path, win, extent)];
      }
    }
  }

  lemma IndexLines(idx: LineIndex)
    requires idx.OffsetsValid()
    ensures LinesAre(idx, LinesOf(idx.bytes)) && |LinesOf(idx.bytes)| == |idx.starts|
  {
    SplitsUnique(idx.bytes, idx.Table());
    BoundsLineTable(idx.bytes);
  }

  /** Three ways to fingerprint a window, one answer. */
  method ScanOneFileFpFiltered(f: IndexedFile, extent: nat, winLo: nat, winHi: nat, target: u64,
                               confirm: seq<byte> -> bool) returns (out: seq<Location>)
    requires f.idx.Valid() && 0 < extent && winLo <= winHi && winHi + extent <= |LinesOf(f.idx.bytes)| <= U32_MAX
    modifies f.idx`fpTables
    ensures f.idx.Valid()
    ensures out == Hits(f.path, LinesOf(f.idx.bytes), extent, winLo, winHi + 1, target, confirm)
  {
    var lines := LinesOf(f.idx.bytes);
    IndexLines(f.idx);
    if f.idx.lfClean {
      var tables := f.idx.PrefilterTables();
      match tables {
        case Some(t) => out := ScanByTables(f, t, extent, winLo, winHi, target, confirm, lines);
        case None => out := ScanByHorner(f, extent, winLo, winHi, target, confirm, lines);
      }
    } else {
      out := ScanByJoin(f.path, lines, extent, winLo, winHi, target, confirm);
    }
  }

  function Contents(files: seq<IndexedFile>): (fs: seq<File>)
    ensures |fs| == |files|
    ensures forall i :: 0 <= i < |files| ==> fs[i] == File(files[i].path, files[i].idx.bytes)
  {
    seq(|files|, i requires 0 <= i < |files| => File(files[i].path, files[i].idx.bytes))
  }

  ghost predicate ContentsAre(files: seq<IndexedFile>, fs: seq<File>) {
    |fs| == |files| && forall i :: 0 <= i < |files| ==> fs[i] == File(files[i].path, files[i].idx.bytes)
  }

  /** The indices of the first `n` files are valid and lie in `repr`. */
  ghost predicate AllValid(files: seq<IndexedFile>, n: nat, repr: set<LineIndex>)
    requires n <= |files|
    reads repr
  {
    n == 0 || (AllValid(files, n - 1, repr) && files[n - 1].idx in repr && files[n - 1].idx.Valid())
  }

  lemma {:induction false} ValidAt(files: seq<IndexedFile>, n: nat, repr: set<LineIndex>, i: nat)
    requires i < n <= |files| && AllValid(files, n, repr)
    ensures files[i].idx in repr && files[i].idx.Valid()
  {
    if i < n - 1 {
      ValidAt(files, n - 1, repr, i);
    }
  }

  ghost predicate EachValid(files: seq<IndexedFile>, repr: set<LineIndex>)
    reads repr
  {
    forall i :: 0 <= i < |files| ==> files[i].idx in repr && files[i].idx.Valid()
  }

  lemma EachFromAll(files: seq<IndexedFile>, repr: set<LineIndex>)
    requires AllValid(files, |files|, repr)
    ensures EachValid(files, repr)
  {
    forall i | 0 <= i < |files|
      ensures files[i].idx in repr && files[i].idx.Valid()
    {
      ValidAt(files, |files|, repr, i);
    }
  }

  lemma {:induction false} AllFromEach(files: seq<IndexedFile>, n: nat, repr: set<LineIndex>)
    requires n <= |files| && EachValid(files, repr)
    ensures AllValid(files, n, repr)
  {
    if n > 0 {
      AllFromEach(files, n - 1, repr);
    }
  }

  method ScanWholeFile(files: seq<IndexedFile>, n: nat, target: u64, ghost f: File, ghost repr: set<LineIndex>)
    returns (found: seq<Location>)
    requires AllValid(files, |files|, repr) && n < |files| && f == File(files[n].path, files[n].idx.bytes)
    modifies repr
    ensures AllValid(files, |files|, repr)
    ensures found == WholeHits(target)(f)
  {
    EachFromAll(files, repr);
    var fp := files[n].idx.WholeFileFingerprint();
    AllFromEach(files, |files|, repr);
    found := if fp == target then [Location(files[n].path, 0, 0)] else [];
  }

  method ScanWholeFiles(files: seq<IndexedFile>, target: u64, ghost fs: seq<File>, ghost repr: set<LineIndex>)
    returns (out: seq<Location>)
    requires ContentsAre(files, fs) && AllValid(files, |files|, repr)
    modifies repr
    ensures AllValid(files, |files|, repr)
    ensures out == PerFile(fs, |fs|, WholeHits(target))
  {
    out := [];
    for n := 0 to |files|
      invariant AllValid(files, |files|, repr)
      invariant out == PerFile(fs, n, WholeHits(target))
    {
      var found := ScanWholeFile(files, n, target, fs[n], repr);
      out := out + found;
    }
  }

  method ScanFile(file: IndexedFile, height: nat, target: u64, ghost f: File) returns (found: seq<Location>)
    requires 0 < height <= U32_MAX && f == File(file.path, file.idx.bytes)
    requires file.idx.Valid()
    modifies file.idx`fpTables
    ensures file.idx.Valid()
    ensures found == FileHits(f, height, target)
  {
    IndexLines(file.idx);
    var n := |file.idx.starts|;
    if n < height {
      return [];
    }
    found := ScanOneFileFpFiltered(file, height, 0, n - height, target, ANY);
  }

  method ScanNth(files: seq<IndexedFile>, n: nat, height: nat, target: u64, ghost f: File, ghost repr: set<LineIndex>)
    returns (found: seq<Location>)
    requires AllValid(files, |files|, repr) && n < |files|
    requires 0 < height <= U32_MAX && f == File(files[n].path, files[n].idx.bytes)
    modifies repr
    ensures AllValid(files, |files|, repr)
    ensures found == RangeHits(height, target)(f)
  {
    EachFromAll(files, repr);
    found := ScanFile(files[n], height, target, f);
    AllFromEach(files, |files|, repr);
  }

  method ScanLineRange(files: seq<IndexedFile>, target: u64, height: nat, ghost fs: seq<File>,
                       ghost repr: set<LineIndex>)
    returns (out: seq<Location>)
    requires 0 < height <= U32_MAX && ContentsAre(files, fs) && AllValid(files, |files|, repr)
    modifies repr
    ensures AllValid(files, |files|, repr)
    ensures out == PerFile(fs, |fs|, RangeHits(height, target))
  {
    hide AllValid, RangeHits;
    out := [];
    for n := 0 to |files|
      invariant AllValid(files, |files|, repr)
      invariant out == PerFile(fs, n, RangeHits(height, target))
    {
      var found := ScanNth(files, n, height, target, fs[n], repr);
      out := out + found;
    }
  }

  /** No indexed file is skipped for its size. */
  lemma AllIndexable(files: seq<IndexedFile>, repr: set<LineIndex>, i: nat)
    requires AllValid(files, |files|, repr) && i < |files|
    ensures Indexable(Contents(files)[i])
  {
    ValidAt(files, |files|, repr, i);
  }

  /** Every scan entry point: cached or not, the answer is the reference filter. */
  method ScanIndexedRk64(files: seq<IndexedFile>, target: u64, extent: AnchorExtent, near: Option<u32>,
                         ghost repr: set<LineIndex>)
    returns (out: seq<Location>)
    requires AllValid(files, |files|, repr)
    modifies repr
    ensures AllValid(files, |files|, repr)
    ensures out == Matches(Contents(files), target, extent, near)
  {
    match extent
    case WholeFile =>
      out := ScanWholeFiles(files, target, Contents(files), repr);
    case LineRange(start, end) =>
      var height := LineRangeExtent(start, end);
      if height == 0 {
        return [];
      }
      out := ScanLineRange(files, target, height, Contents(files), repr);
      if near.Some? {
        out := SortNear(out, near.value);
      }
  }

  // --- Line-ending independence of the scan ---

  /** A file and its CRLF twin are matched at the same places, although one is
      scanned by prefix tables and the other by canonical joins. */
  lemma TwinScansAgree(path: string, text: seq<byte>, target: u64, start: u32, end: u32, near: Option<u32>)
    requires CR !in text && Indexable(File(path, text)) && Indexable(File(path, Twin(text)))
    ensures Matches([File(path, Twin(text))], target, LineRange(start, end), near)
         == Matches([File(path, text)], target, LineRange(start, end), near)
  {
    var f, g, height := File(path, text), File(path, Twin(text)), LineRangeExtent(start, end);
    CrlfTwinLines(text);
    if height > 0 {
      var hits := RangeHits(height, target);
      assert hits(f) == hits(g);
      assert PerFile([f], 1, hits) == PerFile([f], 0, hits) + hits(f);
      assert PerFile([g], 1, hits) == PerFile([g], 0, hits) + hits(g);
    }
  }
}
