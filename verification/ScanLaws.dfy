/** What a scan reports, said of the files alone. */
module ScanLaws {
  import opened Text
  import opened Fingerprint
  import opened LineIndexing
  import opened Sorting
  import opened Scan

  /** `loc` names `height` consecutive lines of an indexable file whose joined
      content has the target fingerprint. */
  predicate HoldsWindow(f: File, height: nat, target: u64, loc: Location) {
    && |f.bytes| <= U32_MAX && loc.path == f.path
    && 1 <= loc.startLine <= loc.endLine <= |LinesOf(f.bytes)| && loc.endLine - loc.startLine + 1 == height
    && Fp(Join(LinesOf(f.bytes)[loc.startLine - 1..loc.endLine], LF)) == target
  }

  lemma FileReports(f: File, height: nat, target: u64, loc: Location)
    requires 0 < height <= U32_MAX
    ensures loc in FileHits(f, height, target) <==> HoldsWindow(f, height, target, loc)
  {
    if Indexable(f) {
      FileHitsExact(f, height, target, loc);
    }
  }

  lemma {:induction false} PerFileHolds(files: seq<File>, n: nat, hits: File -> seq<Location>, loc: Location)
    requires n <= |files|
    ensures loc in PerFile(files, n, hits) <==> exists i :: 0 <= i < n && loc in hits(files[i])
  {
    if n > 0 {
      PerFileHolds(files, n - 1, hits, loc);
    }
  }

  lemma RangeReports(files: seq<File>, height: nat, target: u64, loc: Location)
    requires 0 < height <= U32_MAX
    ensures loc in PerFile(files, |files|, RangeHits(height, target)) <==>
      exists i :: 0 <= i < |files| && HoldsWindow(files[i], height, target, loc)
  {
    hide HoldsWindow, FileHits;
    PerFileHolds(files, |files|, RangeHits(height, target), loc);
    forall i | 0 <= i < |files|
      ensures loc in RangeHits(height, target)(files[i]) <==> HoldsWindow(files[i], height, target, loc)
    {
      FileReports(files[i], height, target, loc);
    }
  }

  lemma NearKeeps(found: seq<Location>, near: u32, loc: Location)
    ensures loc in SortNear(found, near) <==> loc in found
  {
    SortPermutes(found, (a, b) => NearLe(near, a, b));
  }

  /** A range of lines is matched by exactly the windows of its own height and
      content, with a near line or without. */
  lemma RangeMatches(files: seq<File>, target: u64, start: u32, end: u32, near: Option<u32>, loc: Location)
    requires 1 <= start <= end
    ensures loc in Matches(files, target, LineRange(start, end), near) <==>
      exists i :: 0 <= i < |files| && HoldsWindow(files[i], end - start + 1, target, loc)
  {
    hide HoldsWindow, SortNear, PerFile, RangeHits;
    RangeReports(files, end - start + 1, target, loc);
    if near.Some? {
      NearKeeps(PerFile(files, |files|, RangeHits(end - start + 1, target)), near.value, loc);
    }
  }

  /** A range that selects no line matches nothing. */
  lemma EmptyRangeMatchesNothing(files: seq<File>, target: u64, start: u32, end: u32, near: Option<u32>)
    requires start == 0 || end < start
    ensures Matches(files, target, LineRange(start, end), near) == []
  {
  }

  /** An anchor that did not move is found where it is. */
  lemma FindsItself(files: seq<File>, i: nat, start: u32, end: u32, near: Option<u32>)
    requires i < |files| && |files[i].bytes| <= U32_MAX && 1 <= start <= end <= |LinesOf(files[i].bytes)|
    ensures var target := Fp(Canonical(files[i].bytes, LineRange(start, end)));
      Location(files[i].path, start, end) in Matches(files, target, LineRange(start, end), near)
  {
    var loc, target := Location(files[i].path, start, end), Fp(Canonical(files[i].bytes, LineRange(start, end)));
    assert HoldsWindow(files[i], end - start + 1, target, loc);
    RangeMatches(files, target, start, end, near, loc);
  }

  /** A whole file is matched by exactly the files with its fingerprint. */
  lemma WholeMatches(files: seq<File>, target: u64, near: Option<u32>, loc: Location)
    ensures loc in Matches(files, target, WholeFile, near) <==>
      exists i :: 0 <= i < |files| && Fp(files[i].bytes) == target && loc == Location(files[i].path, 0, 0)
  {
    PerFileHolds(files, |files|, WholeHits(target), loc);
    forall i | 0 <= i < |files|
      ensures loc in WholeHits(target)(files[i]) <==>
        Fp(files[i].bytes) == target && loc == Location(files[i].path, 0, 0)
    {
    }
  }

  // --- Order ---

  function Distance(line: u32, near: u32): nat { if line < near then near - line else line - near }

  /** Nearest first, and of two at one distance the upper one first. */
  lemma NearestComeFirst(files: seq<File>, target: u64, start: u32, end: u32, near: u32, i: nat, j: nat)
    requires var found := Matches(files, target, LineRange(start, end), Some(near)); i < j < |found|
    ensures var found := Matches(files, target, LineRange(start, end), Some(near));
      var x, y := found[i].startLine, found[j].startLine;
      Distance(x, near) < Distance(y, near) || (Distance(x, near) == Distance(y, near) && x <= y)
  {
    var height := LineRangeExtent(start, end);
    if height > 0 {
      var found := PerFile(files, |files|, RangeHits(height, target));
      SortSorted(found, (a, b) => NearLe(near, a, b));
      assert ((a, b) => NearLe(near, a, b))(SortNear(found, near)[i], SortNear(found, near)[j]);
    }
  }

  lemma {:induction false} PerFileConcat(a: seq<File>, b: seq<File>, n: nat, hits: File -> seq<Location>)
    requires n <= |b|
    ensures PerFile(a + b, |a| + n, hits) == PerFile(a, |a|, hits) + PerFile(b, n, hits)
  {
    if n == 0 {
      PerFileFront(a, b, |a|, hits);
    } else {
      PerFileConcat(a, b, n - 1, hits);
    }
  }

  lemma {:induction false} PerFileFront(a: seq<File>, b: seq<File>, n: nat, hits: File -> seq<Location>)
    requires n <= |a|
    ensures PerFile(a + b, n, hits) == PerFile(a, n, hits)
  {
    if n > 0 {
      PerFileFront(a, b, n - 1, hits);
    }
  }

  /** Without a near line locations come file by file. */
  lemma FilesInOrder(a: seq<File>, b: seq<File>, target: u64, extent: AnchorExtent)
    ensures Matches(a + b, target, extent, None) == Matches(a, target, extent, None) + Matches(b, target, extent, None)
  {
    hide FileHits, WholeHit;
    match extent
    case WholeFile => PerFileConcat(a, b, |b|, WholeHits(target));
    case LineRange(start, end) =>
      var height := LineRangeExtent(start, end);
      if height > 0 {
        PerFileConcat(a, b, |b|, RangeHits(height, target));
      }
  }

  lemma OnlyFile(f: File, hits: File -> seq<Location>)
    ensures PerFile([f], 1, hits) == hits(f)
  {
    assert PerFile([f], 0, hits) == [];
  }

  /** Within a file they come from top to bottom, each once. */
  lemma WindowsInOrder(f: File, target: u64, extent: AnchorExtent, i: nat, j: nat)
    requires i < j < |Matches([f], target, extent, None)|
    ensures Matches([f], target, extent, None)[i].startLine < Matches([f], target, extent, None)[j].startLine
  {
    hide FileHits, PerFile;
    match extent
    case WholeFile => OnlyFile(f, WholeHits(target));
    case LineRange(start, end) =>
      var height := LineRangeExtent(start, end);
      if height > 0 {
        OnlyFile(f, RangeHits(height, target));
        TooLargeReportsNothing(f, height, target);
        if Indexable(f) {
          FileHitsAscend(f, height, target);
        }
      }
  }

  lemma TooLargeReportsNothing(f: File, height: nat, target: u64)
    requires 0 < height <= U32_MAX
    ensures !Indexable(f) ==> FileHits(f, height, target) == []
  {
  }
}
