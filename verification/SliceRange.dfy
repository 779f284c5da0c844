/** Extracting the text of an anchored range, and what it shares with hashing it. */
module SliceRange {
  import opened Text
  import opened Fingerprint
  import opened LineIndexing

  datatype Slice = Text(text: seq<byte>) | InvalidAnchor

  /** The lines a range selects; line 0 counts as line 1 here. */
  function Selected(bytes: seq<byte>, start: u32, end: u32): seq<seq<byte>> {
    var lines := LinesOf(bytes);
    var lo: nat, hi: nat := if start == 0 then 0 else start - 1, Min(end, |lines|);
    if lo < hi then lines[lo..hi] else []
  }

  /** Each selected line with a line feed; a range past the end is an error, not
      an empty text. */
  method SliceLineRange(bytes: seq<byte>, start: u32, end: u32) returns (r: Slice)
    ensures r == if Selected(bytes, start, end) == [] then InvalidAnchor
      else Text(Unlines(Selected(bytes, start, end), LF))
  {
    var lines := LinesOf(bytes);
    var lo: nat := if start == 0 then 0 else start - 1;
    var hi := Min(end, |lines|);
    if lo >= hi {
      return InvalidAnchor;
    }
    var out: seq<byte> := [];
    for i := lo to hi
      invariant out == Unlines(lines[lo..i], LF)
    {
      assert lines[lo..i + 1] == lines[lo..i] + [lines[i]];
      UnlinesAppend(lines[lo..i], [lines[i]], LF);
      assert Unlines([lines[i]], LF) == lines[i] + [LF] + Unlines([], LF);
      out := out + lines[i] + [LF];
    }
    r := Text(out);
  }

  /** The extracted text is the hashed content and one line feed. */
  lemma SliceIsHashedContent(bytes: seq<byte>, start: u32, end: u32)
    requires start > 0 && Selected(bytes, start, end) != []
    ensures Unlines(Selected(bytes, start, end), LF) == Canonical(bytes, LineRange(start, end)) + [LF]
  {
    UnlinesIsJoin(Selected(bytes, start, end), LF);
  }

  lemma LfFree(bytes: seq<byte>, start: u32, end: u32, i: nat)
    requires i < |Selected(bytes, start, end)|
    ensures LF !in Selected(bytes, start, end)[i]
  {
    StrLinesShape(bytes, LF, CR);
    var lo := if start == 0 then 0 else start - 1;
    assert Selected(bytes, start, end)[i] == LinesOf(bytes)[lo + i];
    assert LinesOf(bytes)[lo + i] in LinesOf(bytes);
  }

  lemma {:induction false} UnlinesKeepsLines(lines: seq<seq<byte>>, i: nat)
    requires i < |lines| && forall k :: 0 <= k < |lines| ==> LF !in lines[k]
    ensures |StrLines(Unlines(lines, LF), LF, CR)| == |lines|
    ensures StrLines(Unlines(lines, LF), LF, CR)[i] == StripCr(lines[i], CR)
  {
    var rest := Unlines(lines[1..], LF);
    StrLinesCons(lines[0], rest, LF, CR);
    if |lines| == 1 {
      assert rest == [];
    } else {
      UnlinesKeepsLines(lines[1..], if i == 0 then 0 else i - 1);
    }
  }

  /** Splitting the extracted text again gives the same lines, exactly when none of
      them still ends in a carriage return. */
  lemma SliceSplitsBack(bytes: seq<byte>, start: u32, end: u32)
    requires Selected(bytes, start, end) != []
    ensures LinesOf(Unlines(Selected(bytes, start, end), LF)) == Selected(bytes, start, end) <==>
      forall i :: 0 <= i < |Selected(bytes, start, end)| ==>
        StripCr(Selected(bytes, start, end)[i], CR) == Selected(bytes, start, end)[i]
  {
    var lines := Selected(bytes, start, end);
    var again := LinesOf(Unlines(lines, LF));
    forall i | 0 <= i < |lines|
      ensures LF !in lines[i]
    {
      LfFree(bytes, start, end, i);
    }
    forall i | 0 <= i < |lines|
      ensures |again| == |lines| && again[i] == StripCr(lines[i], CR)
    {
      UnlinesKeepsLines(lines, i);
    }
    assert |again| == |lines| by {
      UnlinesKeepsLines(lines, 0);
    }
  }
}
