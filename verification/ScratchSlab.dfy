/** Laying out and filling the scratch slab of the structural-equivalence kernel. */
module ScratchSlab {
  import opened Machine
  import opened Bytes
  import opened AlignUp

  datatype SlabError =
    | BadAlignment(error: AlignError)
    | SpanOverflow
    | LengthOverflow
    | NoRoom
    | OutsideSlab
    | WrongLength

  // ----- the plan, in unbounded arithmetic -----

  /** Where a span begins and ends. */
  datatype Span = Span(start: nat, end: nat)

  function UpToFour(n: nat): (r: nat)
    ensures n <= r < n + 4 && r % 4 == 0
  {
    (n + 3) / 4 * 4
  }

  function UpToEight(n: nat): (r: nat)
    ensures n <= r < n + 8 && r % 8 == 0
  {
    (n + 7) / 8 * 8
  }

  /** The first place at or after `cursor` with this alignment, four or eight. */
  function Place(cursor: nat, len: nat, align: nat): (s: Span)
    requires align == 4 || align == 8
    ensures cursor <= s.start < cursor + align && s.end == s.start + len && s.start % align == 0
  {
    var start := if align == 4 then UpToFour(cursor) else UpToEight(cursor);
    Span(start, start + len)
  }

  datatype Layout = Layout(words: Span, rows: Span, pairs: Span, count: Span)

  function Plan(wordCount: nat, rowCount: nat, pairBytes: nat, counterBytes: nat): Layout {
    var words := Place(0, Max(4 * wordCount, 4), 4);
    var rows := Place(words.end, Max(4 * rowCount, 4), 4);
    var pairs := Place(rows.end, Max(pairBytes, 8), 8);
    var count := Place(pairs.end, Max(counterBytes, 8), 8);
    Layout(words, rows, pairs, count)
  }

  /** The spans are ascending and disjoint, aligned to 4, 4, 8 and 8, and each begins
      at the least aligned place after the one before it. */
  lemma PlanIsTight(wordCount: nat, rowCount: nat, pairBytes: nat, counterBytes: nat)
    ensures
      var l := Plan(wordCount, rowCount, pairBytes, counterBytes);
      && l.words.start == 0 && l.words.end < l.rows.end && l.words.end <= l.rows.start
      && l.rows.end <= l.pairs.start && l.pairs.end <= l.count.start
      && l.words.start < l.words.end && l.rows.start < l.rows.end && l.pairs.start < l.pairs.end
      && l.count.start < l.count.end
      && l.words.start % 4 == 0 && l.rows.start % 4 == 0 && l.pairs.start % 8 == 0 && l.count.start % 8 == 0
      && (forall p: nat | l.words.end <= p && p % 4 == 0 :: l.rows.start <= p)
      && (forall p: nat | l.rows.end <= p && p % 8 == 0 :: l.pairs.start <= p)
      && (forall p: nat | l.pairs.end <= p && p % 8 == 0 :: l.count.start <= p)
      && l.words.end - l.words.start >= 4 * wordCount && l.rows.end - l.rows.start >= 4 * rowCount
      && l.pairs.end - l.pairs.start >= pairBytes && l.count.end - l.count.start >= counterBytes
  {
    var l := Plan(wordCount, rowCount, pairBytes, counterBytes);
    hide Place;
    forall p: nat | l.words.end <= p && p % 4 == 0
      ensures l.rows.start <= p
    {
      NextMultiple(l.words.end, l.rows.start, p, 4);
    }
    forall p: nat | l.rows.end <= p && p % 8 == 0
      ensures l.pairs.start <= p
    {
      NextMultiple(l.rows.end, l.pairs.start, p, 8);
    }
    forall p: nat | l.pairs.end <= p && p % 8 == 0
      ensures l.count.start <= p
    {
      NextMultiple(l.pairs.end, l.count.start, p, 8);
    }
  }

  /** Four spans in this order, disjoint, aligned to 4, 4, 8 and 8, with room for the words,
      the rows, the pairs and the counter, and never empty. */
  predicate IsLayout(l: Layout, wordCount: nat, rowCount: nat, pairBytes: nat, counterBytes: nat) {
    && l.words.start % 4 == 0 && l.rows.start % 4 == 0 && l.pairs.start % 8 == 0 && l.count.start % 8 == 0
    && l.words.end <= l.rows.start && l.rows.end <= l.pairs.start && l.pairs.end <= l.count.start
    && l.words.start + 4 * wordCount <= l.words.end && l.words.start + 4 <= l.words.end
    && l.rows.start + 4 * rowCount <= l.rows.end && l.rows.start + 4 <= l.rows.end
    && l.pairs.start + pairBytes <= l.pairs.end && l.pairs.start + 8 <= l.pairs.end
    && l.count.start + counterBytes <= l.count.end && l.count.start + 8 <= l.count.end
  }

  /** The plan is such a layout, and no other one starts or ends any span earlier. */
  lemma PlanIsLeast(wordCount: nat, rowCount: nat, pairBytes: nat, counterBytes: nat, other: Layout)
    ensures IsLayout(Plan(wordCount, rowCount, pairBytes, counterBytes), wordCount, rowCount, pairBytes, counterBytes)
    ensures
      var l := Plan(wordCount, rowCount, pairBytes, counterBytes);
      IsLayout(other, wordCount, rowCount, pairBytes, counterBytes) ==>
        && l.words.start <= other.words.start && l.words.end <= other.words.end
        && l.rows.start <= other.rows.start && l.rows.end <= other.rows.end
        && l.pairs.start <= other.pairs.start && l.pairs.end <= other.pairs.end
        && l.count.start <= other.count.start && l.count.end <= other.count.end
  {
    PlanIsTight(wordCount, rowCount, pairBytes, counterBytes);
    hide UpToFour, UpToEight;
    var l := Plan(wordCount, rowCount, pairBytes, counterBytes);
    if IsLayout(other, wordCount, rowCount, pairBytes, counterBytes) {
      assert l.words.end <= other.words.end;
      assert l.rows.start <= other.rows.start && l.rows.end <= other.rows.end;
      assert l.pairs.start <= other.pairs.start && l.pairs.end <= other.pairs.end;
    }
  }

  lemma NextMultiple(from: nat, start: nat, p: nat, align: nat)
    requires align == 4 || align == 8
    requires start < from + align && start % align == 0 && from <= p && p % align == 0
    ensures start <= p
  {
  }

  // ----- reserving spans -----

  /** The next free byte of the slab. */
  class Cursor {
    var at: u64

    constructor ()
      ensures at == 0
    {
      at := 0;
    }

    /** Succeeds exactly when the placed span ends within the address range. */
    method ReserveAlignedSpan(len: u64, align: u64) returns (r: Result<u64, SlabError>)
      requires align == 4 || align == 8
      modifies this
      ensures
        var span := Place(old(at), len, align);
        if span.end <= U64_MAX then r == Ok(span.start) && at == span.end
        else
          && at == old(at)
          && r == Err(if span.start <= U64_MAX then SpanOverflow else BadAlignment(AlignOverflow))
    {
      var aligned := Align(at, align);
      ghost var span := Place(at, len, align);
      assert aligned == if span.start <= U64_MAX then Ok(span.start) else Err(AlignOverflow) by {
        AlignPlaces(at, len, align);
      }
      hide Align, Place;
      if aligned.Err? {
        return Err(BadAlignment(aligned.error));
      }
      var end := CheckedAdd(aligned.value, len);
      if end.None? {
        return Err(SpanOverflow);
      }
      at := end.value;
      r := Ok(aligned.value);
    }
  }

  /** The mask arithmetic finds the placed start. */
  lemma AlignPlaces(cursor: u64, len: nat, align: nat)
    requires align == 4 || align == 8
    ensures
      var span := Place(cursor, len, align);
      Align(cursor, align) == if span.start <= U64_MAX then Ok(span.start) else Err(AlignOverflow)
  {
    assert Power(2) == 4 && Power(3) == 8;
    hide Align, Power;
    var span := Place(cursor, len, align);
    if align == 4 {
      AlignIsLeastMultiple(cursor, 2, span.start / 4);
    } else {
      AlignIsLeastMultiple(cursor, 3, span.start / 8);
    }
  }

  method U32WordBytesLen(count: nat) returns (r: Result<u64, SlabError>)
    ensures r == if 4 * count <= U64_MAX then Ok(4 * count) else Err(LengthOverflow)
  {
    if 4 * count > U64_MAX {
      return Err(LengthOverflow);
    }
    r := Ok(4 * count);
  }

  // ----- writing and reading words -----

  /** `after` is `before` with `patch` written at `offset`. */
  ghost predicate Patched(before: seq<u8>, after: seq<u8>, offset: nat, patch: seq<u8>) {
    && |after| == |before| && offset + |patch| <= |before|
    && after == before[..offset] + patch + before[offset + |patch|..]
  }

  /** Write words in place; nothing is written unless all of them fit. */
  method WriteU32WordsAt(bytes: array<u8>, offset: u64, words: seq<u32>) returns (r: Result<(), SlabError>)
    modifies bytes
    ensures r.Ok? <==> offset + 4 * |words| <= U64_MAX && offset + 4 * |words| <= bytes.Length
    ensures r.Ok? ==> Patched(old(bytes[..]), bytes[..], offset, WordBytes(words))
    ensures r.Err? ==> bytes[..] == old(bytes[..])
    ensures r.Err? ==> r.error == if offset + 4 * |words| <= U64_MAX then OutsideSlab else LengthOverflow
  {
    hide Le32;
    var byteLen := U32WordBytesLen(|words|);
    if byteLen.Err? {
      return Err(byteLen.error);
    }
    var end := CheckedAdd(offset, byteLen.value);
    if end.None? {
      return Err(LengthOverflow);
    }
    if end.value > bytes.Length {
      return Err(OutsideSlab);
    }
    ghost var before := bytes[..];
    assert words[..0] == [] && WordBytes([]) == [];
    assert Patched(before, bytes[..], offset, []);
    for i := 0 to |words|
      invariant Patched(before, bytes[..], offset, WordBytes(words[..i]))
    {
      ghost var now := bytes[..];
      WriteWord(bytes, offset + 4 * i, words[i]);
      OneMoreWord(words, i);
      PatchMore(before, now, bytes[..], offset, WordBytes(words[..i]), Le32(words[i]));
    }
    assert words[..|words|] == words;
    r := Ok(());
  }

  lemma PatchMore(before: seq<u8>, now: seq<u8>, after: seq<u8>, offset: nat, patch: seq<u8>, more: seq<u8>)
    requires Patched(before, now, offset, patch) && Patched(now, after, offset + |patch|, more)
    ensures Patched(before, after, offset, patch + more)
  {
  }

  method WriteWord(bytes: array<u8>, at: nat, word: u32)
    requires at + 4 <= bytes.Length
    modifies bytes
    ensures Patched(old(bytes[..]), bytes[..], at, Le32(word))
  {
    hide Le32;
    var le := Le32(word);
    bytes[at] := le[0];
    bytes[at + 1] := le[1];
    bytes[at + 2] := le[2];
    bytes[at + 3] := le[3];
    assert bytes[..] == old(bytes[..])[..at] + le + old(bytes[..])[at + 4..];
  }

  method ReadResidentU32Range(bytes: seq<u8>, count: nat, reserve: bool) returns (r: Result<seq<u32>, SlabError>)
    ensures r.Ok? <==> reserve && 4 * count <= U64_MAX && |bytes| == 4 * count
    ensures r.Ok? ==> |r.value| == count && forall i | 0 <= i < count :: r.value[i] == WordAt(bytes, i)
    ensures r.Err? ==> r.error == if 4 * count > U64_MAX then LengthOverflow
                                  else if |bytes| != 4 * count then WrongLength else NoRoom
  {
    hide FromLe32;
    if 4 * count > U64_MAX {
      return Err(LengthOverflow);
    }
    if |bytes| != 4 * count {
      return Err(WrongLength);
    }
    if !reserve {
      return Err(NoRoom);
    }
    var values: seq<u32> := [];
    for i := 0 to count
      invariant |values| == i
      invariant forall k | 0 <= k < i :: values[k] == WordAt(bytes, k)
    {
      values := values + [FromLe32(bytes[4 * i..4 * i + 4])];
    }
    r := Ok(values);
  }

  // ----- the slab -----

  datatype Slab = Slab(bytes: seq<u8>, wordsOffset: u64, rowsOffset: u64, pairsOffset: u64, pairsBytes: u64,
                       countOffset: u64)

  /** The slab has the planned size and offsets, holds the words and the rows in their
      spans, and is zero everywhere else. */
  ghost predicate Holds(slab: Slab, l: Layout, words: seq<u32>, rows: seq<u32>) {
    && |slab.bytes| == l.count.end
    && slab.wordsOffset == l.words.start && slab.rowsOffset == l.rows.start
    && slab.pairsOffset == l.pairs.start && slab.pairsBytes == l.pairs.end - l.pairs.start
    && slab.countOffset == l.count.start
    && l.words.start + 4 * |words| <= l.rows.start && l.rows.start + 4 * |rows| <= |slab.bytes|
    && slab.bytes[l.words.start..l.words.start + 4 * |words|] == WordBytes(words)
    && slab.bytes[l.rows.start..l.rows.start + 4 * |rows|] == WordBytes(rows)
    && forall i | 0 <= i < |slab.bytes| && !(l.words.start <= i < l.words.start + 4 * |words|)
                  && !(l.rows.start <= i < l.rows.start + 4 * |rows|) :: slab.bytes[i] == 0
  }

  method ReserveSpans(wordsLen: u64, rowsLen: u64, pairsLen: u64, countLen: u64) returns (r: Result<Layout, SlabError>)
    ensures
      var words := Place(0, wordsLen, 4);
      var rows := Place(words.end, rowsLen, 4);
      var pairs := Place(rows.end, pairsLen, 8);
      var count := Place(pairs.end, countLen, 8);
      if count.end <= U64_MAX then r == Ok(Layout(words, rows, pairs, count)) else r.Err? && !r.error.NoRoom?
  {
    hide Place;
    var cursor := new Cursor();
    var words := cursor.ReserveAlignedSpan(wordsLen, 4);
    if words.Err? { return Err(words.error); }
    var wordsSpan := Span(words.value, cursor.at);
    var rows := cursor.ReserveAlignedSpan(rowsLen, 4);
    if rows.Err? { return Err(rows.error); }
    var rowsSpan := Span(rows.value, cursor.at);
    var pairs := cursor.ReserveAlignedSpan(pairsLen, 8);
    if pairs.Err? { return Err(pairs.error); }
    var pairsSpan := Span(pairs.value, cursor.at);
    var count := cursor.ReserveAlignedSpan(countLen, 8);
    if count.Err? { return Err(count.error); }
    r := Ok(Layout(wordsSpan, rowsSpan, pairsSpan, Span(count.value, cursor.at)));
  }

  /** Build the slab. It fails exactly when the planned slab does not fit the address
      range or the host cannot allocate it. */
  method BuildScratchBytes(words: seq<u32>, rows: seq<u32>, pairBytes: u64, counterBytes: u64, reserve: Reserve)
    returns (r: Result<Slab, SlabError>)
    ensures
      var l := Plan(|words|, |rows|, pairBytes, counterBytes);
      && (r.Ok? <==> l.count.end <= U64_MAX && reserve(l.count.end))
      && (r.Ok? ==> Holds(r.value, l, words, rows))
      && (r.Err? ==> (r.error.NoRoom? <==> l.count.end <= U64_MAX))
  {
    hide Place;
    ghost var l := Plan(|words|, |rows|, pairBytes, counterBytes);
    PlanIsTight(|words|, |rows|, pairBytes, counterBytes);
    var wordsLen := U32WordBytesLen(|words|);
    if wordsLen.Err? { return Err(wordsLen.error); }
    var rowsLen := U32WordBytesLen(|rows|);
    if rowsLen.Err? { return Err(rowsLen.error); }
    var layout := ReserveSpans(Max(wordsLen.value, 4), Max(rowsLen.value, 4), Max(pairBytes, 8), Max(counterBytes, 8));
    if layout.Err? { return Err(layout.error); }
    var spans := layout.value;
    assert spans == l;
    if !reserve(spans.count.end) {
      return Err(NoRoom);
    }
    var bytes := Fill(spans.count.end, spans.words.start, words, spans.rows.start, rows);
    r := Ok(Slab(bytes, spans.words.start, spans.rows.start, spans.pairs.start, spans.pairs.end - spans.pairs.start,
                 spans.count.start));
  }

  /** A zeroed buffer with both word runs written; the planned spans always fit. */
  method Fill(size: u64, wordsAt: u64, words: seq<u32>, rowsAt: u64, rows: seq<u32>) returns (filled: seq<u8>)
    requires wordsAt + 4 * |words| <= rowsAt && rowsAt + 4 * |rows| <= size
    ensures |filled| == size
    ensures filled[wordsAt..wordsAt + 4 * |words|] == WordBytes(words)
    ensures filled[rowsAt..rowsAt + 4 * |rows|] == WordBytes(rows)
    ensures forall i | 0 <= i < size && !(wordsAt <= i < wordsAt + 4 * |words|)
                       && !(rowsAt <= i < rowsAt + 4 * |rows|) :: filled[i] == 0
  {
    hide Patched, WordBytes;
    var bytes := new u8[size](_ => 0);
    ghost var zero := bytes[..];
    var first := WriteU32WordsAt(bytes, wordsAt, words);
    if first.Err? { assert false; }
    ghost var middle := bytes[..];
    var second := WriteU32WordsAt(bytes, rowsAt, rows);
    if second.Err? { assert false; }
    filled := bytes[..];
    TwoPatches(zero, middle, filled, wordsAt, WordBytes(words), rowsAt, WordBytes(rows));
  }

  /** Two patches that do not overlap both survive, over zeros. */
  lemma TwoPatches(zero: seq<u8>, middle: seq<u8>, after: seq<u8>, a: nat, first: seq<u8>, b: nat, second: seq<u8>)
    requires forall i | 0 <= i < |zero| :: zero[i] == 0
    requires Patched(zero, middle, a, first) && Patched(middle, after, b, second)
    requires a + |first| <= b
    ensures |after| == |zero|
    ensures after[a..a + |first|] == first && after[b..b + |second|] == second
    ensures forall i | 0 <= i < |after| && !(a <= i < a + |first|) && !(b <= i < b + |second|) :: after[i] == 0
  {
    assert middle[a..a + |first|] == first;
    assert after[..b] == middle[..b];
    assert after[a..a + |first|] == after[..b][a..a + |first|] == middle[..b][a..a + |first|];
  }

  /** Reading the first two spans of a built slab gives the words and the rows back. */
  method ReadBackSlab(slab: Slab, ghost l: Layout, words: seq<u32>, rows: seq<u32>)
    returns (readWords: Result<seq<u32>, SlabError>, readRows: Result<seq<u32>, SlabError>)
    requires Holds(slab, l, words, rows) && |slab.bytes| <= U64_MAX
    ensures readWords == Ok(words) && readRows == Ok(rows)
  {
    hide WordAt, WordBytes;
    readWords := ReadResidentU32Range(slab.bytes[slab.wordsOffset..slab.wordsOffset + 4 * |words|], |words|, true);
    forall i | 0 <= i < |words|
      ensures WordAt(WordBytes(words), i) == words[i]
    {
      ReadBack(words, i);
    }
    assert readWords.value == words;
    readRows := ReadResidentU32Range(slab.bytes[slab.rowsOffset..slab.rowsOffset + 4 * |rows|], |rows|, true);
    forall i | 0 <= i < |rows|
      ensures WordAt(WordBytes(rows), i) == rows[i]
    {
      ReadBack(rows, i);
    }
    assert readRows.value == rows;
  }
}
