/** Decoding the equivalence pairs a device kernel wrote. */
module EquivalenceCodec {
  import opened Machine
  import opened Bytes
  import opened Ordering

  const ISIZE_MAX := 0x7FFF_FFFF_FFFF_FFFF

  datatype Pair = Pair(left: u32, right: u32)

  datatype DecodeError = LengthOverflow | NoRoom | MissingWord(offset: nat)

  predicate Before(a: Pair, b: Pair) {
    a.left < b.left || (a.left == b.left && a.right < b.right)
  }

  predicate NotAfter(a: Pair, b: Pair) {
    a == b || Before(a, b)
  }

  ghost predicate StrictlyAscending(pairs: seq<Pair>) {
    forall i, j | 0 <= i < j < |pairs| :: Before(pairs[i], pairs[j])
  }

  /** The pairs one after another, left word first. */
  function Flatten(pairs: seq<Pair>): (words: seq<u32>)
    ensures |words| == 2 * |pairs|
    ensures forall i | 0 <= i < |pairs| :: words[2 * i] == pairs[i].left && words[2 * i + 1] == pairs[i].right
  {
    if pairs == [] then [] else
      var last := pairs[|pairs| - 1];
      Flatten(pairs[..|pairs| - 1]) + [last.left, last.right]
  }

  function EncodePairs(pairs: seq<Pair>): seq<u8> {
    WordBytes(Flatten(pairs))
  }

  /** The i-th pair of a byte string. */
  function PairAt(bytes: seq<u8>, i: nat): Pair
    requires 8 * i + 8 <= |bytes|
  {
    Pair(WordAt(bytes, 2 * i), WordAt(bytes, 2 * i + 1))
  }

  /** The value of four bytes, least significant first. */
  function LittleEndian(b0: u8, b1: u8, b2: u8, b3: u8): int {
    b0 + 256 * (b1 + 256 * (b2 + 256 * b3))
  }

  /** A pair is eight bytes, the left word in the first four. */
  lemma PairIsEightBytes(bytes: seq<u8>, i: nat)
    requires 8 * i + 8 <= |bytes|
    ensures
      var pair, at := PairAt(bytes, i), 8 * i;
      && pair.left == LittleEndian(bytes[at], bytes[at + 1], bytes[at + 2], bytes[at + 3])
      && pair.right == LittleEndian(bytes[at + 4], bytes[at + 5], bytes[at + 6], bytes[at + 7])
  {
    var left, right := bytes[8 * i..8 * i + 4], bytes[8 * i + 4..8 * i + 8];
    assert PairAt(bytes, i) == Pair(FromLe32(left), FromLe32(right));
  }

  /** Strictly ascending means by the left word and, where that repeats, by the right. */
  lemma AscendingMeans(pairs: seq<Pair>)
    ensures StrictlyAscending(pairs) <==>
              forall i, j | 0 <= i < j < |pairs| ::
                pairs[i].left * 0x1_0000_0000 + pairs[i].right < pairs[j].left * 0x1_0000_0000 + pairs[j].right
  {
    forall i, j | 0 <= i < j < |pairs|
      ensures
        Before(pairs[i], pairs[j]) <==>
          pairs[i].left * 0x1_0000_0000 + pairs[i].right < pairs[j].left * 0x1_0000_0000 + pairs[j].right
    {
    }
  }

  method ReadU32LeAt(bytes: seq<u8>, offset: nat) returns (r: Result<u32, DecodeError>)
    requires offset + 4 <= U64_MAX
    ensures r == if offset + 4 <= |bytes| then Ok(FromLe32(bytes[offset..offset + 4])) else Err(MissingWord(offset))
  {
    if offset + 4 > |bytes| {
      return Err(MissingWord(offset));
    }
    r := Ok(FromLe32(bytes[offset..offset + 4]));
  }

  /** Both words of a pair, or the first of them that is missing. */
  method ReadPairAt(bytes: seq<u8>, index: nat) returns (r: Result<Pair, DecodeError>)
    requires 8 * index <= |bytes| <= ISIZE_MAX
    ensures r == if 8 * index + 8 <= |bytes| then Ok(PairAt(bytes, index)) else Err(MissingWord(|bytes| / 4 * 4))
  {
    hide FromLe32;
    var left := ReadU32LeAt(bytes, 8 * index);
    if left.Err? {
      FirstMissing(|bytes|, 2 * index);
      return Err(left.error);
    }
    var right := ReadU32LeAt(bytes, 8 * index + 4);
    if right.Err? {
      FirstMissing(|bytes|, 2 * index + 1);
      return Err(right.error);
    }
    r := Ok(Pair(left.value, right.value));
  }

  lemma FirstMissing(size: nat, word: nat)
    requires 4 * word <= size < 4 * word + 4
    ensures size / 4 * 4 == 4 * word
  {
  }

  /** Vectors never hold more than half the address space. */
  method DecodeEquivalencePairs(bytes: seq<u8>, count: u64, reserve: Reserve) returns (r: Result<seq<Pair>,
                                DecodeError>)
    requires |bytes| <= ISIZE_MAX
    ensures r.Ok? <==> reserve(count) && 8 * count <= |bytes|
    ensures r.Ok? ==> |r.value| == count && forall i | 0 <= i < count :: r.value[i] == PairAt(bytes, i)
    ensures r.Err? ==> r.error == if reserve(count) then MissingWord(|bytes| / 4 * 4) else NoRoom
  {
    hide PairAt;
    if !reserve(count) {
      return Err(NoRoom);
    }
    var pairs: seq<Pair> := [];
    var index := 0;
    while index < count
      invariant 0 <= index <= count && |pairs| == index
      invariant 8 * index <= |bytes|
      invariant forall i | 0 <= i < index :: pairs[i] == PairAt(bytes, i)
    {
      var byteOffset := 8 * index;
      if byteOffset > U64_MAX {
        return Err(LengthOverflow);
      }
      var pair := ReadPairAt(bytes, index);
      if pair.Err? {
        return Err(pair.error);
      }
      pairs := pairs + [pair.value];
      index := index + 1;
    }
    r := Ok(pairs);
  }

  lemma LaterThanAll(pairs: seq<Pair>, p: Pair)
    requires StrictlyAscending(pairs) && pairs != [] && Before(pairs[|pairs| - 1], p)
    ensures forall i | 0 <= i < |pairs| :: Before(pairs[i], p)
  {
  }

  /** Drop each element that repeats its predecessor. */
  method Dedup(pairs: seq<Pair>) returns (unique: seq<Pair>)
    requires Ascending(NotAfter, pairs)
    ensures StrictlyAscending(unique)
    ensures forall p :: p in unique <==> p in pairs
  {
    unique := [];
    for i := 0 to |pairs|
      invariant StrictlyAscending(unique)
      invariant forall p :: p in unique <==> p in pairs[..i]
      invariant i == 0 ==> unique == []
      invariant i > 0 ==> unique != [] && unique[|unique| - 1] == pairs[i - 1]
    {
      assert pairs[..i + 1] == pairs[..i] + [pairs[i]];
      if unique == [] || unique[|unique| - 1] != pairs[i] {
        if i > 0 {
          assert NotAfter(pairs[i - 1], pairs[i]);
          LaterThanAll(unique, pairs[i]);
        }
        unique := unique + [pairs[i]];
      }
    }
    assert pairs[..|pairs|] == pairs;
  }

  method DecodeUniqueEquivalencePairs(bytes: seq<u8>, count: u64, reserve: Reserve)
    returns (r: Result<(u64, seq<Pair>), DecodeError>)
    requires |bytes| <= ISIZE_MAX
    ensures r.Ok? <==> reserve(count) && 8 * count <= |bytes|
    ensures r.Ok? ==>
              && r.value.0 == count
              && StrictlyAscending(r.value.1)
              && forall p :: p in r.value.1 <==> exists i :: 0 <= i < count && PairAt(bytes, i) == p
    ensures r.Err? ==> r.error == if reserve(count) then MissingWord(|bytes| / 4 * 4) else NoRoom
  {
    var decoded := DecodeEquivalencePairs(bytes, count, reserve);
    if decoded.Err? {
      return Err(decoded.error);
    }
    var pairs := decoded.value;
    var sorted := SortIfNeeded(NotAfter, pairs);
    SameMembers(pairs, sorted);
    var unique := Dedup(sorted);
    forall p
      ensures p in unique <==> exists i :: 0 <= i < count && PairAt(bytes, i) == p
    {
      if p in pairs {
        var i :| 0 <= i < |pairs| && pairs[i] == p;
        assert PairAt(bytes, i) == p;
      }
    }
    r := Ok((count, unique));
  }

  lemma SameMembers(a: seq<Pair>, b: seq<Pair>)
    requires multiset(a) == multiset(b)
    ensures forall p :: p in a <==> p in b
  {
    forall p
      ensures p in a <==> p in b
    {
      assert p in multiset(a) <==> p in multiset(b);
    }
  }

  // ----- round trips -----

  lemma EncodedPairAt(pairs: seq<Pair>, i: nat)
    requires i < |pairs|
    ensures |EncodePairs(pairs)| == 8 * |pairs|
    ensures PairAt(EncodePairs(pairs), i) == pairs[i]
  {
    hide FromLe32, Flatten;
    ReadBack(Flatten(pairs), 2 * i);
    ReadBack(Flatten(pairs), 2 * i + 1);
  }

  /** Decoding then encoding gives the bytes read. */
  lemma {:induction false} DecodedEncodesBack(bytes: seq<u8>, pairs: seq<Pair>)
    requires 8 * |pairs| <= |bytes|
    requires forall i | 0 <= i < |pairs| :: pairs[i] == PairAt(bytes, i)
    ensures EncodePairs(pairs) == bytes[..8 * |pairs|]
  {
    hide EncodePairs, PairAt, Le32;
    if pairs == [] {
      EncodedSize(pairs);
    } else {
      var last := |pairs| - 1;
      DecodedEncodesBack(bytes, pairs[..last]);
      EncodeLast(pairs);
      PairBytes(bytes, last);
      assert bytes[..8 * |pairs|] == bytes[..8 * last] + bytes[8 * last..8 * last + 8];
    }
  }

  lemma EncodeLast(pairs: seq<Pair>)
    requires pairs != []
    ensures
      var last := |pairs| - 1;
      EncodePairs(pairs) == EncodePairs(pairs[..last]) + (Le32(pairs[last].left) + Le32(pairs[last].right))
  {
    var last := |pairs| - 1;
    var words, left, right := Flatten(pairs[..last]), pairs[last].left, pairs[last].right;
    assert Flatten(pairs) == words + [left] + [right];
    hide Le32, WordBytes, Flatten;
    AppendWord(words, left);
    AppendWord(words + [left], right);
  }

  lemma PairBytes(bytes: seq<u8>, i: nat)
    requires 8 * i + 8 <= |bytes|
    ensures Le32(PairAt(bytes, i).left) + Le32(PairAt(bytes, i).right) == bytes[8 * i..8 * i + 8]
  {
    hide Le32, FromLe32;
    BytesRoundTrip(bytes[8 * i..8 * i + 4]);
    BytesRoundTrip(bytes[8 * i + 4..8 * i + 8]);
    assert 4 * (2 * i) == 8 * i && 4 * (2 * i + 1) == 8 * i + 4;
    assert bytes[8 * i..8 * i + 8] == bytes[8 * i..8 * i + 4] + bytes[8 * i + 4..8 * i + 8];
  }

  /** Strictly ascending lists are determined by their members. */
  lemma {:induction false} MembersDetermine(a: seq<Pair>, b: seq<Pair>)
    requires StrictlyAscending(a) && StrictlyAscending(b)
    requires forall p :: p in a <==> p in b
    ensures a == b
  {
    EmptyTogether(a, b);
    if a != [] {
      FirstIsLeast(a, b[0]);
      FirstIsLeast(b, a[0]);
      forall p
        ensures p in a[1..] <==> p in b[1..]
      {
        TailMembers(a, p);
        TailMembers(b, p);
      }
      MembersDetermine(a[1..], b[1..]);
      assert a == [a[0]] + a[1..] && b == [b[0]] + b[1..];
    }
  }

  lemma EmptyTogether(a: seq<Pair>, b: seq<Pair>)
    ensures (forall p :: p in a <==> p in b) ==> (a == [] <==> b == [])
  {
    if a != [] { assert a[0] in a; }
    if b != [] { assert b[0] in b; }
  }

  lemma FirstIsLeast(a: seq<Pair>, p: Pair)
    requires StrictlyAscending(a) && a != []
    ensures p in a ==> NotAfter(a[0], p)
    ensures a[0] in a
  {
  }

  lemma TailMembers(a: seq<Pair>, p: Pair)
    requires a != [] && StrictlyAscending(a)
    ensures p in a[1..] <==> p in a && p != a[0]
  {
  }

  /** Encoding then decoding gives the pairs back, sorted and without repeats; a list
      that is already strictly ascending comes back unchanged. */
  method RoundTrip(pairs: seq<Pair>, reserve: Reserve) returns (r: Result<(u64, seq<Pair>), DecodeError>)
    requires 8 * |pairs| <= ISIZE_MAX
    ensures r.Ok? <==> reserve(|pairs|)
    ensures r.Ok? ==> StrictlyAscending(r.value.1) && forall p :: p in r.value.1 <==> p in pairs
    ensures r.Ok? && StrictlyAscending(pairs) ==> r.value.1 == pairs
  {
    hide PairAt, EncodePairs;
    var bytes := EncodePairs(pairs);
    forall i | 0 <= i < |pairs|
      ensures |bytes| == 8 * |pairs| && PairAt(bytes, i) == pairs[i]
    {
      EncodedPairAt(pairs, i);
    }
    EncodedSize(pairs);
    r := DecodeUniqueEquivalencePairs(bytes, |pairs|, reserve);
    if r.Ok? {
      forall p
        ensures p in r.value.1 <==> p in pairs
      {
        if p in pairs {
          var i :| 0 <= i < |pairs| && pairs[i] == p;
          assert PairAt(bytes, i) == p;
        }
      }
      if StrictlyAscending(pairs) {
        MembersDetermine(r.value.1, pairs);
      }
    }
  }

  lemma EncodedSize(pairs: seq<Pair>)
    ensures |EncodePairs(pairs)| == 8 * |pairs|
  {
  }
}
