/** Little-endian words. */
module Bytes {
  import opened Machine

  function Le32(x: u32): (b: seq<u8>)
    ensures |b| == 4
  {
    [x % 0x100, x / 0x100 % 0x100, x / 0x1_0000 % 0x100, x / 0x100_0000]
  }

  function FromLe32(b: seq<u8>): (x: u32)
    requires |b| == 4
  {
    var b0: int, b1: int, b2: int, b3: int := b[0], b[1], b[2], b[3];
    b0 + 0x100 * b1 + 0x1_0000 * b2 + 0x100_0000 * b3
  }

  lemma WordRoundTrip(x: u32)
    ensures FromLe32(Le32(x)) == x
  {
    var high, mid := x / 0x100_0000, x / 0x1_0000;
    assert mid == 0x100 * high + mid % 0x100;
    assert x / 0x100 == 0x100 * mid + x / 0x100 % 0x100;
    assert x == 0x100 * (x / 0x100) + x % 0x100;
  }

  lemma BytesRoundTrip(b: seq<u8>)
    requires |b| == 4
    ensures Le32(FromLe32(b)) == b
  {
    var b0: int, b1: int, b2: int, b3: int := b[0], b[1], b[2], b[3];
    var x := FromLe32(b);
    assert x / 0x100_0000 == b3;
    assert x / 0x1_0000 == b2 + 0x100 * b3;
    assert x / 0x100 == b1 + 0x100 * (b2 + 0x100 * b3);
  }

  function Scale(k: nat): (p: nat)
    ensures p >= 1
  {
    if k == 0 then 1 else 0x100 * Scale(k - 1)
  }

  /** Byte `k` is digit `k` of the word in base 256, least significant first, in both
      directions. */
  lemma ByteIsDigit(x: u32, b: seq<u8>, k: nat)
    requires |b| == 4 && k < 4
    ensures Le32(x)[k] == x / Scale(k) % 0x100
    ensures b[k] == FromLe32(b) / Scale(k) % 0x100
  {
    BytesRoundTrip(b);
    DigitOfWord(x, k);
    DigitOfWord(FromLe32(b), k);
  }

  lemma DigitOfWord(x: u32, k: nat)
    requires k < 4
    ensures Le32(x)[k] == x / Scale(k) % 0x100
  {
    assert Scale(1) == 0x100 && Scale(2) == 0x1_0000;
    assert Scale(3) == 0x100 * Scale(2);
  }

  /** A run of words. */
  function WordBytes(words: seq<u32>): (b: seq<u8>)
    ensures |b| == 4 * |words|
  {
    if words == [] then [] else WordBytes(words[..|words| - 1]) + Le32(words[|words| - 1])
  }

  lemma AppendWord(words: seq<u32>, w: u32)
    ensures WordBytes(words + [w]) == WordBytes(words) + Le32(w)
  {
  }

  lemma OneMoreWord(w: seq<u32>, n: nat)
    requires n < |w|
    ensures WordBytes(w[..n + 1]) == WordBytes(w[..n]) + Le32(w[n])
  {
    hide Le32;
    assert w[..n + 1][..n] == w[..n];
  }

  lemma {:induction false} WordBytesInjective(a: seq<u32>, b: seq<u32>)
    requires |a| == |b| && WordBytes(a) == WordBytes(b)
    ensures a == b
  {
    hide Le32, FromLe32;
    if a != [] {
      var last := |a| - 1;
      var x, y := WordBytes(a[..last]), WordBytes(b[..last]);
      assert (x + Le32(a[last]))[..4 * last] == x && (y + Le32(b[last]))[..4 * last] == y;
      assert (x + Le32(a[last]))[4 * last..] == Le32(a[last]) && (y + Le32(b[last]))[4 * last..] == Le32(b[last]);
      WordBytesInjective(a[..last], b[..last]);
      WordRoundTrip(a[last]);
      WordRoundTrip(b[last]);
      assert a == a[..last] + [a[last]] && b == b[..last] + [b[last]];
    }
  }

  lemma {:induction false} WordBytesAt(words: seq<u32>, i: nat)
    requires i < |words|
    ensures WordBytes(words)[4 * i..4 * i + 4] == Le32(words[i])
  {
    hide Le32;
    var last := |words| - 1;
    var before, word := WordBytes(words[..last]), Le32(words[last]);
    assert WordBytes(words) == before + word && |before| == 4 * last;
    if i < last {
      WordBytesAt(words[..last], i);
      assert (before + word)[4 * i..4 * i + 4] == before[4 * i..4 * i + 4];
    } else {
      assert (before + word)[4 * last..4 * last + 4] == word;
    }
  }

  /** The i-th word of a byte string. */
  function WordAt(bytes: seq<u8>, i: nat): u32
    requires 4 * i + 4 <= |bytes|
  {
    FromLe32(bytes[4 * i..4 * i + 4])
  }

  lemma ReadBack(words: seq<u32>, i: nat)
    requires i < |words|
    ensures WordAt(WordBytes(words), i) == words[i]
  {
    hide Le32, FromLe32;
    WordBytesAt(words, i);
    WordRoundTrip(words[i]);
  }
}
