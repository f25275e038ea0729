/**
 * The UTF-8 byte view of a string, which is what Rust's `str::len` counts and
 * what `&s[..n]` slices.
 */
module Utf8 {

  newtype byte = x: int | 0 <= x < 256

  /** A byte of the form 0b10xx_xxxx, which never starts a character. */
  predicate IsContinuation(b: byte) {
    0x80 <= b < 0xC0
  }

  /** Number of bytes UTF-8 uses for `c`. */
  function Width(c: char): (w: nat)
    ensures 1 <= w <= 4
  {
    var n := c as int;
    if n < 0x80 then 1 else if n < 0x800 then 2 else if n < 0x1_0000 then 3 else 4
  }

  /** The UTF-8 encoding of one character: one leading byte, then continuation bytes. */
  function EncodeChar(c: char): (bs: seq<byte>)
    ensures |bs| == Width(c)
    ensures !IsContinuation(bs[0])
    ensures forall k :: 1 <= k < |bs| ==> IsContinuation(bs[k])
  {
    var n := c as int;
    if n < 0x80 then [n as byte]
    else if n < 0x800 then [(0xC0 + n / 0x40) as byte, (0x80 + n % 0x40) as byte]
    else if n < 0x1_0000 then
      [(0xE0 + n / 0x1000) as byte, (0x80 + (n / 0x40) % 0x40) as byte, (0x80 + n % 0x40) as byte]
    else
      [(0xF0 + n / 0x4_0000) as byte, (0x80 + (n / 0x1000) % 0x40) as byte,
       (0x80 + (n / 0x40) % 0x40) as byte, (0x80 + n % 0x40) as byte]
  }

  /** The UTF-8 encoding of a string: the characters' encodings, in order. */
  function Encode(s: string): (bs: seq<byte>)
    ensures |bs| >= |s|
  {
    if s == [] then [] else EncodeChar(s[0]) + Encode(s[1..])
  }

  lemma {:induction false} EncodeAppend(a: string, b: string)
    ensures Encode(a + b) == Encode(a) + Encode(b)
    decreases |a|
  {
    if a != [] {
      assert (a + b)[0] == a[0] && (a + b)[1..] == a[1..] + b;
      EncodeAppend(a[1..], b);
    } else {
      assert a + b == b;
    }
  }

  lemma EncodeOne(c: char)
    ensures Encode([c]) == EncodeChar(c)
  {
    var s := [c];
    assert s[1..] == [];
    assert Encode(s) == EncodeChar(s[0]) + Encode(s[1..]);
  }

  /** Encoding a string with one more character at the end. */
  lemma EncodeSnocChar(s: string, c: char)
    ensures Encode(s + [c]) == Encode(s) + EncodeChar(c)
  {
    EncodeAppend(s, [c]);
    EncodeOne(c);
  }

  /** The encoding of `s` around its `k`-th character. */
  lemma EncodeSplitAt(s: string, k: nat)
    requires k < |s|
    ensures Encode(s) == Encode(s[..k]) + (EncodeChar(s[k]) + Encode(s[k + 1..]))
    ensures Encode(s[..k + 1]) == Encode(s[..k]) + EncodeChar(s[k])
  {
    var t := s[k..];
    assert s == s[..k] + t;
    EncodeAppend(s[..k], t);
    assert t[0] == s[k] && t[1..] == s[k + 1..];
    assert s[..k + 1] == s[..k] + [s[k]];
    EncodeSnocChar(s[..k], s[k]);
  }

  /** `str::is_char_boundary`: index 0, the end, or a byte that starts a character. */
  predicate IsCharBoundary(bs: seq<byte>, i: nat) {
    i == 0 || i == |bs| || (i < |bs| && !IsContinuation(bs[i]))
  }

  /** The longest prefix of `s`, counted in characters, whose encoding fits in `budget` bytes. */
  function FitChars(s: string, budget: nat): (k: nat)
    ensures k <= |s|
    ensures |Encode(s[..k])| <= budget
    ensures k < |s| ==> |Encode(s[..k + 1])| > budget
    ensures k == |s| ==> |Encode(s)| <= budget
  {
    if s == [] then 0
    else if Width(s[0]) > budget then
      assert s[..1] == [s[0]] && s[..0] == [];
      0
    else
      var k := FitChars(s[1..], budget - Width(s[0]));
      assert s[..k + 1] == [s[0]] + s[1..][..k];
      assert k < |s| - 1 ==> s[..k + 2] == [s[0]] + s[1..][..k + 1];
      EncodeAppend([s[0]], s[1..][..k]);
      EncodeAppend([s[0]], if k < |s| - 1 then s[1..][..k + 1] else []);
      1 + k
  }

  /**
   * A byte index that is a character boundary of `Encode(s)` is the encoded
   * length of a character prefix of `s`: the prefix `FitChars(s, i)`.
   */
  lemma BoundaryAtFit(s: string, i: nat)
    requires i <= |Encode(s)| && IsCharBoundary(Encode(s), i)
    ensures |Encode(s[..FitChars(s, i)])| == i
  {
    var k := FitChars(s, i);
    if k < |s| {
      EncodeSplitAt(s, k);
    } else {
      assert s[..k] == s;
    }
  }
}
