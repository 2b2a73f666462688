/**
 The identifier generator of src/index.ts (`nanoid`).

 The source draws `t` bytes from `crypto.getRandomValues`, masks each byte to
 its low six bits and folds the bytes, left to right, into a string through a
 four-way branch: base-36 for 0..35, upper-cased base-36 of `v - 26` for
 36..61, `-` for 63 and `_` for 62. Here the random bytes are an input: a
 byte stream from which `Nanoid` consumes exactly `t` bytes.
 */
module Nanoid {
  import opened Wrappers

  /** One element of the `Uint8Array` the source fills with random values. */
  type Byte = bv8

  /** A value in 0..63: what is left of a byte after `e &= 63`. */
  type Sextet = v: int | 0 <= v < 64

  /** The default of the `t` parameter: identifiers are 21 characters long. */
  const DefaultSize: nat := 21

  /** The largest buffer `crypto.getRandomValues` fills; a larger one makes it throw. */
  const MaxRandomBytes: nat := 65536

  /** A draw from the byte stream: the identifier and the unconsumed bytes. */
  datatype Draw = Draw(id: string, rest: seq<Byte>)

  // ---------------------------------------------------------------------------
  // Masking

  /** Masking with 63 keeps the remainder modulo 64. */
  lemma LowSixBits(b: Byte)
    ensures (b & 63) as int == (b as int) % 64
  {
  }

  /** `e &= 63` on an unsigned byte: only the low six bits survive. */
  function Mask(b: Byte): (v: Sextet)
    ensures v == (b as int) % 64
  {
    LowSixBits(b);
    (b & 63) as int
  }

  /** The masked values of a byte sequence, position by position. */
  function Masks(bytes: seq<Byte>): (vs: seq<Sextet>)
    ensures |vs| == |bytes|
    ensures forall i :: 0 <= i < |bytes| ==> vs[i] == (bytes[i] as int) % 64
  {
    seq(|bytes|, i requires 0 <= i < |bytes| => Mask(bytes[i]))
  }

  // ---------------------------------------------------------------------------
  // Number.prototype.toString(36) and String.prototype.toUpperCase

  /** The characters `toString(36)` writes: `0-9` then lower-case `a-z`. */
  predicate IsBase36Digit(c: char) {
    '0' <= c <= '9' || 'a' <= c <= 'z'
  }

  /** The digit written for a value 0..35. */
  function Base36Digit(d: int): (c: char)
    requires 0 <= d < 36
    ensures IsBase36Digit(c)
    ensures ('0' <= c <= '9') <==> d < 10
  {
    if d < 10 then ('0' as int + d) as char else ('a' as int + d - 10) as char
  }

  /** The value a base-36 digit stands for. */
  function DigitValue(c: char): (d: int)
    requires IsBase36Digit(c)
    ensures 0 <= d < 36
  {
    if c <= '9' then c as int - '0' as int else c as int - 'a' as int + 10
  }

  lemma DigitRoundTrip(d: int)
    requires 0 <= d < 36
    ensures DigitValue(Base36Digit(d)) == d
  {
  }

  predicate AllBase36Digits(s: string) {
    forall i :: 0 <= i < |s| ==> IsBase36Digit(s[i])
  }

  /** The number a string of base-36 digits denotes, most significant first. */
  function Base36Value(s: string): nat
    requires AllBase36Digits(s)
  {
    if |s| == 0 then 0 else Base36Value(s[..|s| - 1]) * 36 + DigitValue(s[|s| - 1])
  }

  /**
   `n.toString(36)` for a non-negative integer: the shortest base-36 rendering
   of `n` (no leading zero), which reads back as `n`.
   */
  function ToBase36(n: nat): (s: string)
    ensures 1 <= |s|
    ensures AllBase36Digits(s)
    ensures Base36Value(s) == n
    ensures |s| == 1 <==> n < 36
    ensures 0 < n ==> s[0] != '0'
    decreases n
  {
    if n < 36 then
      DigitRoundTrip(n);
      [Base36Digit(n)]
    else
      var high := ToBase36(n / 36);
      var s := high + [Base36Digit(n % 36)];
      assert s[..|s| - 1] == high;
      DigitRoundTrip(n % 36);
      s
  }

  /** `toUpperCase` on one character, restricted to ASCII letters. */
  function UpperChar(c: char): char {
    if 'a' <= c <= 'z' then (c as int - 'a' as int + 'A' as int) as char else c
  }

  /** `toUpperCase`: upper-cases the ASCII letters and leaves every other character as it is. */
  function ToUpperCase(s: string): (u: string)
    ensures |u| == |s|
    ensures forall i :: 0 <= i < |s| ==> u[i] == UpperChar(s[i])
  {
    if |s| == 0 then "" else [UpperChar(s[0])] + ToUpperCase(s[1..])
  }

  // ---------------------------------------------------------------------------
  // The per-byte mapping

  /** The 64 URL-safe characters an identifier is written in: `0-9a-zA-Z_-`. */
  predicate IsIdChar(c: char) {
    '0' <= c <= '9' || 'a' <= c <= 'z' || 'A' <= c <= 'Z' || c == '_' || c == '-'
  }

  /** The text appended for one masked byte: the source's four-way branch. */
  function Piece(v: Sextet): (p: string)
    ensures |p| == 1
    ensures IsIdChar(p[0])
  {
    if v < 36 then ToBase36(v)
    else if v < 62 then ToUpperCase(ToBase36(v - 26))
    else if v > 62 then "-"
    else "_"
  }

  /** The single character `Piece` appends for a masked byte. */
  function EncodeChar(v: Sextet): char {
    Piece(v)[0]
  }

  /**
   What each branch of the mapping yields, as character arithmetic:
   0..9 are the digits, 10..35 lower-case letters, 36..61 upper-case letters
   (`v - 26` rendered in base 36 is a letter, then upper-cased), 62 is `_`
   and 63 is `-`.
   */
  lemma EncodeCharRanges(v: Sextet)
    ensures v < 10 ==> '0' <= EncodeChar(v) <= '9' && EncodeChar(v) as int - '0' as int == v
    ensures 10 <= v < 36 ==> 'a' <= EncodeChar(v) <= 'z' && EncodeChar(v) as int - 'a' as int == v - 10
    ensures 36 <= v < 62 ==> 'A' <= EncodeChar(v) <= 'Z' && EncodeChar(v) as int - 'A' as int == v - 36
    ensures v == 62 ==> EncodeChar(v) == '_'
    ensures v == 63 ==> EncodeChar(v) == '-'
  {
  }

  /** The boundary values of each branch. */
  lemma BoundaryValues()
    ensures EncodeChar(0) == '0'
    ensures EncodeChar(35) == 'z'
    ensures EncodeChar(36) == 'A'
    ensures EncodeChar(61) == 'Z'
    ensures EncodeChar(62) == '_'
    ensures EncodeChar(63) == '-'
  {
  }

  // ---------------------------------------------------------------------------
  // The inverse of the per-byte mapping

  /** Reads one identifier character back as the masked value it encodes. */
  function DecodeChar(c: char): Option<Sextet> {
    if '0' <= c <= '9' then Some(c as int - '0' as int)
    else if 'a' <= c <= 'z' then Some(c as int - 'a' as int + 10)
    else if 'A' <= c <= 'Z' then Some(c as int - 'A' as int + 36)
    else if c == '_' then Some(62)
    else if c == '-' then Some(63)
    else None
  }

  /** Decoding undoes encoding: every masked value is recovered from its character. */
  lemma DecodeEncodeChar(v: Sextet)
    ensures DecodeChar(EncodeChar(v)) == Some(v)
  {
    EncodeCharRanges(v);
  }

  /** Encoding undoes decoding: a character that decodes is the encoding of its value. */
  lemma EncodeDecodeChar(c: char)
    ensures DecodeChar(c).Some? <==> IsIdChar(c)
    ensures DecodeChar(c).Some? ==> EncodeChar(DecodeChar(c).value) == c
  {
    if DecodeChar(c).Some? {
      EncodeCharRanges(DecodeChar(c).value);
    }
  }

  /** The per-character mapping is injective on the 64 masked values. */
  lemma EncodeCharInjective(v: Sextet, w: Sextet)
    ensures EncodeChar(v) == EncodeChar(w) <==> v == w
  {
    DecodeEncodeChar(v);
    DecodeEncodeChar(w);
  }

  // ---------------------------------------------------------------------------
  // The fold over the byte array

  /**
   The `reduce` of the source: starting from `''`, the piece for each masked
   byte is appended in order. Character `i` of the result is determined by
   byte `i` alone.
   */
  function Encode(bytes: seq<Byte>): (id: string)
    ensures |id| == |bytes|
    ensures forall i :: 0 <= i < |bytes| ==> id[i] == EncodeChar(Mask(bytes[i]))
    ensures forall i :: 0 <= i < |id| ==> IsIdChar(id[i])
  {
    if |bytes| == 0 then ""
    else Encode(bytes[..|bytes| - 1]) + Piece(Mask(bytes[|bytes| - 1]))
  }

  /**
   The fold appends left to right: encoding a buffer in two parts and
   concatenating gives the encoding of the whole buffer.
   */
  lemma EncodeAppend(a: seq<Byte>, b: seq<Byte>)
    ensures Encode(a + b) == Encode(a) + Encode(b)
  {
    var whole := Encode(a + b);
    forall i | 0 <= i < |whole| ensures whole[i] == (Encode(a) + Encode(b))[i] {
      if i < |a| {
        assert (a + b)[i] == a[i];
      } else {
        assert (a + b)[i] == b[i - |a|];
      }
    }
  }

  /**
   `nanoid(t)`: fills a `t`-byte buffer from the random stream `source` and
   encodes it. Exactly `t` bytes are consumed; the identifier has exactly `t`
   characters, each chosen by the byte at the same position.
   */
  function Nanoid(t: nat, source: seq<Byte>): (d: Draw)
    requires t <= MaxRandomBytes
    requires t <= |source|
    ensures |d.id| == t
    ensures d.rest == source[t..]
    ensures forall i :: 0 <= i < t ==> d.id[i] == EncodeChar((source[i] as int) % 64)
    ensures forall i :: 0 <= i < t ==> IsIdChar(d.id[i])
  {
    Draw(Encode(source[..t]), source[t..])
  }

  /** A zero-length identifier is legal and is the empty string. */
  lemma EmptyIdentifier(source: seq<Byte>)
    ensures Nanoid(0, source) == Draw("", source)
  {
  }

  /** Reads an identifier back as the masked values of the bytes it came from. */
  function Decode(id: string): Option<seq<Sextet>> {
    if |id| == 0 then Some([])
    else
      match (Decode(id[..|id| - 1]), DecodeChar(id[|id| - 1]))
      case (Some(vs), Some(v)) => Some(vs + [v])
      case _ => None
  }

  /** `Decode` succeeds exactly when every character decodes, and then decodes each in place. */
  lemma {:induction false} DecodePointwise(id: string)
    ensures Decode(id).Some? <==> forall i :: 0 <= i < |id| ==> DecodeChar(id[i]).Some?
    ensures Decode(id).Some? ==> |Decode(id).value| == |id|
    ensures Decode(id).Some? ==>
              forall i :: 0 <= i < |id| ==> Some(Decode(id).value[i]) == DecodeChar(id[i])
  {
    if |id| > 0 {
      var init := id[..|id| - 1];
      DecodePointwise(init);
      assert forall i :: 0 <= i < |init| ==> init[i] == id[i];
    }
  }

  /** Round trip: decoding an encoded buffer yields every byte's low six bits. */
  lemma DecodeEncode(bytes: seq<Byte>)
    ensures Decode(Encode(bytes)) == Some(Masks(bytes))
  {
    var id := Encode(bytes);
    forall i | 0 <= i < |id| ensures DecodeChar(id[i]) == Some(Masks(bytes)[i]) {
      DecodeEncodeChar(Mask(bytes[i]));
    }
    DecodePointwise(id);
    var vs := Decode(id).value;
    assert forall i :: 0 <= i < |vs| ==> vs[i] == Masks(bytes)[i];
    assert vs == Masks(bytes);
  }

  /** A masked value stored back into a byte masks to itself. */
  lemma SextetAsByte(v: Sextet)
    ensures Mask(v as Byte) == v
  {
  }

  /** The buffer whose bytes are the given masked values. */
  function ToBytes(vs: seq<Sextet>): (bytes: seq<Byte>)
    ensures Masks(bytes) == vs
  {
    var bytes := seq(|vs|, i requires 0 <= i < |vs| => vs[i] as Byte);
    forall i | 0 <= i < |vs| ensures Mask(bytes[i]) == vs[i] {
      SextetAsByte(vs[i]);
    }
    bytes
  }

  /**
   Round trip the other way: a string decodes exactly when it is written in
   the alphabet, and then it is the encoding of a buffer holding the decoded
   values.
   */
  lemma EncodeDecode(id: string)
    ensures Decode(id).Some? <==> forall i :: 0 <= i < |id| ==> IsIdChar(id[i])
    ensures Decode(id).Some? ==> Encode(ToBytes(Decode(id).value)) == id
  {
    DecodePointwise(id);
    forall i | 0 <= i < |id| ensures DecodeChar(id[i]).Some? <==> IsIdChar(id[i]) {
      EncodeDecodeChar(id[i]);
    }
    if Decode(id).Some? {
      var vs := Decode(id).value;
      var bytes := ToBytes(vs);
      forall i | 0 <= i < |id| ensures Encode(bytes)[i] == id[i] {
        EncodeDecodeChar(id[i]);
        assert Mask(bytes[i]) == Masks(bytes)[i] == vs[i];
      }
    }
  }

  /**
   Only the low six bits of each byte matter, and they matter fully: two
   buffers encode to the same identifier exactly when they have the same
   length and agree on every byte modulo 64.
   */
  lemma EncodeInjective(a: seq<Byte>, b: seq<Byte>)
    ensures Encode(a) == Encode(b) <==> Masks(a) == Masks(b)
  {
    DecodeEncode(a);
    DecodeEncode(b);
    if Masks(a) == Masks(b) {
      forall i | 0 <= i < |a| ensures Encode(a)[i] == Encode(b)[i] {
        assert Mask(a[i]) == Masks(a)[i] == Masks(b)[i] == Mask(b[i]);
      }
    }
  }
}
