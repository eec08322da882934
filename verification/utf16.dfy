/** `Encoding.Unicode`: text as 16-bit code units, each written as two bytes, low byte first. */
module Utf16 {
  import opened Primitives

  type Text = seq<uint16>

  const CR: uint16 := 13
  const LF: uint16 := 10
  /** U+FFFD, what the decoder yields for a trailing odd byte. */
  const ReplacementCharacter: uint16 := 0xFFFD

  /** The code units of a string literal of the Basic Multilingual Plane. */
  function Units(s: string): (t: Text)
    requires forall i :: 0 <= i < |s| ==> s[i] as int < 0x1_0000
    ensures |t| == |s|
    ensures forall i :: 0 <= i < |s| ==> t[i] == s[i] as int
  {
    seq(|s|, i requires 0 <= i < |s| => s[i] as int)
  }

  /** `Encoding.Unicode.GetBytes`. */
  function Encode(t: Text): (b: seq<uint8>)
    ensures |b| == 2 * |t|
    decreases |t|
  {
    if |t| == 0 then [] else [t[0] % 0x100, t[0] / 0x100] + Encode(t[1..])
  }

  /** `Encoding.Unicode.GetString`: pairs of bytes become code units; a lone last byte
      becomes U+FFFD. */
  function Decode(b: seq<uint8>): (t: Text)
    ensures |t| == (|b| + 1) / 2
    decreases |b|
  {
    if |b| == 0 then []
    else if |b| == 1 then [ReplacementCharacter]
    else
      var unit: uint16 := b[0] as int + 0x100 * b[1] as int;
      [unit] + Decode(b[2..])
  }

  /** Code unit i is written as bytes 2i and 2i + 1, low byte first. */
  lemma {:induction false} EncodeLayout(t: Text)
    ensures forall i :: 0 <= i < |t| ==> Encode(t)[2 * i] == t[i] % 0x100 && Encode(t)[2 * i + 1] == t[i] / 0x100
    decreases |t|
  {
    if |t| > 0 {
      EncodeLayout(t[1..]);
      var b := Encode(t);
      assert b[2..] == Encode(t[1..]);
      forall i | 1 <= i < |t| ensures b[2 * i] == t[i] % 0x100 && b[2 * i + 1] == t[i] / 0x100 {
        assert t[1..][i - 1] == t[i];
        assert b[2 * i] == b[2..][2 * (i - 1)] && b[2 * i + 1] == b[2..][2 * (i - 1) + 1];
      }
    }
  }

  /** Bytes 2i and 2i + 1 form code unit i, low byte first. */
  lemma {:induction false} DecodeLayout(b: seq<uint8>)
    ensures forall i :: 0 <= i < |b| / 2 ==> Decode(b)[i] == b[2 * i] as int + 0x100 * b[2 * i + 1] as int
    decreases |b|
  {
    if |b| >= 2 {
      var rest := b[2..];
      DecodeLayout(rest);
      var t := Decode(b);
      assert |rest| / 2 == |b| / 2 - 1;
      assert t[1..] == Decode(rest);
      forall i | 1 <= i < |b| / 2 ensures t[i] == b[2 * i] as int + 0x100 * b[2 * i + 1] as int {
        assert t[i] == t[1..][i - 1];
        assert b[2 * i] == rest[2 * (i - 1)];
        assert b[2 * i + 1] == rest[2 * (i - 1) + 1];
      }
    }
  }

  /** A lone last byte decodes to U+FFFD, after the code units of the pairs before it. */
  lemma {:induction false} DecodeOddByte(b: seq<uint8>)
    requires |b| % 2 == 1
    ensures Decode(b)[|b| / 2] == ReplacementCharacter
    decreases |b|
  {
    if |b| >= 2 {
      var rest := b[2..];
      DecodeOddByte(rest);
      assert |rest| / 2 == |b| / 2 - 1;
      assert Decode(b)[1..] == Decode(rest);
    }
  }

  lemma {:induction false} EncodeAppend(a: Text, b: Text)
    ensures Encode(a + b) == Encode(a) + Encode(b)
    decreases |a|
  {
    if |a| == 0 {
      assert a + b == b;
    } else {
      assert (a + b)[1..] == a[1..] + b;
      EncodeAppend(a[1..], b);
    }
  }

  /** Decoding inverts encoding. */
  lemma {:induction false} DecodeEncode(t: Text)
    ensures Decode(Encode(t)) == t
    decreases |t|
  {
    if |t| > 0 {
      var b := Encode(t);
      assert b[2..] == Encode(t[1..]);
      DecodeEncode(t[1..]);
      assert t == [t[0]] + t[1..];
    }
  }
}
