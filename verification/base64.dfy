/** Base64 in the basic alphabet of section 4 of RFC 4648, as
    `java.util.Base64.getEncoder()` writes it (always padded with `=`, no line
    breaks) and as `java.util.Base64.getDecoder()` reads it: padding may be
    left off the final unit but must be complete when present, the unused
    bits of the final unit are not checked, and any character outside the
    alphabet is rejected. */
module Base64 {
  import opened Wrappers
  import opened JavaLang

  const PadChar: char := '='

  /** The 64 characters of the alphabet, in value order A-Z, a-z, 0-9, +, /. */
  predicate IsAlphabetChar(c: char) {
    'A' <= c <= 'Z' || 'a' <= c <= 'z' || '0' <= c <= '9' || c == '+' || c == '/'
  }

  /** The character that encodes the 6-bit value `k`. */
  function CharOf(k: nat): (c: char)
    requires k < 64
    ensures IsAlphabetChar(c)
  {
    if k < 26 then ('A' as int + k) as char
    else if k < 52 then ('a' as int + (k - 26)) as char
    else if k < 62 then ('0' as int + (k - 52)) as char
    else if k == 62 then '+'
    else '/'
  }

  /** The 6-bit value an alphabet character encodes. */
  function ValueOf(c: char): (k: nat)
    requires IsAlphabetChar(c)
    ensures k < 64
  {
    if 'A' <= c <= 'Z' then c as int - 'A' as int
    else if 'a' <= c <= 'z' then c as int - 'a' as int + 26
    else if '0' <= c <= '9' then c as int - '0' as int + 52
    else if c == '+' then 62
    else 63
  }

  /** Value and character are inverse to each other. */
  lemma ValueOfCharOf(k: nat)
    requires k < 64
    ensures ValueOf(CharOf(k)) == k
  {
  }

  lemma CharOfValueOf(c: char)
    requires IsAlphabetChar(c)
    ensures CharOf(ValueOf(c)) == c
  {
  }

  // Three bytes x y z are the 24 bits of four 6-bit values:
  //   xxxxxxxx yyyyyyyy zzzzzzzz  ->  xxxxxx xxyyyy yyyyzz zzzzzz

  function EncodeTriple(x: byte, y: byte, z: byte): (u: string)
    ensures |u| == 4 && IsUnitText(u)
  {
    [CharOf(x as int / 4),
     CharOf(x as int % 4 * 16 + y as int / 16),
     CharOf(y as int % 16 * 4 + z as int / 64),
     CharOf(z as int % 64)]
  }

  /** A final pair of bytes, zero-extended and padded with one '='. */
  function EncodePair(x: byte, y: byte): (u: string)
    ensures |u| == 4 && IsUnitText(u)
  {
    [CharOf(x as int / 4), CharOf(x as int % 4 * 16 + y as int / 16), CharOf(y as int % 16 * 4), PadChar]
  }

  /** A final single byte, zero-extended and padded with two '='. */
  function EncodeSingle(x: byte): (u: string)
    ensures |u| == 4 && IsUnitText(u)
  {
    [CharOf(x as int / 4), CharOf(x as int % 4 * 16), PadChar, PadChar]
  }

  /** Every character is from the alphabet or is the pad character. */
  predicate IsUnitText(s: string) {
    forall k :: 0 <= k < |s| ==> IsAlphabetChar(s[k]) || s[k] == PadChar
  }

  /** Bytes are encoded three at a time; a final one or two bytes are
      zero-extended and padded to a unit of four characters. */
  function Encode(b: seq<byte>): (s: string)
    ensures |s| == 4 * ((|b| + 2) / 3)
    ensures IsUnitText(s)
    decreases |b|
  {
    if |b| == 0 then ""
    else if |b| == 1 then EncodeSingle(b[0])
    else if |b| == 2 then EncodePair(b[0], b[1])
    else
      var unit, rest := EncodeTriple(b[0], b[1], b[2]), Encode(b[3..]);
      UnitCount(|b|);
      UnitTextAppend(unit, rest);
      unit + rest
  }

  /** One more full unit for every three more bytes. */
  lemma UnitCount(n: nat)
    requires n >= 3
    ensures 4 + 4 * ((n - 3 + 2) / 3) == 4 * ((n + 2) / 3)
  {
  }

  lemma UnitTextAppend(a: string, b: string)
    requires IsUnitText(a) && IsUnitText(b)
    ensures IsUnitText(a + b)
  {
    forall k | 0 <= k < |a + b|
      ensures IsAlphabetChar((a + b)[k]) || (a + b)[k] == PadChar
    {
      if k < |a| {
        assert (a + b)[k] == a[k];
      } else {
        assert (a + b)[k] == b[k - |a|];
      }
    }
  }

  /** The first byte carried by a unit's first two characters. */
  function FirstByte(c0: char, c1: char): byte
    requires IsAlphabetChar(c0) && IsAlphabetChar(c1)
  {
    (ValueOf(c0) * 4 + ValueOf(c1) / 16) as byte
  }

  /** The second byte carried by a unit's second and third characters. */
  function SecondByte(c1: char, c2: char): byte
    requires IsAlphabetChar(c1) && IsAlphabetChar(c2)
  {
    (ValueOf(c1) % 16 * 16 + ValueOf(c2) / 4) as byte
  }

  /** The third byte carried by a unit's last two characters. */
  function ThirdByte(c2: char, c3: char): byte
    requires IsAlphabetChar(c2) && IsAlphabetChar(c3)
  {
    (ValueOf(c2) % 4 * 64 + ValueOf(c3)) as byte
  }

  predicate IsFullUnit(s: string)
    requires |s| >= 4
  {
    IsAlphabetChar(s[0]) && IsAlphabetChar(s[1]) && IsAlphabetChar(s[2]) && IsAlphabetChar(s[3])
  }

  /** The last, short unit: `xx`, `xx==`, `xxx` or `xxx=`; anything else is
      rejected (a lone character, wrong or partial padding, a foreign
      character, text after the padding). */
  function DecodeFinalUnit(s: string): Option<seq<byte>> {
    if |s| == 2 && IsAlphabetChar(s[0]) && IsAlphabetChar(s[1]) then
      Some([FirstByte(s[0], s[1])])
    else if |s| == 4 && IsAlphabetChar(s[0]) && IsAlphabetChar(s[1]) && s[2] == PadChar && s[3] == PadChar then
      Some([FirstByte(s[0], s[1])])
    else if (|s| == 3 || (|s| == 4 && s[3] == PadChar))
      && IsAlphabetChar(s[0]) && IsAlphabetChar(s[1]) && IsAlphabetChar(s[2]) then
      Some([FirstByte(s[0], s[1]), SecondByte(s[1], s[2])])
    else
      None
  }

  /** `Base64.getDecoder().decode(s)`; `None` is the IllegalArgumentException.
      A lone final character is always rejected; otherwise every four
      characters give three bytes, a final unpadded pair or triple one or
      two, and a final padded unit one to three. */
  function Decode(s: string): (r: Option<seq<byte>>)
    ensures |s| % 4 == 1 ==> r.None?
    ensures r.Some? && |s| % 4 == 2 ==> |r.value| == 3 * (|s| / 4) + 1
    ensures r.Some? && |s| % 4 == 3 ==> |r.value| == 3 * (|s| / 4) + 2
    ensures r.Some? && |s| % 4 == 0 ==> 3 * (|s| / 4) - 2 <= |r.value| <= 3 * (|s| / 4)
    decreases |s|
  {
    if |s| == 0 then Some([])
    else if |s| >= 4 && IsFullUnit(s) then
      match Decode(s[4..])
      case None => None
      case Some(rest) =>
        Some([FirstByte(s[0], s[1]), SecondByte(s[1], s[2]), ThirdByte(s[2], s[3])] + rest)
    else
      DecodeFinalUnit(s)
  }

  /** The bit arithmetic of a unit: the 6-bit groups put back together give
      the bytes they were cut from. */
  lemma RegroupBits(x: int, y: int, z: int)
    requires 0 <= x < 256 && 0 <= y < 256 && 0 <= z < 256
    ensures x / 4 * 4 + (x % 4 * 16 + y / 16) / 16 == x
    ensures (x % 4 * 16 + y / 16) % 16 * 16 + (y % 16 * 4 + z / 64) / 4 == y
    ensures (y % 16 * 4 + z / 64) % 4 * 64 + z % 64 == z
  {
  }

  /** The three bytes of a full unit come back from its four characters. */
  lemma TripleRoundTrip(x: byte, y: byte, z: byte)
    ensures var u := EncodeTriple(x, y, z);
      FirstByte(u[0], u[1]) == x && SecondByte(u[1], u[2]) == y && ThirdByte(u[2], u[3]) == z
  {
    ValueOfCharOf(x as int / 4);
    ValueOfCharOf(x as int % 4 * 16 + y as int / 16);
    ValueOfCharOf(y as int % 16 * 4 + z as int / 64);
    ValueOfCharOf(z as int % 64);
    RegroupBits(x as int, y as int, z as int);
  }

  /** A final single byte comes back from its padded unit. */
  lemma OneByteRoundTrip(b: seq<byte>)
    requires |b| == 1
    ensures Decode(Encode(b)) == Some(b)
  {
    var x := b[0] as int;
    ValueOfCharOf(x / 4);
    ValueOfCharOf(x % 4 * 16);
    RegroupBits(x, 0, 0);
    var s := Encode(b);
    assert s == [CharOf(x / 4), CharOf(x % 4 * 16), PadChar, PadChar];
    assert FirstByte(s[0], s[1]) == b[0];
    assert [b[0]] == b;
  }

  /** A final pair of bytes comes back from its padded unit. */
  lemma TwoBytesRoundTrip(b: seq<byte>)
    requires |b| == 2
    ensures Decode(Encode(b)) == Some(b)
  {
    var x, y := b[0] as int, b[1] as int;
    ValueOfCharOf(x / 4);
    ValueOfCharOf(x % 4 * 16 + y / 16);
    ValueOfCharOf(y % 16 * 4);
    RegroupBits(x, y, 0);
    var s := Encode(b);
    assert s == [CharOf(x / 4), CharOf(x % 4 * 16 + y / 16), CharOf(y % 16 * 4), PadChar];
    assert FirstByte(s[0], s[1]) == b[0];
    assert SecondByte(s[1], s[2]) == b[1];
    assert !IsFullUnit(s);
    assert Decode(s) == DecodeFinalUnit(s);
    assert [b[0], b[1]] == b;
  }

  /** A full unit in front of decodable text adds its three bytes in front. */
  lemma DecodeAfterFullUnit(u: string, t: string, rest: seq<byte>)
    requires |u| == 4 && IsFullUnit(u) && Decode(t) == Some(rest)
    ensures Decode(u + t) == Some([FirstByte(u[0], u[1]), SecondByte(u[1], u[2]), ThirdByte(u[2], u[3])] + rest)
  {
    var s := u + t;
    assert s[4..] == t;
    assert s[0] == u[0] && s[1] == u[1] && s[2] == u[2] && s[3] == u[3];
  }

  /** Encoding proceeds three bytes at a time. */
  lemma EncodeStep(b: seq<byte>)
    requires |b| >= 3
    ensures Encode(b) == EncodeTriple(b[0], b[1], b[2]) + Encode(b[3..])
  {
  }

  /** A sequence of at least three bytes is its first three and the rest. */
  lemma SplitFront(b: seq<byte>)
    requires |b| >= 3
    ensures [b[0], b[1], b[2]] + b[3..] == b
  {
  }

  /** A full leading unit round-trips whenever the rest of the bytes do. */
  lemma FullUnitRoundTrip(b: seq<byte>)
    requires |b| >= 3 && Decode(Encode(b[3..])) == Some(b[3..])
    ensures Decode(Encode(b)) == Some(b)
  {
    var unit := EncodeTriple(b[0], b[1], b[2]);
    var tail := Encode(b[3..]);
    var front := [FirstByte(unit[0], unit[1]), SecondByte(unit[1], unit[2]), ThirdByte(unit[2], unit[3])];
    assert Encode(b) == unit + tail by { EncodeStep(b); }
    assert Decode(unit + tail) == Some(front + b[3..]) by {
      DecodeAfterFullUnit(unit, tail, b[3..]);
    }
    assert front == [b[0], b[1], b[2]] by { TripleRoundTrip(b[0], b[1], b[2]); }
    SplitFront(b);
  }

  /** Decoding an encoding gives back the bytes. */
  lemma {:induction false} DecodeEncode(b: seq<byte>)
    ensures Decode(Encode(b)) == Some(b)
    decreases |b|
  {
    if |b| == 0 {
      assert Encode(b) == "";
    } else if |b| == 1 {
      OneByteRoundTrip(b);
    } else if |b| == 2 {
      TwoBytesRoundTrip(b);
    } else {
      DecodeEncode(b[3..]);
      FullUnitRoundTrip(b);
    }
  }

  /** A character that is neither in the alphabet nor the pad character
      makes the whole input undecodable, wherever it stands. */
  lemma {:induction false} DecodeRejectsForeignChar(s: string, k: nat)
    requires k < |s| && !IsAlphabetChar(s[k]) && s[k] != PadChar
    ensures Decode(s) == None
    decreases |s|
  {
    if |s| >= 4 && IsFullUnit(s) {
      assert s[4..][k - 4] == s[k];
      DecodeRejectsForeignChar(s[4..], k - 4);
    }
  }
}
