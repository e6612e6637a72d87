/**
 * The Base64 encoding of section 4 of RFC 4648 (alphabet of Table 1, '=' padding),
 * as used by the browser's btoa() on the bytes of a Latin-1 string, together with a
 * strict decoder that accepts exactly the canonical encodings.
 */
module Base64 {
  import opened Wrappers

  type Byte = b: int | 0 <= b < 256
  type Sextet = v: int | 0 <= v < 64

  const Pad: char := '='

  /** Table 1 of RFC 4648: the character that stands for a 6-bit value. */
  function CharOf(v: Sextet): (c: char)
    ensures c != Pad
    ensures ValueOf(c) == Some(v)
  {
    if v < 26 then ('A' as int + v) as char
    else if v < 52 then ('a' as int + (v - 26)) as char
    else if v < 62 then ('0' as int + (v - 52)) as char
    else if v == 62 then '+'
    else '/'
  }

  /** The inverse of Table 1; None for a character outside the alphabet (including '='). */
  function ValueOf(c: char): (r: Option<Sextet>)
    ensures r.None? <==> !IsAlphabetChar(c)
  {
    if 'A' <= c <= 'Z' then Some(c as int - 'A' as int)
    else if 'a' <= c <= 'z' then Some(c as int - 'a' as int + 26)
    else if '0' <= c <= '9' then Some(c as int - '0' as int + 52)
    else if c == '+' then Some(62)
    else if c == '/' then Some(63)
    else None
  }

  predicate IsAlphabetChar(c: char) {
    'A' <= c <= 'Z' || 'a' <= c <= 'z' || '0' <= c <= '9' || c == '+' || c == '/'
  }

  /** Three bytes (24 bits) become four characters. */
  function EncodeGroup(a: Byte, b: Byte, c: Byte): (s: string)
    ensures |s| == 4 && forall i :: 0 <= i < 4 ==> IsAlphabetChar(s[i])
  {
    [CharOf(a / 4), CharOf((a % 4) * 16 + b / 16), CharOf((b % 16) * 4 + c / 64), CharOf(c % 64)]
  }

  /** A final quantum of two bytes: three characters and one '='. */
  function EncodeTail2(a: Byte, b: Byte): (s: string)
    ensures |s| == 4 && s[3] == Pad && s[2] != Pad
  {
    [CharOf(a / 4), CharOf((a % 4) * 16 + b / 16), CharOf((b % 16) * 4), Pad]
  }

  /** A final quantum of one byte: two characters and "==". */
  function EncodeTail1(a: Byte): (s: string)
    ensures |s| == 4 && s[2] == Pad && s[3] == Pad && s[1] != Pad
  {
    [CharOf(a / 4), CharOf((a % 4) * 16), Pad, Pad]
  }

  /** Base64 encoding of a byte string, padded to a multiple of four characters. */
  function Encode(bs: seq<Byte>): (s: string)
    ensures |s| == 4 * ((|bs| + 2) / 3)
    ensures forall i :: 0 <= i < |s| ==> IsAlphabetChar(s[i]) || s[i] == Pad
    decreases |bs|
  {
    if |bs| == 0 then ""
    else if |bs| == 1 then EncodeTail1(bs[0])
    else if |bs| == 2 then EncodeTail2(bs[0], bs[1])
    else EncodeGroup(bs[0], bs[1], bs[2]) + Encode(bs[3..])
  }

  /** The three bytes of a quantum, from its four 6-bit values. */
  function First(v0: Sextet, v1: Sextet): Byte { v0 * 4 + v1 / 16 }
  function Second(v1: Sextet, v2: Sextet): Byte { (v1 % 16) * 16 + v2 / 4 }
  function Third(v2: Sextet, v3: Sextet): Byte { (v2 % 4) * 64 + v3 }

  /**
   * Decodes one four-character quantum. Padding is accepted only in the last
   * quantum, and only with the unused low bits zero (the canonical form).
   */
  function DecodeQuantum(q: string, last: bool): (r: Option<seq<Byte>>)
    requires |q| == 4
    ensures r.Some? ==> 1 <= |r.value| <= 3
    ensures r.Some? && |r.value| < 3 ==> last
  {
    match (ValueOf(q[0]), ValueOf(q[1]), ValueOf(q[2]), ValueOf(q[3]))
    case (Some(v0), Some(v1), Some(v2), Some(v3)) =>
      Some([First(v0, v1), Second(v1, v2), Third(v2, v3)])
    case (Some(v0), Some(v1), Some(v2), None) =>
      if last && q[3] == Pad && v2 % 4 == 0 then Some([First(v0, v1), Second(v1, v2)])
      else None
    case (Some(v0), Some(v1), None, None) =>
      if last && q[2] == Pad && q[3] == Pad && v1 % 16 == 0 then Some([First(v0, v1)])
      else None
    case _ => None
  }

  /** Strict Base64 decoding: None for any string that Encode cannot produce. */
  function Decode(s: string): (r: Option<seq<Byte>>)
    decreases |s|
  {
    if |s| == 0 then Some([])
    else if |s| < 4 then None
    else
      match DecodeQuantum(s[..4], |s| == 4)
      case None => None
      case Some(head) =>
        if |s| == 4 then Some(head)
        else
          match Decode(s[4..])
          case None => None
          case Some(rest) => Some(head + rest)
  }

  lemma FirstInverse(a: Byte, b: Byte)
    ensures First(a / 4, (a % 4) * 16 + b / 16) == a
  {
    assert ((a % 4) * 16 + b / 16) / 16 == a % 4;
  }

  lemma SecondInverse(a: Byte, b: Byte, c: Byte)
    ensures Second((a % 4) * 16 + b / 16, (b % 16) * 4 + c / 64) == b
  {
    assert ((a % 4) * 16 + b / 16) % 16 == b / 16;
    assert ((b % 16) * 4 + c / 64) / 4 == b % 16;
  }

  lemma ThirdInverse(b: Byte, c: Byte)
    ensures Third((b % 16) * 4 + c / 64, c % 64) == c
  {
    assert ((b % 16) * 4 + c / 64) % 4 == c / 64;
  }

  lemma DecodeEncodeGroup(a: Byte, b: Byte, c: Byte, last: bool)
    ensures DecodeQuantum(EncodeGroup(a, b, c), last) == Some([a, b, c])
  {
    FirstInverse(a, b);
    SecondInverse(a, b, c);
    ThirdInverse(b, c);
  }

  lemma DecodeEncodeTail2(a: Byte, b: Byte)
    ensures DecodeQuantum(EncodeTail2(a, b), true) == Some([a, b])
  {
    FirstInverse(a, b);
    SecondInverse(a, b, 0);
  }

  lemma DecodeEncodeTail1(a: Byte)
    ensures DecodeQuantum(EncodeTail1(a), true) == Some([a])
  {
    FirstInverse(a, 0);
  }

  /** Decoding recovers every byte string from its encoding. */
  lemma {:induction false} DecodeEncode(bs: seq<Byte>)
    ensures Decode(Encode(bs)) == Some(bs)
    decreases |bs|, 1
  {
    if |bs| == 0 {
    } else if |bs| == 1 {
      var s := EncodeTail1(bs[0]);
      DecodeEncodeTail1(bs[0]);
      assert s[..4] == s;
      assert Encode(bs) == s;
      assert bs == [bs[0]];
    } else if |bs| == 2 {
      var s := EncodeTail2(bs[0], bs[1]);
      DecodeEncodeTail2(bs[0], bs[1]);
      assert s[..4] == s;
      assert Encode(bs) == s;
      assert bs == [bs[0], bs[1]];
    } else {
      DecodeEncodeGroupThenRest(bs[0], bs[1], bs[2], bs[3..]);
      assert bs == [bs[0], bs[1], bs[2]] + bs[3..];
    }
  }

  lemma {:induction false} DecodeEncodeGroupThenRest(a: Byte, b: Byte, c: Byte, rest: seq<Byte>)
    ensures Decode(EncodeGroup(a, b, c) + Encode(rest)) == Some([a, b, c] + rest)
    decreases |rest| + 3, 0
  {
    var g := EncodeGroup(a, b, c);
    var t := Encode(rest);
    var s := g + t;
    assert s[..4] == g;
    DecodeEncodeGroup(a, b, c, |s| == 4);
    if |s| == 4 {
      assert |rest| == 0;
      assert [a, b, c] + rest == [a, b, c];
    } else {
      assert s[4..] == t;
      DecodeEncode(rest);
    }
  }

  lemma CharOfValueOf(c: char)
    requires IsAlphabetChar(c)
    ensures CharOf(ValueOf(c).value) == c
  {
  }

  lemma EncodeGroupOfDecoded(v0: Sextet, v1: Sextet, v2: Sextet, v3: Sextet)
    ensures EncodeGroup(First(v0, v1), Second(v1, v2), Third(v2, v3))
         == [CharOf(v0), CharOf(v1), CharOf(v2), CharOf(v3)]
  {
    var a, b, c := First(v0, v1), Second(v1, v2), Third(v2, v3);
    assert a / 4 == v0 && a % 4 == v1 / 16;
    assert b / 16 == v1 % 16 && b % 16 == v2 / 4;
    assert c / 64 == v2 % 4 && c % 64 == v3;
  }

  lemma EncodeTail2OfDecoded(v0: Sextet, v1: Sextet, v2: Sextet)
    requires v2 % 4 == 0
    ensures EncodeTail2(First(v0, v1), Second(v1, v2)) == [CharOf(v0), CharOf(v1), CharOf(v2), Pad]
  {
    var a, b := First(v0, v1), Second(v1, v2);
    assert a / 4 == v0 && a % 4 == v1 / 16;
    assert b / 16 == v1 % 16 && b % 16 == v2 / 4;
  }

  lemma EncodeTail1OfDecoded(v0: Sextet, v1: Sextet)
    requires v1 % 16 == 0
    ensures EncodeTail1(First(v0, v1)) == [CharOf(v0), CharOf(v1), Pad, Pad]
  {
    var a := First(v0, v1);
    assert a / 4 == v0 && a % 4 == v1 / 16;
  }

  /** A quantum that decodes is the encoding of the bytes it decodes to. */
  lemma EncodeDecodedQuantum(q: string, last: bool)
    requires |q| == 4 && DecodeQuantum(q, last).Some?
    ensures var b := DecodeQuantum(q, last).value;
            q == if |b| == 3 then EncodeGroup(b[0], b[1], b[2])
                 else if |b| == 2 then EncodeTail2(b[0], b[1])
                 else EncodeTail1(b[0])
  {
    if IsAlphabetChar(q[0]) { CharOfValueOf(q[0]); }
    if IsAlphabetChar(q[1]) { CharOfValueOf(q[1]); }
    if IsAlphabetChar(q[2]) { CharOfValueOf(q[2]); }
    if IsAlphabetChar(q[3]) { CharOfValueOf(q[3]); }
    var v0, v1 := ValueOf(q[0]).value, ValueOf(q[1]).value;
    if IsAlphabetChar(q[3]) {
      EncodeGroupOfDecoded(v0, v1, ValueOf(q[2]).value, ValueOf(q[3]).value);
    } else if IsAlphabetChar(q[2]) {
      EncodeTail2OfDecoded(v0, v1, ValueOf(q[2]).value);
    } else {
      EncodeTail1OfDecoded(v0, v1);
    }
  }

  /** The decoder is strict: whatever it accepts is exactly the encoding of its result. */
  lemma {:induction false} EncodeDecode(s: string)
    requires Decode(s).Some?
    ensures Encode(Decode(s).value) == s
    decreases |s|
  {
    if |s| > 0 {
      var head := DecodeQuantum(s[..4], |s| == 4).value;
      EncodeDecodedQuantum(s[..4], |s| == 4);
      if |s| == 4 {
        assert s[..4] == s;
      } else {
        var rest := Decode(s[4..]).value;
        EncodeDecode(s[4..]);
        var bs := head + rest;
        assert |head| == 3 && |rest| > 0;
        assert bs[3..] == rest;
        assert s == s[..4] + s[4..];
      }
    }
  }
}
