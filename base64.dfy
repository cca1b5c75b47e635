/**
 * Base64 with the basic alphabet and padding of section 4 of RFC 4648, as
 * java.util.Base64.getEncoder() writes it and java.util.Base64.getDecoder()
 * reads it.
 */
module Base64 {
  import opened Wrappers

  type byte = x: int | 0 <= x < 256
  type sextet = x: int | 0 <= x < 64

  /** The 64 characters of the basic alphabet (the '=' pad is not among them). */
  predicate IsAlphabetChar(c: char)
  {
    'A' <= c <= 'Z' || 'a' <= c <= 'z' || '0' <= c <= '9' || c == '+' || c == '/'
  }

  /** Table 1 of RFC 4648: value to character. */
  function CharOf(v: sextet): (c: char)
    ensures IsAlphabetChar(c)
  {
    if v < 26 then ('A' as int + v) as char
    else if v < 52 then ('a' as int + (v - 26)) as char
    else if v < 62 then ('0' as int + (v - 52)) as char
    else if v == 62 then '+'
    else '/'
  }

  /** Table 1 of RFC 4648: character to value. */
  function ValueOf(c: char): (v: sextet)
    requires IsAlphabetChar(c)
    ensures CharOf(v) == c
  {
    if 'A' <= c <= 'Z' then c as int - 'A' as int
    else if 'a' <= c <= 'z' then c as int - 'a' as int + 26
    else if '0' <= c <= '9' then c as int - '0' as int + 52
    else if c == '+' then 62
    else 63
  }

  lemma ValueOfCharOf(v: sextet)
    ensures ValueOf(CharOf(v)) == v
  {
  }

  /** The characters an encoder may write: the alphabet and the pad. */
  predicate IsEncodedChar(c: char)
  {
    IsAlphabetChar(c) || c == '='
  }

  /** Three octets become four characters. */
  function EncodeQuantum(b0: byte, b1: byte, b2: byte): string
  {
    [CharOf(b0 / 4), CharOf((b0 % 4) * 16 + b1 / 16), CharOf((b1 % 16) * 4 + b2 / 64), CharOf(b2 % 64)]
  }

  /** Encoder: whole quanta, then a final unit padded with "==" (one octet) or "=" (two octets). */
  function Encode(b: seq<byte>): (s: string)
    ensures |s| == 4 * ((|b| + 2) / 3)
    ensures forall i :: 0 <= i < |s| ==> IsEncodedChar(s[i])
  {
    if |b| == 0 then ""
    else if |b| == 1 then [CharOf(b[0] / 4), CharOf((b[0] % 4) * 16), '=', '=']
    else if |b| == 2 then [CharOf(b[0] / 4), CharOf((b[0] % 4) * 16 + b[1] / 16), CharOf((b[1] % 16) * 4), '=']
    else EncodeQuantum(b[0], b[1], b[2]) + Encode(b[3..])
  }

  /** The octets of a complete four-character unit. */
  function DecodeQuantum(v0: sextet, v1: sextet, v2: sextet, v3: sextet): seq<byte>
  {
    [v0 * 4 + v1 / 16, (v1 % 16) * 16 + v2 / 4, (v2 % 4) * 64 + v3]
  }

  predicate AllAlphabet(s: string)
  {
    forall i :: 0 <= i < |s| ==> IsAlphabetChar(s[i])
  }

  /** The octet a final unit of two characters carries (its last four bits are dropped). */
  function OneOctet(c0: char, c1: char): seq<byte>
    requires IsAlphabetChar(c0) && IsAlphabetChar(c1)
  {
    [ValueOf(c0) * 4 + ValueOf(c1) / 16]
  }

  /** The octets a final unit of three characters carries (its last two bits are dropped). */
  function TwoOctets(c0: char, c1: char, c2: char): seq<byte>
    requires IsAlphabetChar(c0) && IsAlphabetChar(c1) && IsAlphabetChar(c2)
  {
    [ValueOf(c0) * 4 + ValueOf(c1) / 16, (ValueOf(c1) % 16) * 16 + ValueOf(c2) / 4]
  }

  /** The last unit of at most four characters that is not a complete unit. */
  function DecodeFinal(u: string): Option<seq<byte>>
    requires |u| <= 4
  {
    if |u| == 2 && AllAlphabet(u) then Some(OneOctet(u[0], u[1]))
    else if |u| == 3 && AllAlphabet(u) then Some(TwoOctets(u[0], u[1], u[2]))
    else if |u| == 4 && AllAlphabet(u[..2]) && u[2] == '=' && u[3] == '=' then Some(OneOctet(u[0], u[1]))
    else if |u| == 4 && AllAlphabet(u[..3]) && u[3] == '=' then Some(TwoOctets(u[0], u[1], u[2]))
    else None
  }

  /**
   * java.util.Base64.getDecoder().decode: complete units of four alphabet
   * characters, then optionally a final unit of two or three alphabet characters,
   * either unpadded or padded to four with '='; the bits left over in a final
   * unit are ignored. Anything else (a character outside the alphabet, a single
   * dangling character, wrong or misplaced padding, text after the padding)
   * is rejected, which the decoder signals with IllegalArgumentException.
   */
  function Decode(s: string): Option<seq<byte>>
  {
    if |s| == 0 then Some([])
    else if |s| > 4 || AllAlphabet(s) then
      if |s| >= 4 && AllAlphabet(s[..4]) then
        match Decode(s[4..])
        case None => None
        case Some(rest) => Some(DecodeQuantum(ValueOf(s[0]), ValueOf(s[1]), ValueOf(s[2]), ValueOf(s[3])) + rest)
      else if |s| < 4 then DecodeFinal(s)
      else None
    else DecodeFinal(s)
  }

  /** Splitting an octet and joining the parts back (k is the weight of the high part). */
  lemma Rejoin16(hi: int, lo: int)
    requires 0 <= lo < 16
    ensures (hi * 16 + lo) / 16 == hi && (hi * 16 + lo) % 16 == lo
  {
  }

  lemma Rejoin4(hi: int, lo: int)
    requires 0 <= lo < 4
    ensures (hi * 4 + lo) / 4 == hi && (hi * 4 + lo) % 4 == lo
  {
  }

  lemma QuantumRoundTrip(b0: byte, b1: byte, b2: byte)
    ensures var q := EncodeQuantum(b0, b1, b2);
      AllAlphabet(q) && DecodeQuantum(ValueOf(q[0]), ValueOf(q[1]), ValueOf(q[2]), ValueOf(q[3])) == [b0, b1, b2]
  {
    var v0, v1, v2, v3 := b0 / 4, (b0 % 4) * 16 + b1 / 16, (b1 % 16) * 4 + b2 / 64, b2 % 64;
    ValueOfCharOf(v0);
    ValueOfCharOf(v1);
    ValueOfCharOf(v2);
    ValueOfCharOf(v3);
    Rejoin16(b0 % 4, b1 / 16);
    Rejoin4(b1 % 16, b2 / 64);
    assert v0 * 4 + v1 / 16 == b0;
    assert (v1 % 16) * 16 + v2 / 4 == b1;
    assert (v2 % 4) * 64 + v3 == b2;
  }

  lemma OneOctetRoundTrip(b0: byte)
    ensures OneOctet(CharOf(b0 / 4), CharOf((b0 % 4) * 16)) == [b0]
  {
    ValueOfCharOf(b0 / 4);
    ValueOfCharOf((b0 % 4) * 16);
    Rejoin16(b0 % 4, 0);
  }

  lemma TwoOctetsRoundTrip(b0: byte, b1: byte)
    ensures TwoOctets(CharOf(b0 / 4), CharOf((b0 % 4) * 16 + b1 / 16), CharOf((b1 % 16) * 4)) == [b0, b1]
  {
    var v0, v1, v2 := b0 / 4, (b0 % 4) * 16 + b1 / 16, (b1 % 16) * 4;
    ValueOfCharOf(v0);
    ValueOfCharOf(v1);
    ValueOfCharOf(v2);
    Rejoin16(b0 % 4, b1 / 16);
    Rejoin4(b1 % 16, 0);
  }

  /** Two alphabet characters and "==" are a final unit of one octet. */
  lemma DecodeOnePadded(c0: char, c1: char)
    requires IsAlphabetChar(c0) && IsAlphabetChar(c1)
    ensures Decode([c0, c1, '=', '=']) == Some(OneOctet(c0, c1))
  {
    var s := [c0, c1, '=', '='];
    assert !IsAlphabetChar(s[3]) && s[..2] == [c0, c1];
  }

  /** Three alphabet characters and "=" are a final unit of two octets. */
  lemma DecodeTwoPadded(c0: char, c1: char, c2: char)
    requires IsAlphabetChar(c0) && IsAlphabetChar(c1) && IsAlphabetChar(c2)
    ensures Decode([c0, c1, c2, '=']) == Some(TwoOctets(c0, c1, c2))
  {
    var s := [c0, c1, c2, '='];
    assert !IsAlphabetChar(s[3]) && s[..3] == [c0, c1, c2];
  }

  /** A final unit of one octet: two characters and "==". */
  lemma RoundTripOne(b: seq<byte>)
    requires |b| == 1
    ensures Decode(Encode(b)) == Some(b)
  {
    EncodeOne(b);
    DecodeOnePadded(CharOf(b[0] / 4), CharOf((b[0] % 4) * 16));
    OneOctetRoundTrip(b[0]);
  }

  lemma EncodeOne(b: seq<byte>)
    requires |b| == 1
    ensures b == [b[0]]
    ensures Encode(b) == [CharOf(b[0] / 4), CharOf((b[0] % 4) * 16), '=', '=']
  {
    assert b == b[..1] == [b[0]];
  }

  /** A final unit of two octets: three characters and "=". */
  lemma RoundTripTwo(b: seq<byte>)
    requires |b| == 2
    ensures Decode(Encode(b)) == Some(b)
  {
    EncodeTwo(b);
    DecodeTwoPadded(CharOf(b[0] / 4), CharOf((b[0] % 4) * 16 + b[1] / 16), CharOf((b[1] % 16) * 4));
    TwoOctetsRoundTrip(b[0], b[1]);
  }

  lemma EncodeTwo(b: seq<byte>)
    requires |b| == 2
    ensures b == [b[0], b[1]]
    ensures Encode(b) == [CharOf(b[0] / 4), CharOf((b[0] % 4) * 16 + b[1] / 16), CharOf((b[1] % 16) * 4), '=']
  {
    assert b == b[..2] == [b[0], b[1]];
  }

  /** A complete unit in front of the rest decodes to its three octets in front of the rest's. */
  lemma DecodeUnit(q: string, t: string)
    requires |q| == 4 && AllAlphabet(q)
    ensures Decode(q + t) == match Decode(t)
      case None => None
      case Some(rest) => Some(DecodeQuantum(ValueOf(q[0]), ValueOf(q[1]), ValueOf(q[2]), ValueOf(q[3])) + rest)
  {
    var s := q + t;
    assert s[..4] == q && s[4..] == t;
  }

  /** A complete unit whose octets are u, in front of text that decodes to rest, decodes to u + rest. */
  lemma PrependUnit(q: string, t: string, u: seq<byte>, rest: seq<byte>)
    requires |q| == 4 && AllAlphabet(q)
    requires DecodeQuantum(ValueOf(q[0]), ValueOf(q[1]), ValueOf(q[2]), ValueOf(q[3])) == u
    requires Decode(t) == Some(rest)
    ensures Decode(q + t) == Some(u + rest)
  {
    DecodeUnit(q, t);
  }

  /** The encoding of three or more octets: one complete quantum, then the rest's encoding. */
  lemma EncodeQuantumFirst(b: seq<byte>)
    requires |b| >= 3
    ensures Encode(b) == EncodeQuantum(b[0], b[1], b[2]) + Encode(b[3..])
  {
  }

  /** A complete quantum in front: its encoding decodes back when the rest's does. */
  lemma RoundTripQuantum(b: seq<byte>)
    requires |b| >= 3 && Decode(Encode(b[3..])) == Some(b[3..])
    ensures Decode(Encode(b)) == Some(b)
  {
    EncodeQuantumFirst(b);
    QuantumRoundTrip(b[0], b[1], b[2]);
    SplitThree(b);
    PrependUnit(EncodeQuantum(b[0], b[1], b[2]), Encode(b[3..]), [b[0], b[1], b[2]], b[3..]);
  }

  lemma SplitThree(b: seq<byte>)
    requires |b| >= 3
    ensures b == [b[0], b[1], b[2]] + b[3..]
  {
    assert b[..3] == [b[0], b[1], b[2]];
    assert b == b[..3] + b[3..];
  }

  /** Decoding what the encoder wrote gives back the original octets. */
  lemma {:induction false} RoundTrip(b: seq<byte>)
    ensures Decode(Encode(b)) == Some(b)
  {
    if |b| == 1 {
      RoundTripOne(b);
    } else if |b| == 2 {
      RoundTripTwo(b);
    } else if |b| >= 3 {
      RoundTrip(b[3..]);
      RoundTripQuantum(b);
    }
  }

  /**
   * What the decoder accepts: no single dangling character, nothing but the
   * alphabet and the pad, and the pad only in the last two places.
   */
  lemma {:induction false} DecodeAccepts(s: string)
    requires Decode(s).Some?
    ensures |s| % 4 != 1
    ensures forall i :: 0 <= i < |s| ==> IsEncodedChar(s[i])
    ensures forall i :: 0 <= i < |s| - 2 ==> s[i] != '='
    decreases |s|
  {
    if |s| >= 4 && AllAlphabet(s[..4]) {
      var t := s[4..];
      DecodeAccepts(t);
      forall i | 0 <= i < |s| ensures IsEncodedChar(s[i]) && (i < |s| - 2 ==> s[i] != '=') {
        if i < 4 {
          assert s[i] == s[..4][i];
        } else {
          assert s[i] == t[i - 4];
        }
      }
    }
  }

  /** Input the decoder rejects: a dangling character, a pad in the middle, a character outside the alphabet. */
  lemma DecodeRejects()
    ensures Decode("A") == None
    ensures Decode("QUJD" + "A") == None
    ensures Decode("AB=C") == None
    ensures Decode("AB-C") == None
  {
  }

  /** The encoded text is never empty for a non-empty payload, and never contains markup. */
  lemma EncodedIsPlainText(b: seq<byte>)
    ensures Encode(b) == "" <==> b == []
    ensures '<' !in Encode(b) && '>' !in Encode(b) && ':' !in Encode(b)
  {
  }
}
