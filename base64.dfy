/**
 * The base 64 encoding of section 4 of RFC 4648: the standard alphabet of its
 * Table 1, every 3 input octets become 4 characters, and a final group of 1 or
 * 2 octets is completed with "==" or "=" respectively. `Encode` is what
 * Python's `base64.b64encode(...).decode('utf-8')` returns; `Decode` accepts
 * exactly the strings of that shape and gives back the octets.
 */
module Base64 {
  import opened Wrappers

  /** One octet of binary data. */
  type byte = b: int | 0 <= b < 256

  /** A 6-bit group: the index of one character of the alphabet. */
  type sextet = i: int | 0 <= i < 64

  const Pad: char := '='

  /** The characters of the alphabet: `A`-`Z`, `a`-`z`, `0`-`9`, `+` and `/`. */
  predicate IsAlphabetChar(c: char)
  {
    'A' <= c <= 'Z' || 'a' <= c <= 'z' || '0' <= c <= '9' || c == '+' || c == '/'
  }

  /** Table 1 of RFC 4648: the character that encodes the value `i`. */
  function IndexToChar(i: sextet): (c: char)
    ensures IsAlphabetChar(c)
  {
    if i < 26 then ('A' as int + i) as char
    else if i < 52 then ('a' as int + (i - 26)) as char
    else if i < 62 then ('0' as int + (i - 52)) as char
    else if i == 62 then '+'
    else '/'
  }

  /** The value an alphabet character encodes: the inverse of `IndexToChar`. */
  function CharToIndex(c: char): (i: sextet)
    requires IsAlphabetChar(c)
    ensures IndexToChar(i) == c
  {
    if 'A' <= c <= 'Z' then c as int - 'A' as int
    else if 'a' <= c <= 'z' then c as int - 'a' as int + 26
    else if '0' <= c <= '9' then c as int - '0' as int + 52
    else if c == '+' then 62
    else 63
  }

  lemma CharToIndexOfIndexToChar(i: sextet)
    ensures CharToIndex(IndexToChar(i)) == i
  {
  }

  /** The four characters of the 24-bit group `b0 b1 b2`, most significant bits first. */
  function EncodeGroup(b0: byte, b1: byte, b2: byte): string
  {
    [IndexToChar(b0 / 4),
     IndexToChar(b0 % 4 * 16 + b1 / 16),
     IndexToChar(b1 % 16 * 4 + b2 / 64),
     IndexToChar(b2 % 64)]
  }

  /** The three octets of the 24-bit group carried by four sextets. */
  function DecodeGroup(c0: sextet, c1: sextet, c2: sextet, c3: sextet): seq<byte>
  {
    [c0 * 4 + c1 / 16, c1 % 16 * 16 + c2 / 4, c2 % 4 * 64 + c3]
  }

  /** The base 64 encoding of `b`, padded to a multiple of four characters. */
  function Encode(b: seq<byte>): (s: string)
    ensures |s| == 4 * ((|b| + 2) / 3)
    decreases |b|
  {
    if |b| == 0 then []
    else if |b| == 1 then EncodeGroup(b[0], 0, 0)[..2] + [Pad, Pad]
    else if |b| == 2 then EncodeGroup(b[0], b[1], 0)[..3] + [Pad]
    else EncodeGroup(b[0], b[1], b[2]) + Encode(b[3..])
  }

  /**
   * The shape of an encoding: a multiple of four characters, all from the
   * alphabet except for padding, which may fill only the last one or two
   * positions and, when two, fills both.
   */
  predicate IsEncoded(s: string)
  {
    && |s| % 4 == 0
    && (forall i :: 0 <= i < |s| ==> IsAlphabetChar(s[i]) || (s[i] == Pad && |s| - 2 <= i))
    && (|s| >= 2 && s[|s| - 2] == Pad ==> s[|s| - 1] == Pad)
  }

  predicate AllAlphabet(q: string)
  {
    forall i :: 0 <= i < |q| ==> IsAlphabetChar(q[i])
  }

  /** The three octets of four alphabet characters. */
  function DecodeQuad(q: string): seq<byte>
    requires |q| == 4 && AllAlphabet(q)
  {
    DecodeGroup(CharToIndex(q[0]), CharToIndex(q[1]), CharToIndex(q[2]), CharToIndex(q[3]))
  }

  /** The octets of the final four characters, which may end in padding. */
  function DecodeLast(q: string): Option<seq<byte>>
    requires |q| == 4
  {
    if !(IsAlphabetChar(q[0]) && IsAlphabetChar(q[1])) then None
    else if IsAlphabetChar(q[2]) && IsAlphabetChar(q[3]) then Some(DecodeQuad(q))
    else if q[2] == Pad && q[3] == Pad then Some(DecodeQuad(q[..2] + "AA")[..1])
    else if IsAlphabetChar(q[2]) && q[3] == Pad then Some(DecodeQuad(q[..3] + "A")[..2])
    else None
  }

  /**
   * The octets `s` encodes, or `None` when `s` is not an encoding. Bits of the
   * last character that padding leaves unused are ignored, as Python does.
   */
  function Decode(s: string): (r: Option<seq<byte>>)
    ensures r.Some? ==> |s| % 4 == 0 && |r.value| <= 3 * (|s| / 4)
    decreases |s|
  {
    if |s| == 0 then Some([])
    else if |s| < 4 then None
    else if |s| == 4 then DecodeLast(s)
    else if !AllAlphabet(s[..4]) then None
    else
      match Decode(s[4..])
      case None => None
      case Some(rest) => Some(DecodeQuad(s[..4]) + rest)
  }

  /** The bit arithmetic of one group: regrouping 3 x 8 bits as 4 x 6 bits and back is the identity. */
  lemma RegroupBits(b0: byte, b1: byte, b2: byte)
    ensures b0 / 4 * 4 + (b0 % 4 * 16 + b1 / 16) / 16 == b0
    ensures (b0 % 4 * 16 + b1 / 16) % 16 * 16 + (b1 % 16 * 4 + b2 / 64) / 4 == b1
    ensures (b1 % 16 * 4 + b2 / 64) % 4 * 64 + b2 % 64 == b2
  {
    var hi0, lo0 := b0 / 4, b0 % 4;
    var hi1, lo1 := b1 / 16, b1 % 16;
    var hi2, lo2 := b2 / 64, b2 % 64;
    assert (lo0 * 16 + hi1) / 16 == lo0 && (lo0 * 16 + hi1) % 16 == hi1;
    assert (lo1 * 4 + hi2) / 4 == lo1 && (lo1 * 4 + hi2) % 4 == hi2;
  }

  /** Decoding a group of four characters undoes encoding it. */
  lemma DecodeEncodeGroup(b0: byte, b1: byte, b2: byte)
    ensures AllAlphabet(EncodeGroup(b0, b1, b2))
    ensures DecodeQuad(EncodeGroup(b0, b1, b2)) == [b0, b1, b2]
  {
    var c0, c1, c2, c3 := b0 / 4, b0 % 4 * 16 + b1 / 16, b1 % 16 * 4 + b2 / 64, b2 % 64;
    CharToIndexOfIndexToChar(c0);
    CharToIndexOfIndexToChar(c1);
    CharToIndexOfIndexToChar(c2);
    CharToIndexOfIndexToChar(c3);
    RegroupBits(b0, b1, b2);
    assert DecodeGroup(c0, c1, c2, c3) == [b0, b1, b2];
  }

  /** Decoding the encoding of a final group of one octet gives it back. */
  lemma DecodeEncodeOne(b0: byte)
    ensures Decode(Encode([b0])) == Some([b0])
  {
    var q, s := EncodeGroup(b0, 0, 0), Encode([b0]);
    DecodeEncodeGroup(b0, 0, 0);
    assert s == q[..2] + [Pad, Pad];
    assert q == s[..2] + "AA";
    assert Decode(s) == Some(DecodeQuad(s[..2] + "AA")[..1]);
    assert DecodeQuad(s[..2] + "AA") == [b0, 0, 0];
    assert [b0, 0, 0][..1] == [b0];
  }

  /** Decoding the encoding of a final group of two octets gives them back. */
  lemma DecodeEncodeTwo(b0: byte, b1: byte)
    ensures Decode(Encode([b0, b1])) == Some([b0, b1])
  {
    var q, s := EncodeGroup(b0, b1, 0), Encode([b0, b1]);
    DecodeEncodeGroup(b0, b1, 0);
    assert s == q[..3] + [Pad];
    assert q == s[..3] + "A";
    assert Decode(s) == Some(DecodeQuad(s[..3] + "A")[..2]);
    assert DecodeQuad(s[..3] + "A") == [b0, b1, 0];
    assert [b0, b1, 0][..2] == [b0, b1];
  }

  /** Decoding the encoding of a last full group of three octets gives them back. */
  lemma DecodeEncodeThree(b0: byte, b1: byte, b2: byte)
    ensures Decode(Encode([b0, b1, b2])) == Some([b0, b1, b2])
  {
    var b := [b0, b1, b2];
    DecodeEncodeGroup(b0, b1, b2);
    assert b[3..] == [];
    assert Encode(b) == EncodeGroup(b0, b1, b2);
  }

  /** A full group of four alphabet characters in front of an encoding decodes to its three octets in front. */
  lemma DecodePrepend(q: string, rest: string)
    requires |q| == 4 && AllAlphabet(q)
    requires |rest| > 0 && Decode(rest).Some?
    ensures Decode(q + rest) == Some(DecodeQuad(q) + Decode(rest).value)
  {
    var s := q + rest;
    assert s[..4] == q && s[4..] == rest;
  }

  lemma EncodeFullGroup(b: seq<byte>)
    requires |b| > 3
    ensures Encode(b) == EncodeGroup(b[0], b[1], b[2]) + Encode(b[3..])
    ensures |Encode(b[3..])| > 0
  {
  }

  lemma SplitFirstGroup(b: seq<byte>)
    requires |b| > 3
    ensures b == [b[0], b[1], b[2]] + b[3..]
  {
  }

  /** One induction step of the round trip: a full group in front of a non-empty remainder. */
  lemma DecodeEncodeStep(b: seq<byte>)
    requires |b| > 3
    requires Decode(Encode(b[3..])) == Some(b[3..])
    ensures Decode(Encode(b)) == Some(b)
  {
    var q, rest := EncodeGroup(b[0], b[1], b[2]), Encode(b[3..]);
    DecodeEncodeGroup(b[0], b[1], b[2]);
    EncodeFullGroup(b);
    DecodePrepend(q, rest);
    SplitFirstGroup(b);
  }

  /** Round trip: decoding the encoding of any octets gives them back exactly. */
  lemma {:induction false} DecodeEncode(b: seq<byte>)
    ensures Decode(Encode(b)) == Some(b)
    decreases |b|
  {
    if |b| == 1 {
      assert b == [b[0]];
      DecodeEncodeOne(b[0]);
    } else if |b| == 2 {
      assert b == [b[0], b[1]];
      DecodeEncodeTwo(b[0], b[1]);
    } else if |b| == 3 {
      assert b == [b[0], b[1], b[2]];
      DecodeEncodeThree(b[0], b[1], b[2]);
    } else if |b| > 3 {
      DecodeEncode(b[3..]);
      DecodeEncodeStep(b);
    }
  }

  /** Encoding is injective: distinct octet sequences have distinct encodings. */
  lemma EncodeInjective(a: seq<byte>, b: seq<byte>)
    requires Encode(a) == Encode(b)
    ensures a == b
  {
    DecodeEncode(a);
    DecodeEncode(b);
  }

  /** The shape of an encoding longer than one group is a full group followed by the shape again. */
  lemma IsEncodedSplit(s: string)
    requires |s| > 4
    ensures IsEncoded(s) <==> AllAlphabet(s[..4]) && IsEncoded(s[4..])
  {
    var tail := s[4..];
    assert forall i :: 0 <= i < |tail| ==> tail[i] == s[i + 4];
    if AllAlphabet(s[..4]) && IsEncoded(tail) {
      forall i | 0 <= i < |s|
        ensures IsAlphabetChar(s[i]) || (s[i] == Pad && |s| - 2 <= i)
      {
        if i >= 4 {
          assert s[i] == tail[i - 4];
        } else {
          assert s[i] == s[..4][i];
        }
      }
    }
  }

  /** Every encoding has the shape `IsEncoded` describes. */
  lemma {:induction false} EncodeIsEncoded(b: seq<byte>)
    ensures IsEncoded(Encode(b))
    decreases |b|
  {
    if |b| > 3 {
      var s := Encode(b);
      EncodeIsEncoded(b[3..]);
      EncodeFullGroup(b);
      DecodeEncodeGroup(b[0], b[1], b[2]);
      assert s[..4] == EncodeGroup(b[0], b[1], b[2]) && s[4..] == Encode(b[3..]);
      IsEncodedSplit(s);
    } else if |b| == 3 {
      EncodeFullGroup3(b);
      DecodeEncodeGroup(b[0], b[1], b[2]);
    }
  }

  lemma EncodeFullGroup3(b: seq<byte>)
    requires |b| == 3
    ensures Encode(b) == EncodeGroup(b[0], b[1], b[2])
  {
    assert b[3..] == [];
  }

  /** `Decode` accepts exactly the strings of the shape `IsEncoded` describes. */
  lemma {:induction false} DecodeAcceptsExactlyEncoded(s: string)
    ensures Decode(s).Some? <==> IsEncoded(s)
    decreases |s|
  {
    if |s| > 4 {
      DecodeAcceptsExactlyEncoded(s[4..]);
      IsEncodedSplit(s);
    }
  }

  /**
   * The bits of the last character before padding that carry no octet are
   * zero, as section 3.5 of RFC 4648 requires of an encoder: the low four bits
   * before "==", the low two bits before "=".
   */
  predicate UnusedBitsZero(s: string)
  {
    |s| >= 4 && s[|s| - 1] == Pad ==>
      if s[|s| - 2] == Pad then IsAlphabetChar(s[|s| - 3]) && CharToIndex(s[|s| - 3]) % 16 == 0
      else IsAlphabetChar(s[|s| - 2]) && CharToIndex(s[|s| - 2]) % 4 == 0
  }

  /** The unused bits of a final group of one octet are zero. */
  lemma UnusedBitsZeroOne(b0: byte)
    ensures UnusedBitsZero(Encode([b0]))
  {
    var c0, c1 := b0 / 4, b0 % 4 * 16;
    var s := Encode([b0]);
    assert s == [IndexToChar(c0), IndexToChar(c1), Pad, Pad];
    CharToIndexOfIndexToChar(c1);
  }

  /** The unused bits of a final group of two octets are zero. */
  lemma UnusedBitsZeroTwo(b0: byte, b1: byte)
    ensures UnusedBitsZero(Encode([b0, b1]))
  {
    var c0, c1, c2 := b0 / 4, b0 % 4 * 16 + b1 / 16, b1 % 16 * 4;
    var s := Encode([b0, b1]);
    assert s == [IndexToChar(c0), IndexToChar(c1), IndexToChar(c2), Pad];
    CharToIndexOfIndexToChar(c2);
  }

  /** A group in front leaves the last three characters, and so `UnusedBitsZero`, as they were. */
  lemma UnusedBitsZeroPrepend(q: string, tail: string)
    requires |q| == 4 && |tail| >= 4
    ensures UnusedBitsZero(q + tail) <==> UnusedBitsZero(tail)
  {
    var s := q + tail;
    assert s[|s| - 1] == tail[|tail| - 1] && s[|s| - 2] == tail[|tail| - 2] && s[|s| - 3] == tail[|tail| - 3];
  }

  /** The encoder leaves the unused bits zero. */
  lemma {:induction false} EncodeUnusedBitsZero(b: seq<byte>)
    ensures UnusedBitsZero(Encode(b))
    decreases |b|
  {
    if |b| == 1 {
      assert b == [b[0]];
      UnusedBitsZeroOne(b[0]);
    } else if |b| == 2 {
      assert b == [b[0], b[1]];
      UnusedBitsZeroTwo(b[0], b[1]);
    } else if |b| > 3 {
      EncodeUnusedBitsZero(b[3..]);
      EncodeFullGroup(b);
      UnusedBitsZeroPrepend(EncodeGroup(b[0], b[1], b[2]), Encode(b[3..]));
    }
  }

  /** The bit arithmetic of one group read the other way: 4 x 6 bits as 3 x 8 bits and back. */
  lemma RegroupSextets(c0: sextet, c1: sextet, c2: sextet, c3: sextet)
    ensures var d := DecodeGroup(c0, c1, c2, c3);
      && d[0] / 4 == c0 && d[0] % 4 * 16 + d[1] / 16 == c1
      && d[1] % 16 * 4 + d[2] / 64 == c2 && d[2] % 64 == c3
  {
    var hi1, lo1 := c1 / 16, c1 % 16;
    var hi2, lo2 := c2 / 4, c2 % 4;
    assert (c0 * 4 + hi1) / 4 == c0 && (c0 * 4 + hi1) % 4 == hi1;
    assert (lo1 * 16 + hi2) / 16 == lo1 && (lo1 * 16 + hi2) % 16 == hi2;
    assert (lo2 * 64 + c3) / 64 == lo2 && (lo2 * 64 + c3) % 64 == c3;
  }

  /** Encoding the octets of four alphabet characters gives the characters back. */
  lemma EncodeDecodeQuad(q: string)
    requires |q| == 4 && AllAlphabet(q)
    ensures var d := DecodeQuad(q); EncodeGroup(d[0], d[1], d[2]) == q
  {
    RegroupSextets(CharToIndex(q[0]), CharToIndex(q[1]), CharToIndex(q[2]), CharToIndex(q[3]));
  }

  /** A final group "xy==" with zero unused bits is the encoding of its one octet. */
  lemma EncodeDecodeOnePadded(s: string)
    requires |s| == 4 && IsAlphabetChar(s[0]) && IsAlphabetChar(s[1]) && s[2] == Pad && s[3] == Pad
    requires CharToIndex(s[1]) % 16 == 0
    ensures DecodeLast(s) == Some(DecodeQuad(s[..2] + "AA")[..1])
    ensures Encode(DecodeLast(s).value) == s
  {
    var d := DecodeQuad(s[..2] + "AA");
    RegroupSextets(CharToIndex(s[0]), CharToIndex(s[1]), 0, 0);
    assert d[0] % 4 * 16 == CharToIndex(s[1]);
    assert Encode([d[0]]) == EncodeGroup(d[0], 0, 0)[..2] + [Pad, Pad];
    assert [d[0]] == d[..1];
  }

  /** A final group "xyz=" with zero unused bits is the encoding of its two octets. */
  lemma EncodeDecodeTwoPadded(s: string)
    requires |s| == 4 && IsAlphabetChar(s[0]) && IsAlphabetChar(s[1]) && IsAlphabetChar(s[2]) && s[3] == Pad
    requires CharToIndex(s[2]) % 4 == 0
    ensures DecodeLast(s) == Some(DecodeQuad(s[..3] + "A")[..2])
    ensures Encode(DecodeLast(s).value) == s
  {
    var d := DecodeQuad(s[..3] + "A");
    RegroupSextets(CharToIndex(s[0]), CharToIndex(s[1]), CharToIndex(s[2]), 0);
    assert d[1] % 16 * 4 == CharToIndex(s[2]);
    assert Encode([d[0], d[1]]) == EncodeGroup(d[0], d[1], 0)[..3] + [Pad];
    assert [d[0], d[1]] == d[..2];
  }

  /** The last group: a well-formed group with zero unused bits is the encoding of what it decodes to. */
  lemma EncodeDecodeLast(s: string)
    requires |s| == 4 && IsEncoded(s) && UnusedBitsZero(s)
    ensures DecodeLast(s).Some? && Encode(DecodeLast(s).value) == s
  {
    if IsAlphabetChar(s[2]) && IsAlphabetChar(s[3]) {
      EncodeDecodeQuad(s);
      EncodeFullGroup3(DecodeQuad(s));
    } else if s[2] == Pad {
      EncodeDecodeOnePadded(s);
    } else {
      EncodeDecodeTwoPadded(s);
    }
  }

  /**
   * The encoding is canonical: a well-formed string whose unused bits are zero
   * is the encoding of the octets it decodes to, so `Encode(b)` is the only
   * such string that decodes to `b`.
   */
  lemma {:induction false} CanonicalEncodingUnique(s: string, b: seq<byte>)
    requires IsEncoded(s) && UnusedBitsZero(s) && Decode(s) == Some(b)
    ensures s == Encode(b)
    decreases |s|
  {
    if |s| == 4 {
      EncodeDecodeLast(s);
    } else if |s| > 4 {
      var q, tail := s[..4], s[4..];
      IsEncodedSplit(s);
      DecodeAcceptsExactlyEncoded(tail);
      var rest := Decode(tail).value;
      assert s == q + tail;
      UnusedBitsZeroPrepend(q, tail);
      CanonicalEncodingUnique(tail, rest);
      var d := DecodeQuad(q);
      assert b == d + rest;
      EncodeDecodeQuad(q);
      assert |rest| > 0;
      EncodeFullGroup(b);
      assert b[3..] == rest;
    }
  }

  /** The number of padding characters at the end of `s`. */
  function PadCount(s: string): nat
  {
    (if |s| >= 1 && s[|s| - 1] == Pad then 1 else 0) + (if |s| >= 2 && s[|s| - 2] == Pad then 1 else 0)
  }

  /** The number of octets a successful decoding yields: three per group, less one per padding character. */
  lemma {:induction false} DecodeLength(s: string)
    requires Decode(s).Some?
    ensures |Decode(s).value| == 3 * (|s| / 4) - PadCount(s)
    decreases |s|
  {
    if |s| > 4 {
      var tail := s[4..];
      DecodeLength(tail);
      assert |Decode(s).value| == 3 + |Decode(tail).value|;
      assert s[|s| - 1] == tail[|tail| - 1] && s[|s| - 2] == tail[|tail| - 2];
      assert |s| / 4 == 1 + |tail| / 4;
    }
  }

  /** The test vectors of section 10 of RFC 4648 for "", "f", "fo" and "foo". */
  lemma ShortTestVectors()
    ensures Encode([]) == ""
    ensures Encode([102]) == "Zg=="
    ensures Encode([102, 111]) == "Zm8="
    ensures Encode([102, 111, 111]) == "Zm9v"
  {
  }

  /** The last groups of the longer test vectors: "b", "ba" and "bar". */
  lemma TailTestVectors()
    ensures Encode([98]) == "Yg=="
    ensures Encode([98, 97]) == "YmE="
    ensures Encode([98, 97, 114]) == "YmFy"
  {
  }

  /** The test vectors of section 10 of RFC 4648 for "foob", "fooba" and "foobar". */
  lemma LongTestVectors()
    ensures Encode([102, 111, 111, 98]) == "Zm9vYg=="
    ensures Encode([102, 111, 111, 98, 97]) == "Zm9vYmE="
    ensures Encode([102, 111, 111, 98, 97, 114]) == "Zm9vYmFy"
  {
    ShortTestVectors();
    TailTestVectors();
    var foo := EncodeGroup(102, 111, 111);
    assert Encode([102, 111, 111]) == foo + Encode([]);
    EncodeFullGroup([102, 111, 111, 98]);
    EncodeFullGroup([102, 111, 111, 98, 97]);
    EncodeFullGroup([102, 111, 111, 98, 97, 114]);
    assert [102, 111, 111, 98][3..] == [98];
    assert [102, 111, 111, 98, 97][3..] == [98, 97];
    assert [102, 111, 111, 98, 97, 114][3..] == [98, 97, 114];
  }
}
