/**
 * Base64 as defined in section 4 of RFC 4648: every 3 input octets become
 * 4 characters of the 64-character alphabet of Table 1; a final group of 1
 * or 2 octets is zero-filled to a whole number of 6-bit groups and padded
 * with '=' to 4 characters. `Encode` is what the platform's Base64 routine
 * computes; `Decode` is its strict inverse (canonical input only), so that
 * the round trip can be stated in both directions.
 */
module Base64 {
  import opened Wrappers

  type Byte = b: int | 0 <= b < 0x100

  /** A 6-bit group, i.e. an index into the alphabet. */
  type Index = i: int | 0 <= i < 64

  const Pad: char := '='

  /** Membership in the alphabet of Table 1 of RFC 4648 (padding excluded). */
  predicate IsAlphabetChar(c: char) {
    || 'A' <= c <= 'Z'
    || 'a' <= c <= 'z'
    || '0' <= c <= '9'
    || c == '+'
    || c == '/'
  }

  /** Table 1 of RFC 4648: 0..25 'A'..'Z', 26..51 'a'..'z', 52..61 '0'..'9', 62 '+', 63 '/'. */
  function CharOf(i: Index): (c: char)
    ensures IsAlphabetChar(c)
    ensures c != Pad
  {
    if i < 26 then ('A' as int + i) as char
    else if i < 52 then ('a' as int + (i - 26)) as char
    else if i < 62 then ('0' as int + (i - 52)) as char
    else if i == 62 then '+'
    else '/'
  }

  /** Reverse lookup in Table 1; the inverse of `CharOf` on the alphabet. */
  function IndexOf(c: char): (i: Index)
    requires IsAlphabetChar(c)
    ensures CharOf(i) == c
  {
    if 'A' <= c <= 'Z' then c as int - 'A' as int
    else if 'a' <= c <= 'z' then c as int - 'a' as int + 26
    else if '0' <= c <= '9' then c as int - '0' as int + 52
    else if c == '+' then 62
    else 63
  }

  lemma IndexOfCharOf(i: Index)
    ensures IndexOf(CharOf(i)) == i
  {
  }

  /** Three octets, 24 bits, as four 6-bit groups, most significant first. */
  function EncodeBlock(a: Byte, b: Byte, c: Byte): seq<char> {
    [CharOf(a / 4), CharOf(a % 4 * 16 + b / 16), CharOf(b % 16 * 4 + c / 64), CharOf(c % 64)]
  }

  /** A final group of two octets: three characters (low two bits zero) and one pad. */
  function EncodeTail2(a: Byte, b: Byte): seq<char> {
    [CharOf(a / 4), CharOf(a % 4 * 16 + b / 16), CharOf(b % 16 * 4), Pad]
  }

  /** A final group of one octet: two characters (low four bits zero) and two pads. */
  function EncodeTail1(a: Byte): seq<char> {
    [CharOf(a / 4), CharOf(a % 4 * 16), Pad, Pad]
  }

  /** Well-formed Base64 text: a whole number of quanta, padding only at the very end. */
  predicate IsBase64Shaped(s: seq<char>) {
    && |s| % 4 == 0
    && (forall i :: 0 <= i < |s| ==> IsAlphabetChar(s[i]) || s[i] == Pad)
    && (forall i :: 0 <= i < |s| && s[i] == Pad ==> |s| - 2 <= i)
    && (|s| >= 2 && s[|s| - 2] == Pad ==> s[|s| - 1] == Pad)
  }

  function Encode(bs: seq<Byte>): (s: seq<char>)
    ensures |s| == (|bs| + 2) / 3 * 4
    decreases |bs|
  {
    if |bs| == 0 then []
    else if |bs| == 1 then EncodeTail1(bs[0])
    else if |bs| == 2 then EncodeTail2(bs[0], bs[1])
    else EncodeBlock(bs[0], bs[1], bs[2]) + Encode(bs[3..])
  }

  /** Every encoding is well-formed Base64 text. */
  lemma {:induction false} EncodeShaped(bs: seq<Byte>)
    ensures IsBase64Shaped(Encode(bs))
    decreases |bs|
  {
    if |bs| > 2 {
      EncodeShaped(bs[3..]);
      ShapedCons(EncodeBlock(bs[0], bs[1], bs[2]), Encode(bs[3..]));
    }
  }

  /** A full quantum of alphabet characters in front of well-formed text keeps it well-formed. */
  lemma ShapedCons(q: seq<char>, t: seq<char>)
    requires |q| == 4 && AllAlphabet(q) && IsBase64Shaped(t)
    ensures IsBase64Shaped(q + t)
  {
    forall i | 4 <= i < |q + t|
      ensures (q + t)[i] == t[i - 4]
    {
    }
  }

  predicate AllAlphabet(q: seq<char>) {
    forall i :: 0 <= i < |q| ==> IsAlphabetChar(q[i])
  }

  /** Four alphabet characters back to the three octets they carry. */
  function DecodeBlock(q: seq<char>): (r: seq<Byte>)
    requires |q| == 4 && AllAlphabet(q)
    ensures |r| == 3
  {
    var v0, v1, v2, v3 := IndexOf(q[0]), IndexOf(q[1]), IndexOf(q[2]), IndexOf(q[3]);
    [v0 * 4 + v1 / 16, v1 % 16 * 16 + v2 / 4, v2 % 4 * 64 + v3]
  }

  /**
   * The last quantum: four characters, or three and one pad, or two and two
   * pads. The bits that the zero fill of the encoder produced must be zero,
   * so only text that `Encode` can produce is accepted.
   */
  function DecodeLast(q: seq<char>): (r: Option<seq<Byte>>)
    requires |q| == 4
    ensures r.Some? ==> 1 <= |r.value| <= 3
  {
    if AllAlphabet(q) then
      Some(DecodeBlock(q))
    else if AllAlphabet(q[..3]) && q[3] == Pad && IndexOf(q[2]) % 4 == 0 then
      var v0, v1, v2 := IndexOf(q[0]), IndexOf(q[1]), IndexOf(q[2]);
      Some([v0 * 4 + v1 / 16, v1 % 16 * 16 + v2 / 4])
    else if AllAlphabet(q[..2]) && q[2] == Pad && q[3] == Pad && IndexOf(q[1]) % 16 == 0 then
      var v0, v1 := IndexOf(q[0]), IndexOf(q[1]);
      Some([v0 * 4 + v1 / 16])
    else
      None
  }

  function Decode(s: seq<char>): (r: Option<seq<Byte>>)
    decreases |s|
  {
    if |s| == 0 then Some([])
    else if |s| < 4 then None
    else if |s| == 4 then DecodeLast(s)
    else if AllAlphabet(s[..4]) then
      match Decode(s[4..])
      case None => None
      case Some(rest) => Some(DecodeBlock(s[..4]) + rest)
    else None
  }

  // ---------------------------------------------------------------------
  // Round trips
  // ---------------------------------------------------------------------

  /** Euclidean division undoes the packing of `lo` below `hi`, for the shifts Base64 uses. */
  lemma DivModPacked(hi: int, lo: int, k: int)
    requires k == 4 || k == 16 || k == 64
    requires 0 <= lo < k
    ensures (hi * k + lo) / k == hi
    ensures (hi * k + lo) % k == lo
  {
    if k == 4 {
      assert hi * k + lo == 4 * hi + lo;
    } else if k == 16 {
      assert hi * k + lo == 16 * hi + lo;
    } else {
      assert hi * k + lo == 64 * hi + lo;
    }
  }

  /** Re-joining the four 6-bit groups of three octets yields the octets. */
  lemma JoinSplit(a: Byte, b: Byte, c: Byte)
    ensures (a / 4) * 4 + (a % 4 * 16 + b / 16) / 16 == a
    ensures (a % 4 * 16 + b / 16) % 16 * 16 + (b % 16 * 4 + c / 64) / 4 == b
    ensures (b % 16 * 4 + c / 64) % 4 * 64 + c % 64 == c
  {
    DivModPacked(a % 4, b / 16, 16);
    DivModPacked(b % 16, c / 64, 4);
  }

  /** Splitting the octets re-joined from four 6-bit groups yields the groups. */
  lemma SplitJoin(v0: Index, v1: Index, v2: Index, v3: Index)
    ensures var a := v0 * 4 + v1 / 16; 0 <= a < 0x100 && a / 4 == v0
    ensures var a, b := v0 * 4 + v1 / 16, v1 % 16 * 16 + v2 / 4;
      0 <= b < 0x100 && a % 4 * 16 + b / 16 == v1
    ensures var b, c := v1 % 16 * 16 + v2 / 4, v2 % 4 * 64 + v3;
      0 <= c < 0x100 && b % 16 * 4 + c / 64 == v2 && c % 64 == v3
  {
    DivModPacked(v0, v1 / 16, 4);
    DivModPacked(v1 % 16, v2 / 4, 16);
    DivModPacked(v2 % 4, v3, 64);
  }

  lemma DecodeEncodeBlock(a: Byte, b: Byte, c: Byte)
    ensures AllAlphabet(EncodeBlock(a, b, c))
    ensures DecodeBlock(EncodeBlock(a, b, c)) == [a, b, c]
  {
    IndexOfCharOf(a / 4);
    IndexOfCharOf(a % 4 * 16 + b / 16);
    IndexOfCharOf(b % 16 * 4 + c / 64);
    IndexOfCharOf(c % 64);
    JoinSplit(a, b, c);
  }

  lemma DecodeEncodeTail2(a: Byte, b: Byte)
    ensures DecodeLast(EncodeTail2(a, b)) == Some([a, b])
  {
    var q := EncodeTail2(a, b);
    IndexOfCharOf(a / 4);
    IndexOfCharOf(a % 4 * 16 + b / 16);
    IndexOfCharOf(b % 16 * 4);
    JoinSplit(a, b, 0);
    assert !AllAlphabet(q) by { assert !IsAlphabetChar(q[3]); }
    assert AllAlphabet(q[..3]);
  }

  lemma DecodeEncodeTail1(a: Byte)
    ensures DecodeLast(EncodeTail1(a)) == Some([a])
  {
    var q := EncodeTail1(a);
    IndexOfCharOf(a / 4);
    IndexOfCharOf(a % 4 * 16);
    JoinSplit(a, 0, 0);
    assert !AllAlphabet(q) by { assert !IsAlphabetChar(q[3]); }
    assert !AllAlphabet(q[..3]) by { assert !IsAlphabetChar(q[..3][2]); }
    assert AllAlphabet(q[..2]);
  }

  /** Decoding what was encoded gives the octets back. */
  lemma {:induction false} DecodeEncode(bs: seq<Byte>)
    ensures Decode(Encode(bs)) == Some(bs)
    decreases |bs|
  {
    if |bs| <= 3 {
      DecodeEncodeShort(bs);
    } else {
      DecodeEncode(bs[3..]);
      DecodeEncodeStep(bs);
    }
  }

  /** The round trip for a sequence of at most three octets, one lemma per length. */
  lemma {:induction false} DecodeEncodeShort(bs: seq<Byte>)
    requires |bs| <= 3
    ensures Decode(Encode(bs)) == Some(bs)
  {
    if |bs| == 1 {
      DecodeEncodeOne(bs);
    } else if |bs| == 2 {
      DecodeEncodeTwo(bs);
    } else if |bs| == 3 {
      DecodeEncodeThree(bs);
    }
  }

  lemma {:induction false} DecodeEncodeOne(bs: seq<Byte>)
    requires |bs| == 1
    ensures Decode(Encode(bs)) == Some(bs)
  {
    DecodeEncodeTail1(bs[0]);
    assert bs == [bs[0]];
  }

  lemma {:induction false} DecodeEncodeTwo(bs: seq<Byte>)
    requires |bs| == 2
    ensures Decode(Encode(bs)) == Some(bs)
  {
    DecodeEncodeTail2(bs[0], bs[1]);
    assert bs == [bs[0], bs[1]];
  }

  lemma {:induction false} DecodeEncodeThree(bs: seq<Byte>)
    requires |bs| == 3
    ensures Decode(Encode(bs)) == Some(bs)
  {
    DecodeEncodeBlock(bs[0], bs[1], bs[2]);
    assert Encode(bs) == EncodeBlock(bs[0], bs[1], bs[2]) + Encode([]);
    assert bs == [bs[0], bs[1], bs[2]];
  }

  /** The round trip extends from the octets after the first three to the whole sequence. */
  lemma {:induction false} DecodeEncodeStep(bs: seq<Byte>)
    requires |bs| > 3
    requires Decode(Encode(bs[3..])) == Some(bs[3..])
    ensures Decode(Encode(bs)) == Some(bs)
  {
    DecodeFirstBlock(bs);
    EncodeFirstBlock(bs);
    DecodeCons(EncodeBlock(bs[0], bs[1], bs[2]), Encode(bs[3..]), bs);
  }

  /** Decoding a full leading quantum in front of a non-empty rest. */
  lemma DecodeCons(q: seq<char>, t: seq<char>, bs: seq<Byte>)
    requires |bs| > 3
    requires |q| == 4 && AllAlphabet(q) && DecodeBlock(q) == bs[..3]
    requires |t| > 0 && Decode(t) == Some(bs[3..])
    ensures Decode(q + t) == Some(bs)
  {
    var s := q + t;
    assert s[..4] == q;
    assert s[4..] == t;
    assert bs == bs[..3] + bs[3..];
  }

  /** The leading block of an encoding of three or more octets decodes to those octets. */
  lemma DecodeFirstBlock(bs: seq<Byte>)
    requires |bs| >= 3
    ensures AllAlphabet(EncodeBlock(bs[0], bs[1], bs[2]))
    ensures DecodeBlock(EncodeBlock(bs[0], bs[1], bs[2])) == bs[..3]
  {
    DecodeEncodeBlock(bs[0], bs[1], bs[2]);
    assert bs[..3] == [bs[0], bs[1], bs[2]];
  }

  lemma EncodeFirstBlock(bs: seq<Byte>)
    requires |bs| >= 3
    ensures Encode(bs) == EncodeBlock(bs[0], bs[1], bs[2]) + Encode(bs[3..])
  {
  }

  lemma EncodeDecodeBlock(q: seq<char>)
    requires |q| == 4 && AllAlphabet(q)
    ensures var r := DecodeBlock(q); EncodeBlock(r[0], r[1], r[2]) == q
  {
    var v0, v1, v2, v3 := IndexOf(q[0]), IndexOf(q[1]), IndexOf(q[2]), IndexOf(q[3]);
    SplitJoin(v0, v1, v2, v3);
    var r := DecodeBlock(q);
    assert r[0] / 4 == v0 && r[0] % 4 * 16 + r[1] / 16 == v1;
    assert r[1] % 16 * 4 + r[2] / 64 == v2 && r[2] % 64 == v3;
    assert EncodeBlock(r[0], r[1], r[2]) == [CharOf(v0), CharOf(v1), CharOf(v2), CharOf(v3)];
  }

  lemma EncodeDecodeLast(q: seq<char>, bs: seq<Byte>)
    requires |q| == 4
    requires DecodeLast(q) == Some(bs)
    ensures Encode(bs) == q
  {
    if AllAlphabet(q) {
      EncodeDecodeBlock(q);
      assert Encode(bs) == EncodeBlock(bs[0], bs[1], bs[2]) + Encode(bs[3..]);
    } else if AllAlphabet(q[..3]) && q[3] == Pad && IndexOf(q[2]) % 4 == 0 {
      var v0, v1, v2 := IndexOf(q[0]), IndexOf(q[1]), IndexOf(q[2]);
      SplitJoin(v0, v1, v2, 0);
      assert |bs| == 2;
      assert bs[0] / 4 == v0 && bs[0] % 4 * 16 + bs[1] / 16 == v1;
      assert bs[1] % 16 * 4 == v2;
      assert Encode(bs) == [CharOf(v0), CharOf(v1), CharOf(v2), Pad];
    } else {
      assert AllAlphabet(q[..2]) && q[2] == Pad && q[3] == Pad && IndexOf(q[1]) % 16 == 0;
      var v0, v1 := IndexOf(q[0]), IndexOf(q[1]);
      SplitJoin(v0, v1, 0, 0);
      assert |bs| == 1;
      assert bs[0] / 4 == v0 && bs[0] % 4 * 16 == v1;
      assert Encode(bs) == [CharOf(v0), CharOf(v1), Pad, Pad];
    }
  }

  /** Whatever the decoder accepts is exactly the encoding of what it returns. */
  lemma {:induction false} EncodeDecode(s: seq<char>, bs: seq<Byte>)
    requires Decode(s) == Some(bs)
    ensures Encode(bs) == s
    decreases |s|
  {
    if |s| == 0 {
    } else if |s| == 4 {
      EncodeDecodeLast(s, bs);
    } else {
      var q := s[..4];
      var rest := Decode(s[4..]).value;
      EncodeDecode(s[4..], rest);
      EncodeDecodeBlock(q);
      var blk := DecodeBlock(q);
      assert bs == blk + rest;
      assert bs[3..] == rest;
      assert Encode(bs) == EncodeBlock(blk[0], blk[1], blk[2]) + Encode(rest);
      assert s == q + s[4..];
    }
  }

  /** The decoder accepts exactly the encoder's output: Decode(s) == Some(bs) iff s == Encode(bs). */
  lemma DecodeIffEncode(s: seq<char>, bs: seq<Byte>)
    ensures Decode(s) == Some(bs) <==> s == Encode(bs)
  {
    if Decode(s) == Some(bs) {
      EncodeDecode(s, bs);
    }
    if s == Encode(bs) {
      DecodeEncode(bs);
    }
  }

  /** Distinct octet strings have distinct encodings. */
  lemma EncodeInjective(xs: seq<Byte>, ys: seq<Byte>)
    requires Encode(xs) == Encode(ys)
    ensures xs == ys
  {
    DecodeEncode(xs);
    DecodeEncode(ys);
  }

  /** The test vectors of section 10 of RFC 4648. */
  lemma TestVectors()
    ensures Encode([]) == ""
    ensures Encode([0x66]) == "Zg=="
    ensures Encode([0x66, 0x6f]) == "Zm8="
    ensures Encode([0x66, 0x6f, 0x6f]) == "Zm9v"
    ensures Encode([0x66, 0x6f, 0x6f, 0x62]) == "Zm9vYg=="
    ensures Encode([0x66, 0x6f, 0x6f, 0x62, 0x61]) == "Zm9vYmE="
    ensures Encode([0x66, 0x6f, 0x6f, 0x62, 0x61, 0x72]) == "Zm9vYmFy"
  {
  }
}
