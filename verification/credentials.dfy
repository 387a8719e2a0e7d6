/**
 * The application credentials as they travel in the Authorization header:
 * the user-pass string of section 2 of RFC 7617 (name, a colon, password),
 * turned into ASCII octets and Base64-encoded. `Encode` is the private
 * static helper of the client; `DecodeToken` and `SplitUserPass` are the
 * receiving side, used here to state the round trip.
 */
module Credentials {
  import opened Wrappers
  import Base64

  const Colon: char := ':'

  /** Every character is in the 7-bit ASCII range, so the ASCII encoder keeps it. */
  predicate IsAscii(s: string) {
    forall i :: 0 <= i < |s| ==> s[i] as int < 128
  }

  /** The ASCII encoding: one octet per character, holding its code. */
  function AsciiBytes(s: string): (bs: seq<Base64.Byte>)
    requires IsAscii(s)
    ensures |bs| == |s|
    ensures forall i :: 0 <= i < |s| ==> bs[i] == s[i] as int && bs[i] < 128
  {
    seq(|s|, i requires 0 <= i < |s| => s[i] as int)
  }

  /** ASCII decoding; octets of 128 and above are not ASCII and are rejected. */
  function AsciiString(bs: seq<Base64.Byte>): (r: Option<string>)
    ensures r.Some? <==> forall i :: 0 <= i < |bs| ==> bs[i] < 128
    ensures r.Some? ==> IsAscii(r.value) && AsciiBytes(r.value) == bs
  {
    if forall i :: 0 <= i < |bs| ==> bs[i] < 128 then
      Some(seq(|bs|, i requires 0 <= i < |bs| => bs[i] as char))
    else
      None
  }

  lemma AsciiRoundTrip(s: string)
    requires IsAscii(s)
    ensures AsciiString(AsciiBytes(s)) == Some(s)
  {
    var bs := AsciiBytes(s);
    var r := AsciiString(bs).value;
    assert r == s by {
      forall i | 0 <= i < |s| ensures r[i] == s[i] {
        assert r[i] as int == bs[i] == s[i] as int;
      }
    }
  }

  /** `string.Join(":", name, password)`: the user-pass string of RFC 7617. */
  function UserPass(name: string, password: string): (s: string)
    ensures |s| == |name| + 1 + |password|
    ensures s[..|name|] == name && s[|name|] == Colon && s[|name| + 1..] == password
    ensures IsAscii(name) && IsAscii(password) ==> IsAscii(s)
  {
    var s := name + [Colon] + password;
    assert forall i :: |name| < i < |s| ==> s[i] == password[i - |name| - 1];
    s
  }

  /**
   * The private `Encode(username, password)` of the client: Base64 of the
   * ASCII octets of "username:password", one 4-character quantum per started
   * group of three octets.
   */
  function Encode(username: string, password: string): (token: string)
    requires IsAscii(username) && IsAscii(password)
    ensures Base64.IsBase64Shaped(token)
    ensures |token| == (|username| + |password| + 3) / 3 * 4
  {
    var bs := AsciiBytes(UserPass(username, password));
    Base64.EncodeShaped(bs);
    Base64.Encode(bs)
  }

  /** The token is the unique text the strict Base64 decoder maps back to the ASCII octets of "username:password". */
  lemma EncodeDecodes(username: string, password: string)
    requires IsAscii(username) && IsAscii(password)
    ensures Base64.Decode(Encode(username, password)) == Some(AsciiBytes(UserPass(username, password)))
  {
    Base64.DecodeEncode(AsciiBytes(UserPass(username, password)));
  }

  /** The token uses only the Base64 alphabet and '=', so it holds no brace. */
  lemma TokenHasNoBraces(username: string, password: string)
    requires IsAscii(username) && IsAscii(password)
    ensures '{' !in Encode(username, password) && '}' !in Encode(username, password)
  {
    var token := Encode(username, password);
    assert forall i :: 0 <= i < |token| ==> Base64.IsAlphabetChar(token[i]) || token[i] == Base64.Pad;
  }

  /** The receiving side: Base64 text back to the user-pass string, if it is ASCII. */
  function DecodeToken(token: string): Option<string> {
    var bs :- Base64.Decode(token);
    AsciiString(bs)
  }

  /** Decoding the token gives back exactly "username:password". */
  lemma EncodeRoundTrip(username: string, password: string)
    requires IsAscii(username) && IsAscii(password)
    ensures DecodeToken(Encode(username, password)) == Some(UserPass(username, password))
  {
    EncodeDecodes(username, password);
    AsciiRoundTrip(UserPass(username, password));
  }

  /** Position of the first occurrence of `c` in `s`, if any. */
  function FirstIndexOf(s: string, c: char): (r: Option<nat>)
    ensures r.None? <==> c !in s
    ensures r.Some? ==> r.value < |s| && s[r.value] == c && c !in s[..r.value]
    decreases |s|
  {
    if |s| == 0 then None
    else if s[0] == c then Some(0)
    else match FirstIndexOf(s[1..], c)
      case None => None
      case Some(k) =>
        assert s[..k + 1] == [s[0]] + s[1..][..k];
        Some(k + 1)
  }

  /**
   * Section 2 of RFC 7617: the user-id ends at the first colon; the password
   * is everything after it and may itself contain colons.
   */
  function SplitUserPass(s: string): (r: Option<(string, string)>)
    ensures r.Some? <==> Colon in s
    ensures r.Some? ==> Colon !in r.value.0 && UserPass(r.value.0, r.value.1) == s
  {
    match FirstIndexOf(s, Colon)
    case None => None
    case Some(k) =>
      assert s == s[..k] + [Colon] + s[k + 1..];
      Some((s[..k], s[k + 1..]))
  }

  /** When the name holds no colon, a receiver recovers name and password separately. */
  lemma SplitUserPassRoundTrip(name: string, password: string)
    requires Colon !in name
    ensures SplitUserPass(UserPass(name, password)) == Some((name, password))
  {
    var s := UserPass(name, password);
    var k := FirstIndexOf(s, Colon).value;
    assert k == |name|;
  }

  /** For colon-free names, different credential pairs give different header tokens. */
  lemma EncodeInjective(n1: string, p1: string, n2: string, p2: string)
    requires IsAscii(n1) && IsAscii(p1) && IsAscii(n2) && IsAscii(p2)
    requires Colon !in n1 && Colon !in n2
    requires Encode(n1, p1) == Encode(n2, p2)
    ensures n1 == n2 && p1 == p2
  {
    EncodeRoundTrip(n1, p1);
    EncodeRoundTrip(n2, p2);
    SplitUserPassRoundTrip(n1, p1);
    SplitUserPassRoundTrip(n2, p2);
  }

  /** The encoder does not reject a colon in the name, which makes the split ambiguous. */
  lemma ColonInNameIsAmbiguous()
    ensures Encode("a:b", "c") == Encode("a", "b:c")
  {
    assert UserPass("a:b", "c") == UserPass("a", "b:c");
  }
}
