/** The base64url helpers of EncryptionTool (section 5 of RFC 4648, without
    padding), built, as EncryptionTool builds them, on the standard base64 of
    Convert.ToBase64String and Convert.FromBase64String. */
module Base64Url {
  import opened Wrappers
  import opened Bytes

  // ---------------------------------------------------------------------
  // The standard alphabet (section 4 of RFC 4648)
  // ---------------------------------------------------------------------

  function StdChar(v: int): (c: char)
    requires 0 <= v < 64
  {
    if v < 26 then ('A' as int + v) as char
    else if v < 52 then ('a' as int + v - 26) as char
    else if v < 62 then ('0' as int + v - 52) as char
    else if v == 62 then '+'
    else '/'
  }

  /** The value of a standard-alphabet character, -1 for any other. */
  function StdValue(c: char): (v: int)
    ensures -1 <= v < 64
  {
    if 'A' <= c <= 'Z' then c as int - 'A' as int
    else if 'a' <= c <= 'z' then c as int - 'a' as int + 26
    else if '0' <= c <= '9' then c as int - '0' as int + 52
    else if c == '+' then 62
    else if c == '/' then 63
    else -1
  }

  predicate IsStdChar(c: char) {
    StdValue(c) >= 0
  }

  /** The characters of section 5 of RFC 4648: A-Z a-z 0-9 - _ */
  predicate IsUrlChar(c: char) {
    'A' <= c <= 'Z' || 'a' <= c <= 'z' || '0' <= c <= '9' || c == '-' || c == '_'
  }

  lemma StdValueOfChar(v: int)
    requires 0 <= v < 64
    ensures StdValue(StdChar(v)) == v
    ensures StdChar(v) != '=' && StdChar(v) != '-' && StdChar(v) != '_'
  {
  }

  // ---------------------------------------------------------------------
  // Convert.ToBase64String
  // ---------------------------------------------------------------------

  /** The four characters of a full three-byte group. */
  function Quad(b0: byte, b1: byte, b2: byte): string {
    [StdChar(b0 / 4), StdChar((b0 % 4) * 16 + b1 / 16), StdChar((b1 % 16) * 4 + b2 / 64), StdChar(b2 % 64)]
  }

  /** Standard base64 without its trailing '=' characters. */
  function Unpadded(data: seq<byte>): string
    decreases |data|
  {
    if |data| == 0 then ""
    else if |data| == 1 then [StdChar(data[0] / 4), StdChar((data[0] % 4) * 16)]
    else if |data| == 2 then
      [StdChar(data[0] / 4), StdChar((data[0] % 4) * 16 + data[1] / 16), StdChar((data[1] % 16) * 4)]
    else Quad(data[0], data[1], data[2]) + Unpadded(data[3..])
  }

  function Repeat(c: char, n: nat): (r: string)
    ensures |r| == n && forall i :: 0 <= i < n ==> r[i] == c
  {
    if n == 0 then "" else Repeat(c, n - 1) + [c]
  }

  /** The '=' characters that close an input of n bytes. */
  function Padding(n: nat): string {
    Repeat('=', if n % 3 == 0 then 0 else 3 - n % 3)
  }

  function ToBase64String(data: seq<byte>): string {
    Unpadded(data) + Padding(|data|)
  }

  // ---------------------------------------------------------------------
  // Convert.FromBase64String
  // ---------------------------------------------------------------------

  /** The last four characters: two, three or four alphabet characters, the
      rest '='. The unused low bits of the last character are ignored. */
  function DecodeFinalQuad(c0: char, c1: char, c2: char, c3: char): Option<seq<byte>> {
    var v0, v1, v2, v3 := StdValue(c0), StdValue(c1), StdValue(c2), StdValue(c3);
    if v0 < 0 || v1 < 0 then None
    else if c2 == '=' && c3 == '=' then Some([v0 * 4 + v1 / 16])
    else if v2 >= 0 && c3 == '=' then Some([v0 * 4 + v1 / 16, (v1 % 16) * 16 + v2 / 4])
    else if v2 >= 0 && v3 >= 0 then Some([v0 * 4 + v1 / 16, (v1 % 16) * 16 + v2 / 4, (v2 % 4) * 64 + v3])
    else None
  }

  function DecodeQuads(s: string): Option<seq<byte>>
    requires |s| % 4 == 0
    decreases |s|
  {
    if |s| == 0 then Some([])
    else if |s| == 4 then DecodeFinalQuad(s[0], s[1], s[2], s[3])
    else
      var v0, v1, v2, v3 := StdValue(s[0]), StdValue(s[1]), StdValue(s[2]), StdValue(s[3]);
      if v0 < 0 || v1 < 0 || v2 < 0 || v3 < 0 then None
      else
        match DecodeQuads(s[4..])
        case None => None
        case Some(rest) =>
          Some([v0 * 4 + v1 / 16, (v1 % 16) * 16 + v2 / 4, (v2 % 4) * 64 + v3] + rest)
  }

  /** None stands for the FormatException: a length that is not a multiple of
      four, a character outside the alphabet, or misplaced padding. */
  function FromBase64String(s: string): Option<seq<byte>> {
    if |s| % 4 != 0 then None else DecodeQuads(s)
  }

  // ---------------------------------------------------------------------
  // The url-safe helpers
  // ---------------------------------------------------------------------

  /** String.Replace(char, char). */
  function Replace(s: string, from: char, to: char): (r: string)
    ensures |r| == |s|
    ensures forall i :: 0 <= i < |s| ==> r[i] == if s[i] == from then to else s[i]
  {
    seq(|s|, i requires 0 <= i < |s| => if s[i] == from then to else s[i])
  }

  /** String.TrimEnd(char). */
  function TrimEndChar(s: string, c: char): (r: string)
    ensures |r| <= |s| && r == s[..|r|]
  {
    if |s| > 0 && s[|s| - 1] == c then TrimEndChar(s[..|s| - 1], c) else s
  }

  function Base64UrlEncode(data: seq<byte>): string {
    TrimEndChar(Replace(Replace(ToBase64String(data), '+', '-'), '/', '_'), '=')
  }

  /** Restores '+' and '/', pads to a multiple of four with '=' and decodes. */
  function Base64UrlDecode(s: string): Option<seq<byte>> {
    var b64 := Replace(Replace(s, '-', '+'), '_', '/');
    var pad := |b64| % 4;
    FromBase64String(if pad != 0 then b64 + Repeat('=', 4 - pad) else b64)
  }

  // ---------------------------------------------------------------------
  // Properties
  // ---------------------------------------------------------------------

  lemma GroupRoundTrip(b0: byte, b1: byte, b2: byte)
    ensures StdValue(StdChar(b0 / 4)) * 4 + StdValue(StdChar((b0 % 4) * 16 + b1 / 16)) / 16 == b0
    ensures (StdValue(StdChar((b0 % 4) * 16 + b1 / 16)) % 16) * 16 + StdValue(StdChar((b1 % 16) * 4 + b2 / 64)) / 4 == b1
    ensures (StdValue(StdChar((b1 % 16) * 4 + b2 / 64)) % 4) * 64 + StdValue(StdChar(b2 % 64)) == b2
  {
    StdValueOfChar(b0 / 4);
    StdValueOfChar((b0 % 4) * 16 + b1 / 16);
    StdValueOfChar((b1 % 16) * 4 + b2 / 64);
    StdValueOfChar(b2 % 64);
  }

  /** Four characters per full group, and two or three for a final partial one. */
  lemma {:induction false} UnpaddedLength(data: seq<byte>)
    ensures |Unpadded(data)| % 4 == (if |data| % 3 == 0 then 0 else |data| % 3 + 1)
    ensures |data| > 0 ==> |Unpadded(data)| > 0
    decreases |data|
  {
    if |data| > 3 {
      var rest := data[3..];
      UnpaddedLength(rest);
      var n, m := |Unpadded(data)|, |Unpadded(rest)|;
      assert n == 4 + m by {
        assert Unpadded(data) == Quad(data[0], data[1], data[2]) + Unpadded(rest);
      }
      assert (|rest| + 3) % 3 == |rest| % 3 && (m + 4) % 4 == m % 4;
    }
  }

  lemma {:induction false} UnpaddedShape(data: seq<byte>)
    ensures forall i :: 0 <= i < |Unpadded(data)| ==> IsStdChar(Unpadded(data)[i])
    decreases |data|
  {
    if |data| == 0 {
    } else if |data| == 1 {
      StdValueOfChar(data[0] / 4);
      StdValueOfChar((data[0] % 4) * 16);
    } else if |data| == 2 {
      StdValueOfChar(data[0] / 4);
      StdValueOfChar((data[0] % 4) * 16 + data[1] / 16);
      StdValueOfChar((data[1] % 16) * 4);
    } else {
      var q := Quad(data[0], data[1], data[2]);
      StdValueOfChar(data[0] / 4);
      StdValueOfChar((data[0] % 4) * 16 + data[1] / 16);
      StdValueOfChar((data[1] % 16) * 4 + data[2] / 64);
      StdValueOfChar(data[2] % 64);
      UnpaddedShape(data[3..]);
      assert Unpadded(data) == q + Unpadded(data[3..]);
    }
  }

  lemma OneByteRoundTrip(data: seq<byte>)
    requires |data| == 1
    ensures FromBase64String(ToBase64String(data)) == Some(data)
  {
    var v0, v1 := data[0] / 4, (data[0] % 4) * 16;
    StdValueOfChar(v0);
    StdValueOfChar(v1);
    var s := ToBase64String(data);
    assert s == [StdChar(v0), StdChar(v1), '=', '='];
    assert DecodeFinalQuad(s[0], s[1], s[2], s[3]) == Some([data[0]]);
    assert data == [data[0]];
  }

  lemma TwoBytesRoundTrip(data: seq<byte>)
    requires |data| == 2
    ensures FromBase64String(ToBase64String(data)) == Some(data)
  {
    var v0, v1, v2 := data[0] / 4, (data[0] % 4) * 16 + data[1] / 16, (data[1] % 16) * 4;
    StdValueOfChar(v0);
    StdValueOfChar(v1);
    StdValueOfChar(v2);
    GroupRoundTrip(data[0], data[1], 0);
    var s := ToBase64String(data);
    assert s == [StdChar(v0), StdChar(v1), StdChar(v2), '='];
    assert DecodeFinalQuad(s[0], s[1], s[2], s[3]) == Some([data[0], data[1]]);
    assert data == [data[0], data[1]];
  }

  /** The first four characters of a group of three bytes decode to them. */
  lemma QuadDecodes(b0: byte, b1: byte, b2: byte)
    ensures var q := Quad(b0, b1, b2);
      IsStdChar(q[0]) && IsStdChar(q[1]) && IsStdChar(q[2]) && IsStdChar(q[3]) &&
      StdValue(q[0]) * 4 + StdValue(q[1]) / 16 == b0 &&
      (StdValue(q[1]) % 16) * 16 + StdValue(q[2]) / 4 == b1 &&
      (StdValue(q[2]) % 4) * 64 + StdValue(q[3]) == b2
  {
    GroupRoundTrip(b0, b1, b2);
    StdValueOfChar(b0 / 4);
    StdValueOfChar((b0 % 4) * 16 + b1 / 16);
    StdValueOfChar((b1 % 16) * 4 + b2 / 64);
    StdValueOfChar(b2 % 64);
  }

  lemma ToBase64Length(data: seq<byte>)
    ensures |ToBase64String(data)| % 4 == 0
    ensures |data| > 0 ==> |ToBase64String(data)| > 0
  {
    UnpaddedLength(data);
    var u, p := |Unpadded(data)|, |Padding(|data|)|;
    assert |ToBase64String(data)| == u + p;
    var k := |data| % 3;
    assert p == if k == 0 then 0 else 3 - k;
    assert u % 4 == if k == 0 then 0 else k + 1;
  }

  lemma DecodeQuadsStep(q: string, t: string, rest: seq<byte>)
    requires |q| == 4 && IsStdChar(q[0]) && IsStdChar(q[1]) && IsStdChar(q[2]) && IsStdChar(q[3])
    requires |t| % 4 == 0 && |t| > 0 && DecodeQuads(t) == Some(rest)
    ensures DecodeQuads(q + t) == Some([StdValue(q[0]) * 4 + StdValue(q[1]) / 16,
                                        (StdValue(q[1]) % 16) * 16 + StdValue(q[2]) / 4,
                                        (StdValue(q[2]) % 4) * 64 + StdValue(q[3])] + rest)
  {
    var s := q + t;
    assert |s| >= 8;
    assert s[4..] == t;
    assert s[0] == q[0] && s[1] == q[1] && s[2] == q[2] && s[3] == q[3];
  }

  lemma ThreeBytesRoundTrip(data: seq<byte>)
    requires |data| == 3
    ensures FromBase64String(ToBase64String(data)) == Some(data)
  {
    var q := Quad(data[0], data[1], data[2]);
    QuadDecodes(data[0], data[1], data[2]);
    assert data[3..] == [];
    assert Unpadded(data) == q + Unpadded([]);
    assert Padding(|data|) == "";
    assert ToBase64String(data) == q;
    assert data == [data[0], data[1], data[2]];
  }

  /** One group of three bytes in front of a longer input. */
  lemma GroupStep(data: seq<byte>)
    requires |data| > 3
    requires FromBase64String(ToBase64String(data[3..])) == Some(data[3..])
    ensures FromBase64String(ToBase64String(data)) == Some(data)
  {
    var q := Quad(data[0], data[1], data[2]);
    var rest := data[3..];
    QuadDecodes(data[0], data[1], data[2]);
    assert (|rest| + 3) % 3 == |rest| % 3;
    assert Padding(|data|) == Padding(|rest|);
    assert ToBase64String(data) == q + ToBase64String(rest);
    ToBase64Length(rest);
    ToBase64Length(data);
    DecodeQuadsStep(q, ToBase64String(rest), rest);
    assert data == [data[0], data[1], data[2]] + rest;
  }

  /** FromBase64String inverts ToBase64String. */
  lemma {:induction false} StdRoundTrip(data: seq<byte>)
    ensures FromBase64String(ToBase64String(data)) == Some(data)
    decreases |data|
  {
    if |data| == 1 {
      OneByteRoundTrip(data);
    } else if |data| == 2 {
      TwoBytesRoundTrip(data);
    } else if |data| == 3 {
      ThreeBytesRoundTrip(data);
    } else if |data| > 3 {
      StdRoundTrip(data[3..]);
      GroupStep(data);
    }
  }

  /** Replacing '+' and '/' and then '-' and '_' back is the identity on
      strings that contain neither '-' nor '_'. */
  lemma UrlReplaceInverts(s: string)
    requires forall i :: 0 <= i < |s| ==> s[i] != '-' && s[i] != '_'
    ensures Replace(Replace(Replace(Replace(s, '+', '-'), '/', '_'), '-', '+'), '_', '/') == s
  {
  }

  lemma {:induction false} TrimPadding(s: string, n: nat)
    requires s == [] || s[|s| - 1] != '='
    ensures TrimEndChar(s + Repeat('=', n), '=') == s
    decreases n
  {
    if n > 0 {
      assert (s + Repeat('=', n))[..|s| + n - 1] == s + Repeat('=', n - 1);
      TrimPadding(s, n - 1);
    }
  }

  /** The base64url text is the standard text with '+' and '/' replaced and
      its padding dropped. */
  lemma EncodeIsUnpadded(data: seq<byte>)
    ensures Base64UrlEncode(data) == Replace(Replace(Unpadded(data), '+', '-'), '/', '_')
  {
    UnpaddedShape(data);
    var u := Unpadded(data);
    var p := Padding(|data|);
    var ru := Replace(Replace(u, '+', '-'), '/', '_');
    assert Replace(Replace(u + p, '+', '-'), '/', '_') == ru + p;
    if u != [] {
      StdValueOfChar(StdValue(u[|u| - 1]));
    }
    TrimPadding(ru, |p|);
  }

  /** The encoder emits only A-Z a-z 0-9 - _ and never '='. */
  lemma EncodeAlphabet(data: seq<byte>)
    ensures forall i :: 0 <= i < |Base64UrlEncode(data)| ==> IsUrlChar(Base64UrlEncode(data)[i])
    ensures |Base64UrlEncode(data)| % 4 != 1
  {
    EncodeIsUnpadded(data);
    UnpaddedShape(data);
    UnpaddedLength(data);
  }

  /** Base64UrlDecode inverts Base64UrlEncode for every byte sequence. */
  lemma EncodeDecodeRoundTrip(data: seq<byte>)
    ensures Base64UrlDecode(Base64UrlEncode(data)) == Some(data)
  {
    var b64 := Replace(Replace(Base64UrlEncode(data), '-', '+'), '_', '/');
    UrlTextRestored(data);
    assert b64 == Unpadded(data);
    PaddingRestored(data);
    StdRoundTrip(data);
  }

  lemma UrlTextRestored(data: seq<byte>)
    ensures Replace(Replace(Base64UrlEncode(data), '-', '+'), '_', '/') == Unpadded(data)
  {
    EncodeIsUnpadded(data);
    UnpaddedShape(data);
    var u := Unpadded(data);
    assert forall i :: 0 <= i < |u| ==> u[i] != '-' && u[i] != '_' by {
      forall i | 0 <= i < |u| ensures u[i] != '-' && u[i] != '_' {
        assert IsStdChar(u[i]);
      }
    }
    UrlReplaceInverts(u);
  }

  /** Padding the unpadded text to a multiple of four restores the standard text. */
  lemma PaddingRestored(data: seq<byte>)
    ensures var u := Unpadded(data);
      (if |u| % 4 != 0 then u + Repeat('=', 4 - |u| % 4) else u) == ToBase64String(data)
  {
    UnpaddedLength(data);
  }

  /** A standard text whose last four characters have '=' in the second
      position is rejected, whatever precedes them. */
  lemma {:induction false} BadFinalQuadRejected(s: string)
    requires |s| % 4 == 0 && |s| >= 4 && s[|s| - 3] == '='
    ensures DecodeQuads(s) == None
    decreases |s|
  {
    if |s| > 4 {
      BadFinalQuadRejected(s[4..]);
    }
  }

  /** Section 5 of RFC 4648: no encoding has length 1 (mod 4); the decoder
      rejects such input. */
  lemma DecodeRejectsLengthOneModFour(s: string)
    requires |s| % 4 == 1
    ensures Base64UrlDecode(s) == None
  {
    var b64 := Replace(Replace(s, '-', '+'), '_', '/');
    var t := b64 + Repeat('=', 3);
    assert t[|t| - 3] == '=';
    BadFinalQuadRejected(t);
  }
}
