/**
 * The browser's `btoa` and `atob`: the base64 alphabet and padding of section 4
 * of RFC 4648, applied to the Latin-1 code units of a string, and the
 * "forgiving-base64 decode" of the WHATWG Infra standard that `atob` runs.
 */
module Base64 {
  import opened Wrappers
  import Text

  /** One octet. */
  type Byte = x: int | 0 <= x < 256

  /** The character that encodes the 6-bit value `v` (Table 1 of RFC 4648). */
  function Char64(v: int): (c: char)
    requires 0 <= v < 64
    ensures InAlphabet(c)
  {
    if v < 26 then ('A' as int + v) as char
    else if v < 52 then ('a' as int + (v - 26)) as char
    else if v < 62 then ('0' as int + (v - 52)) as char
    else if v == 62 then '+'
    else '/'
  }

  /** The 64 characters of the base64 alphabet. */
  predicate InAlphabet(c: char) {
    Text.IsAsciiAlnum(c) || c == '+' || c == '/'
  }

  predicate AllInAlphabet(s: string) {
    forall i :: 0 <= i < |s| ==> InAlphabet(s[i])
  }

  /** The 6-bit value an alphabet character stands for; inverse of `Char64`. */
  function Value64(c: char): (v: int)
    requires InAlphabet(c)
    ensures 0 <= v < 64
    ensures Char64(v) == c
  {
    if 'A' <= c <= 'Z' then c as int - 'A' as int
    else if 'a' <= c <= 'z' then c as int - 'a' as int + 26
    else if '0' <= c <= '9' then c as int - '0' as int + 52
    else if c == '+' then 62
    else 63
  }

  /** Each 6-bit value is recovered from its character. */
  lemma ValueOfChar(v: int)
    requires 0 <= v < 64
    ensures Value64(Char64(v)) == v
  {
  }

  // ---------------------------------------------------------------------------
  // Encoding

  /** The two, three or four characters that encode a group of one, two or three octets (without padding). */
  function EncodeGroup(g: seq<Byte>): (r: string)
    requires 1 <= |g| <= 3
    ensures |r| == |g| + 1
    ensures AllInAlphabet(r)
  {
    if |g| == 1 then
      [Char64(g[0] / 4), Char64((g[0] % 4) * 16)]
    else if |g| == 2 then
      [Char64(g[0] / 4), Char64((g[0] % 4) * 16 + g[1] / 16), Char64((g[1] % 16) * 4)]
    else
      [Char64(g[0] / 4), Char64((g[0] % 4) * 16 + g[1] / 16), Char64((g[1] % 16) * 4 + g[2] / 64), Char64(g[2] % 64)]
  }

  /** The encoding without its trailing `=` padding: four characters per three octets, two or three for a final partial group. */
  function EncodeUnpadded(b: seq<Byte>): (r: string)
    ensures |r| == (4 * |b| + 2) / 3
    ensures AllInAlphabet(r)
    decreases |b|
  {
    if |b| == 0 then ""
    else if |b| <= 3 then EncodeGroup(b)
    else EncodeGroup(b[..3]) + EncodeUnpadded(b[3..])
  }

  /** The `=` characters that complete the last group to four characters. */
  function Padding(n: nat): (r: string)
    ensures (4 * n + 2) / 3 + |r| == 4 * ((n + 2) / 3)
  {
    if n % 3 == 1 then "==" else if n % 3 == 2 then "=" else ""
  }

  /** Base64 encoding of section 4 of RFC 4648. */
  function Encode(b: seq<Byte>): (r: string)
    ensures |r| == 4 * ((|b| + 2) / 3)
    ensures forall i :: 0 <= i < |r| ==> InAlphabet(r[i]) || r[i] == '='
  {
    EncodeUnpadded(b) + Padding(|b|)
  }

  /** Every code unit of `s` fits in one octet (the Latin-1 range `btoa` accepts). */
  predicate IsLatin1(s: string) {
    forall i :: 0 <= i < |s| ==> s[i] as int < 256
  }

  /** The octets of a Latin-1 string, one per code unit. */
  function Latin1Bytes(s: string): (r: seq<Byte>)
    requires IsLatin1(s)
    ensures |r| == |s|
    ensures forall i :: 0 <= i < |s| ==> r[i] == s[i] as int
  {
    seq(|s|, i requires 0 <= i < |s| => s[i] as int as Byte)
  }

  /** `btoa`: a string whose code units all fit in one octet is encoded; any other makes `btoa` throw (`None`). */
  function Btoa(s: string): (r: Option<string>)
    ensures r.Some? <==> IsLatin1(s)
    ensures r.Some? ==> |r.value| == 4 * ((|s| + 2) / 3)
  {
    if IsLatin1(s) then Some(Encode(Latin1Bytes(s))) else None
  }

  // ---------------------------------------------------------------------------
  // Forgiving decode

  /** The ASCII white space the forgiving decoder discards (tab, line feed, form feed, carriage return, space). */
  predicate IsAsciiWhitespace(c: char) {
    c == '\t' || c == '\n' || c == '\U{000C}' || c == '\r' || c == ' '
  }

  /** The input with every ASCII white-space character removed. */
  function StripWhitespace(s: string): (r: string)
    ensures |r| <= |s|
    ensures forall i :: 0 <= i < |r| ==> !IsAsciiWhitespace(r[i])
    ensures (forall i :: 0 <= i < |s| ==> !IsAsciiWhitespace(s[i])) ==> r == s
  {
    if |s| == 0 then ""
    else if IsAsciiWhitespace(s[0]) then StripWhitespace(s[1..])
    else [s[0]] + StripWhitespace(s[1..])
  }

  /** Drops one or two trailing `=` when the length is a multiple of four. */
  function StripPadding(t: string): (u: string)
    ensures |u| <= |t| && u == t[..|u|]
    ensures |t| % 4 != 0 ==> u == t
  {
    if |t| % 4 == 0 && Text.EndsWith(t, "==") then t[..|t| - 2]
    else if |t| % 4 == 0 && Text.EndsWith(t, "=") then t[..|t| - 1]
    else t
  }

  /** The one, two or three octets a group of two, three or four characters stands for; left-over bits are discarded. */
  function DecodeGroup(q: string): (r: seq<Byte>)
    requires AllInAlphabet(q) && 2 <= |q| <= 4
    ensures |r| == |q| - 1
  {
    var o0 := Value64(q[0]) * 4 + Value64(q[1]) / 16;
    if |q| == 2 then [o0]
    else
      var o1 := (Value64(q[1]) % 16) * 16 + Value64(q[2]) / 4;
      if |q| == 3 then [o0, o1]
      else [o0, o1, (Value64(q[2]) % 4) * 64 + Value64(q[3])]
  }

  /** Decodes alphabet characters, four to three octets; a final group of two or three characters yields one or two octets. */
  function DecodeChars(s: string): (r: seq<Byte>)
    requires AllInAlphabet(s) && |s| % 4 != 1
    ensures |r| == 3 * |s| / 4
    decreases |s|
  {
    if |s| == 0 then []
    else if |s| <= 4 then DecodeGroup(s)
    else DecodeGroup(s[..4]) + DecodeChars(s[4..])
  }

  /** `atob`: the forgiving-base64 decode; `None` is the `InvalidCharacterError` it throws. */
  function Atob(s: string): (r: Option<seq<Byte>>)
    ensures r.Some? <==> (var u := StripPadding(StripWhitespace(s)); |u| % 4 != 1 && AllInAlphabet(u))
  {
    var u := StripPadding(StripWhitespace(s));
    if |u| % 4 == 1 || !AllInAlphabet(u) then None
    else Some(DecodeChars(u))
  }

  // ---------------------------------------------------------------------------
  // Properties

  /** The first octet of a group is recovered from its first two sextets. */
  lemma FirstOctet(x: Byte, y: Byte)
    ensures (x / 4) * 4 + ((x % 4) * 16 + y / 16) / 16 == x
  {
  }

  /** The second octet of a group is recovered from its second and third sextets. */
  lemma SecondOctet(x: Byte, y: Byte, z: Byte)
    ensures (((x % 4) * 16 + y / 16) % 16) * 16 + ((y % 16) * 4 + z / 64) / 4 == y
  {
    assert ((x % 4) * 16 + y / 16) % 16 == y / 16;
    assert ((y % 16) * 4 + z / 64) / 4 == y % 16;
  }

  /** The third octet of a group is recovered from its last two sextets. */
  lemma ThirdOctet(y: Byte, z: Byte)
    ensures (((y % 16) * 4 + z / 64) % 4) * 64 + z % 64 == z
  {
    assert ((y % 16) * 4 + z / 64) % 4 == z / 64;
  }

  /** A group decodes to the octets it encodes. */
  lemma DecodeEncodeGroup(g: seq<Byte>)
    requires 1 <= |g| <= 3
    ensures DecodeGroup(EncodeGroup(g)) == g
  {
    if |g| == 1 {
      DecodeEncodeOne(g);
    } else if |g| == 2 {
      DecodeEncodeTwo(g);
    } else {
      DecodeEncodeThree(g);
    }
  }

  /** A one-byte group comes back from its two characters. */
  lemma DecodeEncodeOne(g: seq<Byte>)
    requires |g| == 1
    ensures DecodeGroup(EncodeGroup(g)) == g
  {
    ValueOfChar(g[0] / 4);
    ValueOfChar((g[0] % 4) * 16);
    FirstOctet(g[0], 0);
  }

  /** A two-byte group comes back from its three characters. */
  lemma DecodeEncodeTwo(g: seq<Byte>)
    requires |g| == 2
    ensures DecodeGroup(EncodeGroup(g)) == g
  {
    ValueOfChar(g[0] / 4);
    ValueOfChar((g[0] % 4) * 16 + g[1] / 16);
    ValueOfChar((g[1] % 16) * 4);
    FirstOctet(g[0], g[1]);
    SecondOctet(g[0], g[1], 0);
  }

  /** A three-byte group comes back from its four characters. */
  lemma DecodeEncodeThree(g: seq<Byte>)
    requires |g| == 3
    ensures DecodeGroup(EncodeGroup(g)) == g
  {
    ValueOfChar(g[0] / 4);
    ValueOfChar((g[0] % 4) * 16 + g[1] / 16);
    ValueOfChar((g[1] % 16) * 4 + g[2] / 64);
    ValueOfChar(g[2] % 64);
    FirstOctet(g[0], g[1]);
    SecondOctet(g[0], g[1], g[2]);
    ThirdOctet(g[1], g[2]);
  }

  /** The unpadded encoding never leaves a single character in its last group. */
  lemma UnpaddedLength(b: seq<Byte>)
    ensures |EncodeUnpadded(b)| % 4 != 1
  {
  }

  /** Decoding the unpadded encoding gives the octets back. */
  lemma {:induction false} DecodeEncodeUnpadded(b: seq<Byte>)
    requires |EncodeUnpadded(b)| % 4 != 1
    ensures DecodeChars(EncodeUnpadded(b)) == b
    decreases |b|
  {
    var e := EncodeUnpadded(b);
    if 1 <= |b| <= 3 {
      assert e == EncodeGroup(b);
      DecodeEncodeGroup(b);
    } else if |b| > 3 {
      var q := EncodeGroup(b[..3]);
      DecodeEncodeGroup(b[..3]);
      var rest := EncodeUnpadded(b[3..]);
      assert e == q + rest;
      assert e[..4] == q && e[4..] == rest;
      assert |rest| % 4 != 1;
      DecodeEncodeUnpadded(b[3..]);
      assert b == b[..3] + b[3..];
    }
  }

  /** Two `=` after a group of two characters are removed. */
  lemma StripTwo(u: string)
    requires AllInAlphabet(u) && (|u| + 2) % 4 == 0
    ensures StripPadding(u + "==") == u
  {
    var e := u + "==";
    assert e[|e| - 2..] == "==";
    assert e[..|e| - 2] == u;
  }

  /** One `=` after a group of three characters is removed, and nothing more. */
  lemma StripOne(u: string)
    requires AllInAlphabet(u) && (|u| + 1) % 4 == 0
    ensures StripPadding(u + "=") == u
  {
    var e := u + "=";
    assert InAlphabet(u[|u| - 1]);
    assert e[|e| - 2] == u[|u| - 1];
    assert e[|e| - 2..] != "==";
    assert e[|e| - 1..] == "=";
    assert e[..|e| - 1] == u;
  }

  /** Alphabet characters alone carry no padding to remove. */
  lemma StripNone(u: string)
    requires AllInAlphabet(u)
    ensures StripPadding(u) == u
  {
    if |u| > 0 {
      var c := u[|u| - 1];
      assert InAlphabet(c) && c != '=';
      assert u[|u| - 1..][0] == c;
      assert !Text.EndsWith(u, "=");
      if |u| >= 2 {
        assert u[|u| - 2..][1] == c;
        assert !Text.EndsWith(u, "==");
      }
    }
  }

  /** The forgiving decoder's padding step removes exactly the padding the encoder added. */
  lemma StripPaddingEncode(b: seq<Byte>)
    ensures StripPadding(Encode(b)) == EncodeUnpadded(b)
  {
    var u := EncodeUnpadded(b);
    var k := |b| / 3;
    if |b| % 3 == 1 {
      assert |b| == 3 * k + 1 && |u| == 4 * k + 2;
      assert Encode(b) == u + "==";
      StripTwo(u);
    } else if |b| % 3 == 2 {
      assert |b| == 3 * k + 2 && |u| == 4 * k + 3;
      assert Encode(b) == u + "=";
      StripOne(u);
    } else {
      assert Encode(b) == u;
      StripNone(u);
    }
  }

  /** `atob` undoes `btoa`'s encoding: section 4 of RFC 4648 read back by the forgiving decoder. */
  lemma AtobEncode(b: seq<Byte>)
    ensures Atob(Encode(b)) == Some(b)
  {
    var e := Encode(b);
    assert forall i :: 0 <= i < |e| ==> !IsAsciiWhitespace(e[i]);
    assert StripWhitespace(e) == e;
    StripPaddingEncode(b);
    UnpaddedLength(b);
    DecodeEncodeUnpadded(b);
  }

  /** A string of ASCII letters and digits passes `atob` exactly when its length is not one more than a multiple of four. */
  lemma AlnumAtob(t: string)
    requires forall i :: 0 <= i < |t| ==> Text.IsAsciiAlnum(t[i])
    ensures Atob(t).Some? <==> |t| % 4 != 1
  {
    assert StripWhitespace(t) == t;
    if |t| > 0 {
      assert !Text.EndsWith(t, "=") by { assert Text.IsAsciiAlnum(t[|t| - 1]); }
      assert !Text.EndsWith(t, "==") by { assert |t| >= 2 ==> Text.IsAsciiAlnum(t[|t| - 2]); }
    }
    assert StripPadding(t) == t;
  }
}
