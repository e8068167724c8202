/** The browser's `btoa` and `atob`: Base64 as in section 4 of RFC 4648 over
    "binary strings" (strings whose characters are all below U+0100), with
    `atob` following the WHATWG forgiving-base64 decode (ASCII whitespace
    ignored, padding optional). Each thrown `InvalidCharacterError` is
    `None`. */
module Base64 {
  import opened Wrappers

  type Byte = b: int | 0 <= b < 256
  type Sextet = x: int | 0 <= x < 64

  /** Every character is a single byte (code point below 256). */
  predicate Latin1(s: string) {
    forall i | 0 <= i < |s| :: s[i] as int < 256
  }

  /** `A-Z a-z 0-9 + /`, the alphabet of Table 1 of RFC 4648. */
  predicate IsAlphabetChar(c: char) {
    ('A' <= c <= 'Z') || ('a' <= c <= 'z') || ('0' <= c <= '9') || c == '+' || c == '/'
  }

  /** The character encoding a 6-bit value. */
  function CharOf(x: Sextet): (c: char)
    ensures IsAlphabetChar(c)
  {
    if x < 26 then (x + 65) as char
    else if x < 52 then (x - 26 + 97) as char
    else if x < 62 then (x - 52 + 48) as char
    else if x == 62 then '+'
    else '/'
  }

  /** The 6-bit value an alphabet character encodes. */
  function IndexOf(c: char): (x: Sextet)
    requires IsAlphabetChar(c)
    ensures CharOf(x) == c
  {
    if 'A' <= c <= 'Z' then c as int - 65
    else if 'a' <= c <= 'z' then c as int - 97 + 26
    else if '0' <= c <= '9' then c as int - 48 + 52
    else if c == '+' then 62
    else 63
  }

  /** The characters of a binary string as bytes. */
  function ToBytes(s: string): (r: seq<Byte>)
    requires Latin1(s)
    ensures |r| == |s|
    ensures forall i | 0 <= i < |s| :: r[i] == s[i] as int
  {
    if |s| == 0 then [] else [s[0] as int] + ToBytes(s[1..])
  }

  /** Bytes as a binary string. */
  function FromBytes(bs: seq<Byte>): (r: string)
    ensures |r| == |bs|
    ensures Latin1(r)
  {
    seq(|bs|, i requires 0 <= i < |bs| => bs[i] as char)
  }

  /** The 6-bit values of a byte string: four per full group of three
      bytes, then two (one byte left) or three (two bytes left), the unused
      low bits set to zero. */
  function EncodeSextets(bs: seq<Byte>): (r: seq<Sextet>)
    ensures |r| == 4 * (|bs| / 3) + (if |bs| % 3 == 0 then 0 else |bs| % 3 + 1)
    decreases |bs|
  {
    if |bs| == 0 then []
    else if |bs| == 1 then [bs[0] / 4, bs[0] % 4 * 16]
    else if |bs| == 2 then [bs[0] / 4, bs[0] % 4 * 16 + bs[1] / 16, bs[1] % 16 * 4]
    else [bs[0] / 4, bs[0] % 4 * 16 + bs[1] / 16, bs[1] % 16 * 4 + bs[2] / 64, bs[2] % 64] + EncodeSextets(bs[3..])
  }

  /** The alphabet characters of 6-bit values. */
  function Chars(xs: seq<Sextet>): (r: string)
    ensures |r| == |xs|
    ensures forall i | 0 <= i < |r| :: IsAlphabetChar(r[i])
  {
    seq(|xs|, i requires 0 <= i < |xs| => CharOf(xs[i]))
  }

  /** The 6-bit values of alphabet characters. */
  function Indices(t: string): (r: seq<Sextet>)
    requires forall i | 0 <= i < |t| :: IsAlphabetChar(t[i])
    ensures |r| == |t|
  {
    seq(|t|, i requires 0 <= i < |t| && IsAlphabetChar(t[i]) => IndexOf(t[i]))
  }

  /** The `=` characters that fill the last quantum to four characters. */
  function Padding(n: nat): string {
    if n % 3 == 1 then "==" else if n % 3 == 2 then "=" else ""
  }

  /** Base64 encoding of a byte string (section 4 of RFC 4648). */
  function Encode(bs: seq<Byte>): (r: string)
    ensures |r| == 4 * ((|bs| + 2) / 3)
    ensures forall i | 0 <= i < |r| :: IsAlphabetChar(r[i]) || r[i] == '='
  {
    Chars(EncodeSextets(bs)) + Padding(|bs|)
  }

  /** The three bytes carried by four 6-bit values. */
  function Bytes3(a: Sextet, b: Sextet, c: Sextet, d: Sextet): seq<Byte> {
    [a * 4 + b / 16, b % 16 * 16 + c / 4, c % 4 * 64 + d]
  }

  /** The bytes carried by a sequence of 6-bit values; a trailing group of two
      or three values yields one or two bytes, its leftover low bits
      discarded. */
  function DecodeSextets(xs: seq<Sextet>): seq<Byte>
    requires |xs| % 4 != 1
    decreases |xs|
  {
    if |xs| < 2 then []
    else if |xs| == 2 then Bytes3(xs[0], xs[1], 0, 0)[..1]
    else if |xs| == 3 then Bytes3(xs[0], xs[1], xs[2], 0)[..2]
    else Bytes3(xs[0], xs[1], xs[2], xs[3]) + DecodeSextets(xs[4..])
  }

  /** TAB, LF, FF, CR and SPACE. */
  predicate IsAsciiWhitespace(c: char) {
    c == '\t' || c == '\n' || c as int == 12 || c == '\r' || c == ' '
  }

  function StripWhitespace(s: string): (r: string)
    ensures forall i | 0 <= i < |r| :: !IsAsciiWhitespace(r[i])
    ensures (forall i | 0 <= i < |s| :: !IsAsciiWhitespace(s[i])) ==> r == s
  {
    if |s| == 0 then ""
    else if IsAsciiWhitespace(s[0]) then StripWhitespace(s[1..])
    else [s[0]] + StripWhitespace(s[1..])
  }

  /** Removes one or two trailing `=`. */
  function StripPadding(t: string): string {
    if |t| >= 2 && t[|t| - 2] == '=' && t[|t| - 1] == '=' then t[..|t| - 2]
    else if |t| >= 1 && t[|t| - 1] == '=' then t[..|t| - 1]
    else t
  }

  /** `btoa`: throws (`None`) on any character above U+00FF. */
  function Btoa(s: string): (r: Option<string>)
    ensures r.Some? <==> Latin1(s)
    ensures r.Some? ==> |r.value| % 4 == 0 && Latin1(r.value)
    ensures r.Some? && |s| > 0 ==> |r.value| > 0
  {
    if Latin1(s) then
      EncodeShape(ToBytes(s));
      Some(Encode(ToBytes(s)))
    else None
  }

  /** An encoding is a binary string whose length is a multiple of four, and
      is empty only for no bytes. */
  lemma EncodeShape(bs: seq<Byte>)
    ensures Latin1(Encode(bs))
    ensures |Encode(bs)| % 4 == 0
    ensures |bs| > 0 ==> |Encode(bs)| > 0
  {
    var e := Encode(bs);
    assert forall i | 0 <= i < |e| :: e[i] as int < 128;
    MultipleOfFour((|bs| + 2) / 3);
  }

  /** The bytes of whitespace-free, unpadded Base64 text; fails if the length
      leaves remainder 1 modulo 4 or a character is outside the alphabet. */
  function DecodeUnpadded(u: string): (r: Option<string>)
    ensures r.Some? ==> Latin1(r.value)
  {
    if |u| % 4 == 1 || exists i | 0 <= i < |u| :: !IsAlphabetChar(u[i]) then None
    else Some(FromBytes(DecodeSextets(Indices(u))))
  }

  /** `atob`, the forgiving-base64 decode: drop ASCII whitespace; if the length
      is then a multiple of four drop one or two trailing `=`; decode the
      rest. */
  function Atob(s: string): (r: Option<string>)
    ensures r.Some? ==> Latin1(r.value)
    ensures (forall i | 0 <= i < |s| :: IsAlphabetChar(s[i])) && |s| % 4 != 1 ==> r.Some?
    ensures (exists i | 0 <= i < |s| :: Foreign(s[i])) ==> r.None?
  {
    ForeignSurvives(s);
    AlphabetUnpadded(s);
    DecodeUnpadded(Unpadded(s))
  }

  /** The text `atob` decodes: whitespace dropped, then one or two trailing
      `=` dropped when the length is a multiple of four. */
  function Unpadded(s: string): string {
    var t := StripWhitespace(s);
    if |t| % 4 == 0 then StripPadding(t) else t
  }

  /** A character `atob` neither decodes nor skips: outside the alphabet, not
      ASCII whitespace and not `=`. */
  predicate Foreign(c: char) {
    !IsAlphabetChar(c) && !IsAsciiWhitespace(c) && c != '='
  }

  lemma {:induction false} StripWhitespaceKeeps(s: string, c: char)
    requires c in s && !IsAsciiWhitespace(c)
    ensures c in StripWhitespace(s)
    decreases |s|
  {
    if s[0] != c {
      assert c in s[1..];
      StripWhitespaceKeeps(s[1..], c);
    }
  }

  lemma StripPaddingKeeps(t: string, c: char)
    requires c in t && c != '='
    ensures c in StripPadding(t)
  {
    var i :| 0 <= i < |t| && t[i] == c;
    if |t| >= 2 && t[|t| - 2] == '=' && t[|t| - 1] == '=' {
      assert t[..|t| - 2][i] == c;
    } else if |t| >= 1 && t[|t| - 1] == '=' {
      assert t[..|t| - 1][i] == c;
    }
  }

  /** Text of alphabet characters alone is decoded as it stands. */
  lemma AlphabetUnpadded(s: string)
    ensures (forall i | 0 <= i < |s| :: IsAlphabetChar(s[i])) ==> Unpadded(s) == s
  {
    if forall i | 0 <= i < |s| :: IsAlphabetChar(s[i]) {
      assert StripWhitespace(s) == s;
      if |s| > 0 {
        assert IsAlphabetChar(s[|s| - 1]);
      }
    }
  }

  /** A foreign character survives both stripping steps of `atob`. */
  lemma ForeignSurvives(s: string)
    ensures (exists i | 0 <= i < |s| :: Foreign(s[i])) ==>
      exists j | 0 <= j < |Unpadded(s)| :: !IsAlphabetChar(Unpadded(s)[j])
  {
    var t := StripWhitespace(s);
    var u := Unpadded(s);
    if exists i | 0 <= i < |s| :: Foreign(s[i]) {
      var i :| 0 <= i < |s| && Foreign(s[i]);
      StripWhitespaceKeeps(s, s[i]);
      StripPaddingKeeps(t, s[i]);
      var j :| 0 <= j < |u| && u[j] == s[i];
    }
  }

  // ---------------------------------------------------------------------
  // Round trip
  // ---------------------------------------------------------------------

  lemma IndexOfCharOf(x: Sextet)
    ensures IndexOf(CharOf(x)) == x
  {
  }

  /** Reading back the characters of 6-bit values gives those values. */
  lemma IndicesChars(xs: seq<Sextet>)
    ensures Indices(Chars(xs)) == xs
  {
    forall i | 0 <= i < |xs| ensures Indices(Chars(xs))[i] == xs[i] {
      IndexOfCharOf(xs[i]);
    }
  }

  /** The bit arithmetic of one group of three bytes undoes itself. */
  lemma GroupArithmetic(b0: Byte, b1: Byte, b2: Byte)
    ensures Bytes3(b0 / 4, b0 % 4 * 16 + b1 / 16, b1 % 16 * 4 + b2 / 64, b2 % 64) == [b0, b1, b2]
  {
  }

  /** Decoding the 6-bit values gives back the bytes. */
  lemma {:induction false} DecodeEncodeSextets(bs: seq<Byte>)
    ensures DecodeSextets(EncodeSextets(bs)) == bs
    decreases |bs|
  {
    var xs := EncodeSextets(bs);
    if |bs| == 1 {
      GroupArithmetic(bs[0], 0, 0);
    } else if |bs| == 2 {
      GroupArithmetic(bs[0], bs[1], 0);
    } else if |bs| >= 3 {
      GroupArithmetic(bs[0], bs[1], bs[2]);
      assert xs[4..] == EncodeSextets(bs[3..]);
      DecodeEncodeSextets(bs[3..]);
      assert bs == [bs[0], bs[1], bs[2]] + bs[3..];
    }
  }

  /** The fourth character of each full group of three bytes encodes the low
      six bits of the group's third byte. */
  lemma {:induction false} SextetOfGroup(bs: seq<Byte>, g: nat)
    requires 3 * g + 3 <= |bs|
    ensures 4 * g + 3 < |EncodeSextets(bs)|
    ensures EncodeSextets(bs)[4 * g + 3] == bs[3 * g + 2] % 64
    decreases g
  {
    if g > 0 {
      SextetOfGroup(bs[3..], g - 1);
      assert EncodeSextets(bs)[4 * g + 3] == EncodeSextets(bs[3..])[4 * (g - 1) + 3];
      assert bs[3..][3 * (g - 1) + 2] == bs[3 * g + 2];
    }
  }

  lemma EncodeGroupChar(bs: seq<Byte>, g: nat)
    requires 3 * g + 3 <= |bs|
    ensures 4 * g + 3 < |Encode(bs)|
    ensures Encode(bs)[4 * g + 3] == CharOf(bs[3 * g + 2] % 64)
  {
    SextetOfGroup(bs, g);
    assert Encode(bs)[4 * g + 3] == Chars(EncodeSextets(bs))[4 * g + 3];
  }

  /** Alphabet characters followed by `==` lose exactly the `==`. */
  lemma StripTwo(g: string)
    requires forall i | 0 <= i < |g| :: IsAlphabetChar(g[i])
    ensures StripPadding(g + "==") == g
  {
    var e := g + "==";
    assert e[|e| - 2] == '=' && e[|e| - 1] == '=';
    assert e[..|e| - 2] == g;
  }

  /** Alphabet characters followed by `=` lose exactly the `=`. */
  lemma StripOne(g: string)
    requires |g| > 0 && forall i | 0 <= i < |g| :: IsAlphabetChar(g[i])
    ensures StripPadding(g + "=") == g
  {
    var e := g + "=";
    assert e[|e| - 2] == g[|g| - 1] && e[|e| - 1] == '=';
    assert e[..|e| - 1] == g;
  }

  /** Alphabet characters alone lose nothing. */
  lemma StripNone(g: string)
    requires forall i | 0 <= i < |g| :: IsAlphabetChar(g[i])
    ensures StripPadding(g) == g
  {
    if |g| > 0 {
      assert IsAlphabetChar(g[|g| - 1]);
    }
  }

  /** Stripping whitespace and padding from an encoding leaves the unpadded
      characters. */
  lemma StripEncode(bs: seq<Byte>)
    ensures StripWhitespace(Encode(bs)) == Encode(bs)
    ensures StripPadding(Encode(bs)) == Chars(EncodeSextets(bs))
  {
    var g := Chars(EncodeSextets(bs));
    var e := Encode(bs);
    assert forall i | 0 <= i < |e| :: !IsAsciiWhitespace(e[i]);
    var n := |bs|;
    assert e == g + Padding(n);
    if n % 3 == 0 {
      assert e == g;
      StripNone(g);
    } else if n % 3 == 1 {
      assert Padding(n) == "==";
      StripTwo(g);
    } else {
      assert Padding(n) == "=";
      assert |g| > 0;
      StripOne(g);
    }
  }

  /** The unpadded characters of an encoding decode to the bytes. */
  lemma DecodeUnpaddedEncoding(bs: seq<Byte>)
    ensures DecodeUnpadded(Chars(EncodeSextets(bs))) == Some(FromBytes(bs))
  {
    var xs := EncodeSextets(bs);
    var g := Chars(xs);
    assert |g| % 4 != 1;
    IndicesChars(xs);
    DecodeEncodeSextets(bs);
  }

  lemma MultipleOfFour(k: nat)
    ensures (4 * k) % 4 == 0
  {
  }

  /** Decoding an encoding gives back the bytes. */
  lemma AtobEncode(bs: seq<Byte>)
    ensures Atob(Encode(bs)) == Some(FromBytes(bs))
  {
    var e := Encode(bs);
    StripEncode(bs);
    MultipleOfFour((|bs| + 2) / 3);
    var t := StripWhitespace(e);
    assert t == e && |t| % 4 == 0;
    assert StripPadding(t) == Chars(EncodeSextets(bs));
    DecodeUnpaddedEncoding(bs);
  }

  /** `atob(btoa(s)) === s` for every binary string. */
  lemma AtobBtoa(s: string)
    requires Latin1(s)
    ensures Btoa(s).Some? && Atob(Btoa(s).value) == Some(s)
  {
    AtobEncode(ToBytes(s));
    assert FromBytes(ToBytes(s)) == s;
  }
}
