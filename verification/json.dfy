/** JSON text (RFC 8259) as the page uses it: `JSON.parse` as a reader of
    any JSON text, and the pieces of `JSON.stringify` needed to write strings,
    arrays of strings and `null`. Strings are sequences of Unicode scalar
    values; a `\u` escape naming a lone surrogate code unit has no such value
    and is rejected. */
module Json {
  import opened Wrappers
  import Seqs

  /** A parsed JSON value. Numbers keep their source text. Object members keep
      their order, duplicates included. */
  datatype Value =
    | JNull
    | JBool(b: bool)
    | JNumber(lexeme: string)
    | JString(s: string)
    | JArray(items: seq<Value>)
    | JObject(members: seq<(string, Value)>)

  /** A parse result and the text after it. */
  datatype Parsed<T> = Parsed(v: T, rest: string)

  // ---------------------------------------------------------------------
  // Characters
  // ---------------------------------------------------------------------

  /** The four whitespace characters of section 2 of RFC 8259. */
  predicate IsWs(c: char) {
    c == ' ' || c == '\t' || c == '\n' || c == '\r'
  }

  predicate IsDigit(c: char) {
    '0' <= c <= '9'
  }

  predicate IsHex(c: char) {
    ('0' <= c <= '9') || ('a' <= c <= 'f') || ('A' <= c <= 'F')
  }

  function HexValue(c: char): (n: nat)
    requires IsHex(c)
    ensures n < 16
  {
    if '0' <= c <= '9' then c as int - '0' as int
    else if 'a' <= c <= 'f' then c as int - 'a' as int + 10
    else c as int - 'A' as int + 10
  }

  /** Lower-case hexadecimal digit, as `JSON.stringify` writes them. */
  function HexDigit(n: nat): (c: char)
    requires n < 16
    ensures IsHex(c) && HexValue(c) == n
  {
    "0123456789abcdef"[n]
  }

  // ---------------------------------------------------------------------
  // Reader
  // ---------------------------------------------------------------------

  /** Drops the whitespace at the start of `s` (`SkipWsSuffix` states what
      is dropped). */
  function SkipWs(s: string): (r: string)
    ensures |r| <= |s|
    ensures |r| > 0 ==> !IsWs(r[0])
    decreases |s|
  {
    if |s| > 0 && IsWs(s[0]) then SkipWs(s[1..]) else s
  }

  /** The character named by an escape sequence; `s` follows the backslash.
      The escapes are those of section 7 of RFC 8259. */
  function Unescape(s: string): (r: Option<(char, string)>)
    ensures r.Some? ==> |r.value.1| < |s|
    ensures r.Some? ==> r.value.1 == s[1..] || (|s| >= 5 && r.value.1 == s[5..])
    ensures r.Some? && s[0] != 'u' ==> r.value.1 == s[1..] && (s[0] == '/' || EscapeChar(r.value.0) == ['\\', s[0]])
    ensures r.Some? && s[0] == 'u' ==>
      |s| >= 5 && IsHex(s[1]) && IsHex(s[2]) && IsHex(s[3]) && IsHex(s[4]) &&
      r.value.0 as int == HexValue(s[1]) * 4096 + HexValue(s[2]) * 256 + HexValue(s[3]) * 16 + HexValue(s[4])
  {
    if |s| == 0 then None
    else if s[0] == '"' || s[0] == '\\' || s[0] == '/' then Some((s[0], s[1..]))
    else if s[0] == 'b' then Some((8 as char, s[1..]))
    else if s[0] == 'f' then Some((12 as char, s[1..]))
    else if s[0] == 'n' then Some(('\n', s[1..]))
    else if s[0] == 'r' then Some(('\r', s[1..]))
    else if s[0] == 't' then Some(('\t', s[1..]))
    else if s[0] == 'u' && |s| >= 5 && IsHex(s[1]) && IsHex(s[2]) && IsHex(s[3]) && IsHex(s[4]) then
      var n := HexValue(s[1]) * 4096 + HexValue(s[2]) * 256 + HexValue(s[3]) * 16 + HexValue(s[4]);
      if 0xD800 <= n < 0xE000 then None else Some((n as char, s[5..]))
    else None
  }

  /** The characters of a string literal up to its closing quote; `s` follows
      the opening quote. Unescaped control characters are refused. */
  function StringBody(s: string): (r: Option<Parsed<string>>)
    ensures r.Some? ==> |r.value.rest| < |s|
    decreases |s|
  {
    if |s| == 0 then None
    else if s[0] == '"' then Some(Parsed("", s[1..]))
    else if s[0] == '\\' then
      match Unescape(s[1..])
      case None => None
      case Some((c, after)) =>
        match StringBody(after)
        case None => None
        case Some(p) => Some(Parsed([c] + p.v, p.rest))
    else if s[0] < ' ' then None
    else
      match StringBody(s[1..])
      case None => None
      case Some(p) => Some(Parsed([s[0]] + p.v, p.rest))
  }

  /** Length of the run of digits at the start of `s`. */
  function DigitRun(s: string): (n: nat)
    ensures n <= |s|
    ensures forall i | 0 <= i < n :: IsDigit(s[i])
    decreases |s|
  {
    if |s| > 0 && IsDigit(s[0]) then 1 + DigitRun(s[1..]) else 0
  }

  /** Length of the number at the start of `s`:
      `-? (0 | [1-9][0-9]*) (. [0-9]+)? ([eE] [+-]? [0-9]+)?`. */
  function NumberLength(s: string): (r: Option<nat>)
    ensures r.Some? ==> 0 < r.value <= |s|
  {
    var a := if |s| > 0 && s[0] == '-' then 1 else 0;
    if a >= |s| || !IsDigit(s[a]) then None
    else
      var b := if s[a] == '0' then a + 1 else a + DigitRun(s[a..]);
      var c := if b < |s| && s[b] == '.' then
                 (var d := DigitRun(s[b + 1..]); if d == 0 then -1 else b + 1 + d)
               else b;
      if c < 0 then None
      else
        var e := if c < |s| && (s[c] == 'e' || s[c] == 'E') then
                   (var m := if c + 1 < |s| && (s[c + 1] == '+' || s[c + 1] == '-') then c + 2 else c + 1;
                    var d := DigitRun(s[m..]);
                    if d == 0 then -1 else m + d)
                 else c;
        if e < 0 then None else Some(e)
  }

  function ParseNumber(t: string): (r: Option<Parsed<Value>>)
    ensures r.Some? ==> |r.value.rest| < |t|
  {
    match NumberLength(t)
    case None => None
    case Some(n) => Some(Parsed(JNumber(t[..n]), t[n..]))
  }

  /** `true`, `false` or `null`. */
  function ParseLiteral(t: string): (r: Option<Parsed<Value>>)
    ensures r.Some? ==> |r.value.rest| < |t|
  {
    if |t| >= 4 && t[..4] == "true" then Some(Parsed(JBool(true), t[4..]))
    else if |t| >= 5 && t[..5] == "false" then Some(Parsed(JBool(false), t[5..]))
    else if |t| >= 4 && t[..4] == "null" then Some(Parsed(JNull, t[4..]))
    else None
  }

  /** A value with the whitespace around it. */
  function ParseValue(s: string): (r: Option<Parsed<Value>>)
    ensures r.Some? ==> |r.value.rest| < |s|
    decreases |s|, 2
  {
    match ParseBare(SkipWs(s))
    case None => None
    case Some(p) => Some(Parsed(p.v, SkipWs(p.rest)))
  }

  /** A value starting at the first character of `t`; its first character
      decides its kind. */
  function ParseBare(t: string): (r: Option<Parsed<Value>>)
    ensures r.Some? ==> |r.value.rest| < |t|
    decreases |t|, 1
  {
    if |t| == 0 then None
    else if t[0] == '{' then ParseObject(t)
    else if t[0] == '[' then ParseArray(t)
    else if t[0] == '"' then ParseString(t)
    else if t[0] == '-' || IsDigit(t[0]) then ParseNumber(t)
    else ParseLiteral(t)
  }

  /** A string literal; `t` starts with `"`. */
  function ParseString(t: string): (r: Option<Parsed<Value>>)
    requires |t| > 0 && t[0] == '"'
    ensures r.Some? ==> |r.value.rest| < |t|
  {
    match StringBody(t[1..])
    case None => None
    case Some(p) => Some(Parsed(JString(p.v), p.rest))
  }

  /** An array; `t` starts with `[`. */
  function ParseArray(t: string): (r: Option<Parsed<Value>>)
    requires |t| > 0 && t[0] == '['
    ensures r.Some? ==> |r.value.rest| < |t|
    decreases |t|, 0
  {
    var u := SkipWs(t[1..]);
    if |u| > 0 && u[0] == ']' then Some(Parsed(JArray([]), u[1..]))
    else
      match Elements(u)
      case None => None
      case Some(p) => Some(Parsed(JArray(p.v), p.rest))
  }

  /** The elements of a non-empty array and its closing `]`. */
  function Elements(s: string): (r: Option<Parsed<seq<Value>>>)
    ensures r.Some? ==> |r.value.rest| < |s|
    decreases |s|, 3
  {
    match ParseValue(s)
    case None => None
    case Some(p) =>
      if |p.rest| > 0 && p.rest[0] == ',' then
        match Elements(p.rest[1..])
        case None => None
        case Some(q) => Some(Parsed([p.v] + q.v, q.rest))
      else if |p.rest| > 0 && p.rest[0] == ']' then Some(Parsed([p.v], p.rest[1..]))
      else None
  }

  /** An object; `t` starts with `{`. */
  function ParseObject(t: string): (r: Option<Parsed<Value>>)
    requires |t| > 0 && t[0] == '{'
    ensures r.Some? ==> |r.value.rest| < |t|
    decreases |t|, 0
  {
    var u := SkipWs(t[1..]);
    if |u| > 0 && u[0] == '}' then Some(Parsed(JObject([]), u[1..]))
    else
      match Members(u)
      case None => None
      case Some(p) => Some(Parsed(JObject(p.v), p.rest))
  }

  /** The members of a non-empty object and its closing `}`. */
  function Members(s: string): (r: Option<Parsed<seq<(string, Value)>>>)
    ensures r.Some? ==> |r.value.rest| < |s|
    decreases |s|, 3
  {
    var t := SkipWs(s);
    if |t| == 0 || t[0] != '"' then None
    else
      match StringBody(t[1..])
      case None => None
      case Some(key) => MemberValue(key.v, key.rest)
  }

  /** What follows a member's key: the colon, the value, then either a comma
      and the remaining members or the closing `}`. */
  function MemberValue(key: string, s: string): (r: Option<Parsed<seq<(string, Value)>>>)
    ensures r.Some? ==> |r.value.rest| < |s|
    decreases |s|, 4
  {
    var u := SkipWs(s);
    if |u| == 0 || u[0] != ':' then None
    else
      match ParseValue(u[1..])
      case None => None
      case Some(p) =>
        if |p.rest| > 0 && p.rest[0] == ',' then
          match Members(p.rest[1..])
          case None => None
          case Some(q) => Some(Parsed([(key, p.v)] + q.v, q.rest))
        else if |p.rest| > 0 && p.rest[0] == '}' then Some(Parsed([(key, p.v)], p.rest[1..]))
        else None
  }

  /** `JSON.parse`: one value, surrounded by nothing but whitespace. A
      `SyntaxError` is `None`; in particular empty or blank text is one. */
  function Parse(text: string): (r: Option<Value>)
    ensures (forall i | 0 <= i < |text| :: IsWs(text[i])) ==> r.None?
  {
    SkipWsSuffix(text);
    match ParseValue(text)
    case None => None
    case Some(p) => if p.rest == "" then Some(p.v) else None
  }

  /** The value of member `key` (the last one when the key repeats). */
  function Lookup(members: seq<(string, Value)>, key: string): (r: Option<Value>)
    ensures r.Some? ==> exists i | 0 <= i < |members| ::
      members[i] == (key, r.value) && forall j | i < j < |members| :: members[j].0 != key
    ensures r.None? ==> forall i | 0 <= i < |members| :: members[i].0 != key
    decreases |members|
  {
    var n := |members|;
    if n == 0 then None
    else if members[n - 1].0 == key then
      assert members[n - 1] == (key, members[n - 1].1);
      Some(members[n - 1].1)
    else
      var init := members[..n - 1];
      var r := Lookup(init, key);
      if r.Some? then
        var i :| 0 <= i < |init| && init[i] == (key, r.value) && forall j | i < j < |init| :: init[j].0 != key;
        assert members[i] == init[i];
        assert forall j | i < j < n :: members[j].0 != key by {
          forall j | i < j < n ensures members[j].0 != key {
            if j < n - 1 {
              assert members[j] == init[j];
            }
          }
        }
        r
      else
        assert forall i | 0 <= i < n - 1 :: members[i] == init[i];
        r
  }

  /** `value.key`: the member `key` of an object, `undefined` (`None`) for
      an object without that key and for any other value. */
  function Property(v: Value, key: string): (r: Option<Value>)
    ensures r.Some? <==> v.JObject? && exists i | 0 <= i < |v.members| :: v.members[i].0 == key
  {
    if v.JObject? then Lookup(v.members, key) else None
  }

  /** The mantissa digits of a number are all zero (the exponent is ignored). */
  predicate ZeroMantissa(lexeme: string)
    decreases |lexeme|
  {
    |lexeme| == 0 || lexeme[0] == 'e' || lexeme[0] == 'E'
    || (('1' <= lexeme[0] <= '9') == false && ZeroMantissa(lexeme[1..]))
  }

  /** JavaScript truthiness of a parsed value: `null`, `false`, zero and the
      empty string are falsy. */
  predicate Truthy(v: Value) {
    match v
    case JNull => false
    case JBool(b) => b
    case JNumber(lexeme) => !ZeroMantissa(lexeme)
    case JString(s) => s != ""
    case JArray(_) => true
    case JObject(_) => true
  }

  // ---------------------------------------------------------------------
  // Writer
  // ---------------------------------------------------------------------

  /** How `JSON.stringify` writes one character of a string: `"` and `\`
      escaped, the five control characters with short escapes written short,
      the other control characters as `\u00xx`, everything else as is. */
  function EscapeChar(c: char): (r: string)
    ensures |r| > 0
  {
    if c == '"' then "\\\""
    else if c == '\\' then "\\\\"
    else if c as int == 8 then "\\b"
    else if c == '\t' then "\\t"
    else if c == '\n' then "\\n"
    else if c as int == 12 then "\\f"
    else if c == '\r' then "\\r"
    else if c < ' ' then "\\u00" + [HexDigit(c as int / 16), HexDigit(c as int % 16)]
    else [c]
  }

  /** The text `JSON.stringify` writes between the quotes of a string. */
  function Escape(s: string): string
    decreases |s|
  {
    if |s| == 0 then "" else EscapeChar(s[0]) + Escape(s[1..])
  }

  /** A string literal: the escaped text between two quotes. */
  function Quote(s: string): string {
    "\"" + Escape(s) + "\""
  }

  /** A string or `null`. */
  function WriteNullable(o: Option<string>): string {
    if o.Some? then Quote(o.value) else "null"
  }

  /** The quoted strings separated by commas. */
  function JoinQuoted(xs: seq<string>): string
    decreases |xs|
  {
    if |xs| == 0 then ""
    else if |xs| == 1 then Quote(xs[0])
    else Quote(xs[0]) + "," + JoinQuoted(xs[1..])
  }

  /** An array of strings, without spaces. */
  function WriteStrings(xs: seq<string>): string {
    "[" + JoinQuoted(xs) + "]"
  }

  /** The values written by `WriteStrings`. */
  function Strings(xs: seq<string>): (r: seq<Value>)
    ensures |r| == |xs|
  {
    seq(|xs|, i requires 0 <= i < |xs| => JString(xs[i]))
  }

  /** The value written by `WriteNullable`. */
  function Nullable(o: Option<string>): Value {
    if o.Some? then JString(o.value) else JNull
  }

  // ---------------------------------------------------------------------
  // Reading back what was written
  // ---------------------------------------------------------------------

  /** `SkipWs` drops exactly a run of whitespace: the result is a suffix of
      `s` and everything before it is whitespace. */
  lemma {:induction false} SkipWsSuffix(s: string)
    ensures SkipWs(s) == s[|s| - |SkipWs(s)|..]
    ensures forall i | 0 <= i < |s| - |SkipWs(s)| :: IsWs(s[i])
    decreases |s|
  {
    if |s| > 0 && IsWs(s[0]) {
      SkipWsSuffix(s[1..]);
      var r := SkipWs(s[1..]);
      assert s[1..][|s| - 1 - |r|..] == s[|s| - |r|..];
      forall i | 0 <= i < |s| - |r| ensures IsWs(s[i]) {
        if i > 0 {
          assert s[i] == s[1..][i - 1];
        }
      }
    }
  }

  /** How one character is written: as itself exactly when it is neither a
      control character, `"` nor `\`; otherwise as an escape starting with a
      backslash; never with a raw control character. */
  lemma EscapeCharShape(c: char)
    ensures |EscapeChar(c)| == 1 <==> c >= ' ' && c != '"' && c != '\\'
    ensures |EscapeChar(c)| == 1 ==> EscapeChar(c) == [c]
    ensures |EscapeChar(c)| > 1 ==> EscapeChar(c)[0] == '\\'
    ensures forall i | 0 <= i < |EscapeChar(c)| :: EscapeChar(c)[i] >= ' '
  {
  }

  /** Escaping never shortens a string, and a string literal is the escaped
      text between two quotes; only an absent value is written `null`, and an
      array of strings is bracketed. */
  lemma {:induction false} WrittenShape(s: string, o: Option<string>, xs: seq<string>)
    ensures |Escape(s)| >= |s|
    ensures |Quote(s)| >= |s| + 2 && Quote(s)[0] == '"' && Quote(s)[|Quote(s)| - 1] == '"'
    ensures WriteNullable(o) == "null" <==> o.None?
    ensures |WriteStrings(xs)| >= 2 && WriteStrings(xs)[0] == '[' && WriteStrings(xs)[|WriteStrings(xs)| - 1] == ']'
    decreases |s|
  {
    if |s| > 0 {
      WrittenShape(s[1..], o, xs);
    }
    if o.Some? {
      assert WriteNullable(o)[0] == '"';
    }
  }

  /** The text `JSON.stringify` writes for a string has no raw control
      character, quotes included. */
  lemma {:induction false} EscapeNoControl(s: string)
    ensures forall i | 0 <= i < |Escape(s)| :: Escape(s)[i] >= ' '
    ensures forall i | 0 <= i < |Quote(s)| :: Quote(s)[i] >= ' '
    decreases |s|
  {
    if |s| > 0 {
      EscapeNoControl(s[1..]);
      EscapeCharShape(s[0]);
      var e, t := EscapeChar(s[0]), Escape(s[1..]);
      forall i | 0 <= i < |e + t| ensures (e + t)[i] >= ' ' {
        if i >= |e| {
          assert (e + t)[i] == t[i - |e|];
        }
      }
    }
    var q := Quote(s);
    forall i | 0 <= i < |q| ensures q[i] >= ' ' {
      if 0 < i < |q| - 1 {
        assert q[i] == Escape(s)[i - 1];
      }
    }
  }

  /** Escapes `JSON.stringify` never writes still read: `\/`, `\b`, `\f`,
      and `\u` with upper-case hexadecimal digits, which mean the same as
      lower-case ones. A `\u` escape naming a surrogate is refused. */
  lemma UnescapeUnwritten(t: string)
    ensures Unescape("/" + t) == Some(('/', t))
    ensures Unescape("b" + t) == Some((8 as char, t))
    ensures Unescape("f" + t) == Some((12 as char, t))
    ensures Unescape("u00E9" + t) == Some((0xE9 as char, t))
    ensures Unescape("u00E9" + t) == Unescape("u00e9" + t)
    ensures Unescape("uD800" + t) == None
  {
    assert ("/" + t)[0] == '/' && ("/" + t)[1..] == t;
    assert ("b" + t)[0] == 'b' && ("b" + t)[1..] == t;
    assert ("f" + t)[0] == 'f' && ("f" + t)[1..] == t;
    var up, low, sur := "u00E9" + t, "u00e9" + t, "uD800" + t;
    assert up[..5] == "u00E9" && up[5..] == t;
    assert low[..5] == "u00e9" && low[5..] == t;
    assert sur[..5] == "uD800";
  }

  /** Truthiness as the `||` defaults see it: `null`, `false`, `""` and
      numbers whose mantissa is zero are falsy; `"0"`, other numbers and every
      array and object, empty ones included, are truthy. */
  lemma TruthyAsJavaScript(items: seq<Value>, members: seq<(string, Value)>)
    ensures !Truthy(JNull) && !Truthy(JBool(false)) && Truthy(JBool(true))
    ensures !Truthy(JString("")) && Truthy(JString("0"))
    ensures !Truthy(JNumber("0")) && !Truthy(JNumber("-0.00")) && !Truthy(JNumber("0e5"))
    ensures Truthy(JNumber("0.5")) && Truthy(JNumber("1e-3"))
    ensures Truthy(JArray(items)) && Truthy(JObject(members))
  {
    assert "-0.00"[1..] == "0.00" && "0.00"[1..] == ".00" && ".00"[1..] == "00";
    assert "00"[1..] == "0" && "0"[1..] == "";
    assert "0e5"[1..] == "e5";
    assert "0.5"[1..] == ".5" && ".5"[1..] == "5";
  }

  /** Skipping whitespace stops at once on a non-whitespace character. */
  lemma SkipWsStops(s: string)
    requires |s| > 0 && !IsWs(s[0])
    ensures SkipWs(s) == s
  {
  }

  /** One escaped character reads back as that character. */
  lemma StringBodyEscapeChar(c: char, tail: string)
    ensures StringBody(EscapeChar(c) + tail) ==
      match StringBody(tail)
      case None => None
      case Some(p) => Some(Parsed([c] + p.v, p.rest))
  {
    var s := EscapeChar(c) + tail;
    if c == '"' || c == '\\' || c as int == 8 || c == '\t' || c == '\n' || c as int == 12 || c == '\r' {
      assert s[0] == '\\' && s[1..] == [EscapeChar(c)[1]] + tail;
      assert Unescape(s[1..]) == Some((c, tail));
    } else if c < ' ' {
      var hi, lo := HexDigit(c as int / 16), HexDigit(c as int % 16);
      assert s[0] == '\\';
      assert s[1..] == ['u', '0', '0', hi, lo] + tail;
      assert s[1..][5..] == tail;
      assert Unescape(s[1..]) == Some((c, tail));
    } else {
      assert s[1..] == tail;
    }
  }

  /** An escaped string followed by a quote reads back as that string. */
  lemma {:induction false} StringBodyEscape(x: string, rest: string)
    ensures StringBody(Escape(x) + "\"" + rest) == Some(Parsed(x, rest))
    decreases |x|
  {
    if |x| == 0 {
      assert Escape(x) + "\"" + rest == "\"" + rest;
      assert ("\"" + rest)[1..] == rest;
    } else {
      var tail := Escape(x[1..]) + "\"" + rest;
      assert Escape(x) + "\"" + rest == EscapeChar(x[0]) + tail;
      StringBodyEscapeChar(x[0], tail);
      StringBodyEscape(x[1..], rest);
      assert [x[0]] + x[1..] == x;
    }
  }

  /** A value that does not start with whitespace is read from its first
      character. */
  lemma ValueOfBare(s: string)
    requires |s| > 0 && !IsWs(s[0])
    ensures ParseValue(s) ==
      match ParseBare(s)
      case None => None
      case Some(p) => Some(Parsed(p.v, SkipWs(p.rest)))
  {
    SkipWsStops(s);
  }

  /** A written string reads back as that string. */
  lemma ParseQuote(x: string, rest: string)
    ensures ParseValue(Quote(x) + rest) == Some(Parsed(JString(x), SkipWs(rest)))
  {
    var s := Quote(x) + rest;
    assert s[0] == '"';
    assert s[1..] == Escape(x) + "\"" + rest;
    StringBodyEscape(x, rest);
    assert ParseString(s) == Some(Parsed(JString(x), rest));
    assert ParseBare(s) == ParseString(s);
    ValueOfBare(s);
  }

  /** A written string or `null` reads back as that value. */
  lemma ParseNullable(o: Option<string>, rest: string)
    ensures ParseValue(WriteNullable(o) + rest) == Some(Parsed(Nullable(o), SkipWs(rest)))
  {
    if o.Some? {
      ParseQuote(o.value, rest);
    } else {
      ParseNull(rest);
    }
  }

  /** `null` reads back as the null value. */
  lemma ParseNull(rest: string)
    ensures ParseValue("null" + rest) == Some(Parsed(JNull, SkipWs(rest)))
  {
    var s := "null" + rest;
    assert s[..4] == "null" && s[4..] == rest;
    assert s[0] == 'n';
    assert ParseLiteral(s) == Some(Parsed(JNull, rest));
    assert ParseBare(s) == ParseLiteral(s);
    ValueOfBare(s);
  }

  /** The last written element and the closing bracket. */
  lemma ElementsLast(x: string, rest: string)
    ensures Elements(Quote(x) + "]" + rest) == Some(Parsed([JString(x)], rest))
  {
    assert Quote(x) + "]" + rest == Quote(x) + ("]" + rest);
    ParseQuote(x, "]" + rest);
    SkipWsStops("]" + rest);
    assert ("]" + rest)[1..] == rest;
  }

  /** A written element followed by a comma, then the remaining elements. */
  lemma ElementsNext(x: string, after: string)
    ensures Elements(Quote(x) + "," + after) ==
      match Elements(after)
      case None => None
      case Some(q) => Some(Parsed([JString(x)] + q.v, q.rest))
  {
    assert Quote(x) + "," + after == Quote(x) + ("," + after);
    ParseQuote(x, "," + after);
    SkipWsStops("," + after);
    assert ("," + after)[1..] == after;
  }

  /** Comma-separated written strings and the closing bracket read back as the
      elements. */
  lemma {:induction false} ElementsJoin(xs: seq<string>, rest: string)
    requires |xs| > 0
    ensures Elements(JoinQuoted(xs) + "]" + rest) == Some(Parsed(Strings(xs), rest))
    decreases |xs|
  {
    if |xs| == 1 {
      ElementsLast(xs[0], rest);
      assert Strings(xs) == [JString(xs[0])];
    } else {
      var q, j1 := Quote(xs[0]), JoinQuoted(xs[1..]);
      var after := j1 + "]" + rest;
      assert JoinQuoted(xs) == q + "," + j1;
      Seqs.Assoc4(q + ",", j1, "]", rest);
      ElementsNext(xs[0], after);
      ElementsJoin(xs[1..], rest);
      assert Strings(xs) == [JString(xs[0])] + Strings(xs[1..]);
    }
  }

  /** A written array of strings reads back as that array. */
  lemma ParseStrings(xs: seq<string>, rest: string)
    ensures ParseValue(WriteStrings(xs) + rest) == Some(Parsed(JArray(Strings(xs)), SkipWs(rest)))
  {
    var s := WriteStrings(xs) + rest;
    assert s[0] == '[';
    assert s[1..] == JoinQuoted(xs) + "]" + rest;
    if |xs| == 0 {
      assert s[1..] == "]" + rest;
      SkipWsStops(s[1..]);
      assert s[1..][1..] == rest;
    } else {
      assert JoinQuoted(xs)[0] == '"' by {
        if |xs| == 1 {
          assert JoinQuoted(xs) == Quote(xs[0]);
        } else {
          assert JoinQuoted(xs) == Quote(xs[0]) + "," + JoinQuoted(xs[1..]);
        }
      }
      SkipWsStops(s[1..]);
      ElementsJoin(xs, rest);
    }
    assert ParseArray(s) == Some(Parsed(JArray(Strings(xs)), rest));
    assert ParseBare(s) == ParseArray(s);
    ValueOfBare(s);
  }

  /** A written key reads back and leaves the rest of the member. */
  lemma MembersKey(key: string, tail: string)
    ensures Members(Quote(key) + tail) == MemberValue(key, tail)
  {
    var s := Quote(key) + tail;
    assert s[0] == '"';
    assert s[1..] == Escape(key) + "\"" + tail;
    SkipWsStops(s);
    StringBodyEscape(key, tail);
    assert StringBody(s[1..]) == Some(Parsed(key, tail));
  }

  /** A colon and a value followed by a comma, then the remaining members. */
  lemma MemberValueNext(key: string, vtext: string, val: Value, after: string)
    requires ParseValue(vtext + ("," + after)) == Some(Parsed(val, "," + after))
    ensures MemberValue(key, ":" + vtext + "," + after) ==
      match Members(after)
      case None => None
      case Some(q) => Some(Parsed([(key, val)] + q.v, q.rest))
  {
    var tail := ":" + vtext + "," + after;
    SkipWsStops(tail);
    assert tail[0] == ':';
    assert tail[1..] == vtext + ("," + after);
    var p := ParseValue(tail[1..]);
    assert p == Some(Parsed(val, "," + after));
    assert p.value.rest[0] == ',' && p.value.rest[1..] == after;
  }

  /** A colon and a value followed by the closing brace. */
  lemma MemberValueLast(key: string, vtext: string, val: Value, rest: string)
    requires ParseValue(vtext + ("}" + rest)) == Some(Parsed(val, "}" + rest))
    ensures MemberValue(key, ":" + vtext + "}" + rest) == Some(Parsed([(key, val)], rest))
  {
    var tail := ":" + vtext + "}" + rest;
    SkipWsStops(tail);
    assert tail[0] == ':';
    assert tail[1..] == vtext + ("}" + rest);
    var p := ParseValue(tail[1..]);
    assert p == Some(Parsed(val, "}" + rest));
    assert p.value.rest[0] == '}' && p.value.rest[1..] == rest;
  }

  /** A whole member followed by a comma, then the remaining members. */
  lemma MemberNext(key: string, vtext: string, val: Value, after: string)
    requires ParseValue(vtext + ("," + after)) == Some(Parsed(val, "," + after))
    ensures Members(Quote(key) + (":" + vtext + "," + after)) ==
      match Members(after)
      case None => None
      case Some(q) => Some(Parsed([(key, val)] + q.v, q.rest))
  {
    MembersKey(key, ":" + vtext + "," + after);
    MemberValueNext(key, vtext, val, after);
  }

  /** A whole member followed by the closing brace and nothing else. */
  lemma MemberLast(key: string, vtext: string, val: Value)
    requires ParseValue(vtext + "}") == Some(Parsed(val, "}"))
    ensures Members(Quote(key) + (":" + vtext + "}")) == Some(Parsed([(key, val)], ""))
  {
    MembersKey(key, ":" + vtext + "}");
    assert "}" + "" == "}";
    assert ":" + vtext + "}" + "" == ":" + vtext + "}";
    MemberValueLast(key, vtext, val, "");
  }

  /** An object's opening brace followed by members. */
  lemma ObjectOfMembers(body: string, rest: string)
    requires |body| > 0 && body[0] == '"'
    ensures ParseBare("{" + body + rest) ==
      match Members(body + rest)
      case None => None
      case Some(p) => Some(Parsed(JObject(p.v), p.rest))
  {
    var t := "{" + body + rest;
    assert t[0] == '{' && t[1..] == body + rest;
    SkipWsStops(t[1..]);
    assert ParseBare(t) == ParseObject(t);
  }

  /** An object whose members read back reads back as that object. */
  lemma ParseObjectText(body: string, members: seq<(string, Value)>, rest: string)
    requires |body| > 0 && body[0] == '"'
    requires Members(body + rest) == Some(Parsed(members, rest))
    ensures ParseValue("{" + body + rest) == Some(Parsed(JObject(members), SkipWs(rest)))
  {
    var s := "{" + body + rest;
    ObjectOfMembers(body, rest);
    assert ParseBare(s) == Some(Parsed(JObject(members), rest));
    assert s[0] == '{';
    ValueOfBare(s);
  }
}
