/**
  The deduplication key of a finding: `JSON.stringify` of the 4-element array
  [category, type, level, body]. Each field is written as a JSON string literal,
  so field boundaries survive and the key determines the tuple. The parser below
  is the inverse used to prove that.
 */
module JsonKey {
  import opened Wrappers
  import opened Findings

  const HexDigits: string := "0123456789abcdef"

  function HexDigit(n: nat): char
    requires n < 16
  {
    HexDigits[n]
  }

  /** The value of one hexadecimal digit, either case. */
  function HexValue(c: char): (r: Option<nat>)
    ensures r.Some? ==> r.value < 16
  {
    if '0' <= c <= '9' then Some(c as int - '0' as int)
    else if 'a' <= c <= 'f' then Some(c as int - 'a' as int + 10)
    else if 'A' <= c <= 'F' then Some(c as int - 'A' as int + 10)
    else None
  }

  lemma HexValueOfDigit(n: nat)
    requires n < 16
    ensures HexValue(HexDigit(n)) == Some(n)
  {
    assert HexDigits[0] == '0' && HexDigits[1] == '1' && HexDigits[2] == '2' && HexDigits[3] == '3';
    assert HexDigits[4] == '4' && HexDigits[5] == '5' && HexDigits[6] == '6' && HexDigits[7] == '7';
    assert HexDigits[8] == '8' && HexDigits[9] == '9' && HexDigits[10] == 'a' && HexDigits[11] == 'b';
    assert HexDigits[12] == 'c' && HexDigits[13] == 'd' && HexDigits[14] == 'e' && HexDigits[15] == 'f';
  }

  /** How JSON.stringify writes one character inside a string literal: the quote
      and the backslash are escaped, control characters take their short escape
      when JSON has one and a lower-case \u00xx escape otherwise. */
  function EscapeChar(c: char): (e: string)
    ensures |e| >= 1 && e[0] != '"' && e[0] >= ' '
    ensures e[0] == '\\' <==> (c == '"' || c == '\\' || c < ' ')
  {
    if c == '"' then "\\\""
    else if c == '\\' then "\\\\"
    else if c == '\U{8}' then "\\b"
    else if c == '\t' then "\\t"
    else if c == '\n' then "\\n"
    else if c == '\U{C}' then "\\f"
    else if c == '\r' then "\\r"
    else if c < ' ' then "\\u00" + [HexDigit(c as int / 16), HexDigit(c as int % 16)]
    else [c]
  }

  function EscapeAll(s: string): string {
    if |s| == 0 then [] else EscapeChar(s[0]) + EscapeAll(s[1..])
  }

  function Quote(s: string): string {
    "\"" + EscapeAll(s) + "\""
  }

  /** The key string built at database.ts line 72. */
  function Stringify(k: Key): string {
    "[" + Quote(k.category) + "," + Quote(k.kind) + "," + Quote(k.level) + "," + Quote(k.body) + "]"
  }

  /** Reads one character of a string literal's contents, decoding an escape. */
  function ReadChar(s: string): (r: Option<(char, string)>)
    ensures r.Some? ==> |r.value.1| < |s|
  {
    if |s| == 0 || s[0] == '"' then None
    else if s[0] == '\\' then
      if |s| < 2 then None
      else if s[1] == '"' then Some(('"', s[2..]))
      else if s[1] == '\\' then Some(('\\', s[2..]))
      else if s[1] == '/' then Some(('/', s[2..]))
      else if s[1] == 'b' then Some(('\U{8}', s[2..]))
      else if s[1] == 't' then Some(('\t', s[2..]))
      else if s[1] == 'n' then Some(('\n', s[2..]))
      else if s[1] == 'f' then Some(('\U{C}', s[2..]))
      else if s[1] == 'r' then Some(('\r', s[2..]))
      else if s[1] == 'u' && |s| >= 6 then
        match (HexValue(s[2]), HexValue(s[3]), HexValue(s[4]), HexValue(s[5]))
        case (Some(a), Some(b), Some(c), Some(d)) =>
          var v := ((a * 16 + b) * 16 + c) * 16 + d;
          if v < 0xD800 || 0xE000 <= v then Some((v as char, s[6..])) else None
        case _ => None
      else None
    else if s[0] < ' ' then None
    else Some((s[0], s[1..]))
  }

  /** Reads a string literal's contents up to its closing quote; returns them and what follows. */
  function ReadBody(s: string): Option<(string, string)>
    decreases |s|
  {
    if |s| == 0 then None
    else if s[0] == '"' then Some(([], s[1..]))
    else
      match ReadChar(s)
      case None => None
      case Some((c, rest)) =>
        match ReadBody(rest)
        case None => None
        case Some((t, after)) => Some(([c] + t, after))
  }

  function ReadString(s: string): Option<(string, string)> {
    if |s| > 0 && s[0] == '"' then ReadBody(s[1..]) else None
  }

  function Expect(c: char, s: string): Option<string> {
    if |s| > 0 && s[0] == c then Some(s[1..]) else None
  }

  /** Reads one string literal followed by the separator `sep`. */
  function ReadField(sep: char, s: string): Option<(string, string)> {
    var (field, rest) :- ReadString(s);
    var after :- Expect(sep, rest);
    Some((field, after))
  }

  /** Reads back a key string of the shape Stringify produces. */
  function Parse(s: string): Option<Key> {
    var s1 :- Expect('[', s);
    var (category, s2) :- ReadField(',', s1);
    var (kind, s3) :- ReadField(',', s2);
    var (level, s4) :- ReadField(',', s3);
    var (body, s5) :- ReadField(']', s4);
    if s5 == [] then Some(Key(category, kind, level, body)) else None
  }

  /** A control character without a short escape reads back from its \u00xx form. */
  lemma ReadUnicodeEscape(c: char, t: string)
    requires c < ' ' && c != '\U{8}' && c != '\t' && c != '\n' && c != '\U{C}' && c != '\r'
    ensures ReadChar(EscapeChar(c) + t) == Some((c, t))
  {
    var n := c as int;
    var s := EscapeChar(c) + t;
    assert EscapeChar(c) == "\\u00" + [HexDigit(n / 16), HexDigit(n % 16)];
    HexValueOfDigit(0);
    HexValueOfDigit(n / 16);
    HexValueOfDigit(n % 16);
    assert s[0] == '\\' && s[1] == 'u';
    assert s[2] == '0' && s[3] == '0' && s[4] == HexDigit(n / 16) && s[5] == HexDigit(n % 16);
    assert s[6..] == t;
  }

  lemma ReadEscapedChar(c: char, t: string)
    ensures ReadChar(EscapeChar(c) + t) == Some((c, t))
  {
    if c < ' ' && c != '\U{8}' && c != '\t' && c != '\n' && c != '\U{C}' && c != '\r' {
      ReadUnicodeEscape(c, t);
    } else {
      var s := EscapeChar(c) + t;
      assert s[|EscapeChar(c)|..] == t;
    }
  }

  lemma {:induction false} ReadEscapedBody(x: string, t: string)
    ensures ReadBody(EscapeAll(x) + "\"" + t) == Some((x, t))
  {
    if |x| == 0 {
      assert EscapeAll(x) + "\"" + t == "\"" + t;
    } else {
      var tail := EscapeAll(x[1..]) + "\"" + t;
      assert EscapeAll(x) + "\"" + t == EscapeChar(x[0]) + tail;
      ReadEscapedChar(x[0], tail);
      ReadEscapedBody(x[1..], t);
      assert [x[0]] + x[1..] == x;
    }
  }

  lemma ReadQuoted(x: string, t: string)
    ensures ReadString(Quote(x) + t) == Some((x, t))
  {
    assert (Quote(x) + t)[1..] == EscapeAll(x) + "\"" + t;
    ReadEscapedBody(x, t);
  }

  lemma ReadQuotedField(x: string, sep: char, t: string)
    ensures ReadField(sep, Quote(x) + [sep] + t) == Some((x, t))
  {
    assert Quote(x) + [sep] + t == Quote(x) + ([sep] + t);
    ReadQuoted(x, [sep] + t);
    assert ([sep] + t)[1..] == t;
  }

  lemma Reassociate(a: string, b: string, c: string, d: string)
    ensures "[" + a + "," + b + "," + c + "," + d + "]"
         == "[" + (a + "," + (b + "," + (c + "," + (d + "]" + []))))
  {
  }

  /** Parsing a key string gives back the tuple it was built from. */
  lemma ParseStringify(k: Key)
    ensures Parse(Stringify(k)) == Some(k)
  {
    var s4 := Quote(k.body) + "]" + [];
    var s3 := Quote(k.level) + "," + s4;
    var s2 := Quote(k.kind) + "," + s3;
    var s1 := Quote(k.category) + "," + s2;
    Reassociate(Quote(k.category), Quote(k.kind), Quote(k.level), Quote(k.body));
    assert Expect('[', Stringify(k)) == Some(s1);
    ReadQuotedField(k.category, ',', s2);
    ReadQuotedField(k.kind, ',', s3);
    ReadQuotedField(k.level, ',', s4);
    ReadQuotedField(k.body, ']', []);
  }

  /** Two tuples collide as key strings exactly when they are equal. */
  lemma StringifyInjective(k1: Key, k2: Key)
    ensures Stringify(k1) == Stringify(k2) <==> k1 == k2
  {
    ParseStringify(k1);
    ParseStringify(k2);
  }
}
