/**
 * JSON.stringify on strings, arrays of strings and objects whose values are
 * strings, as the holiday scripts use it, and a reader for the same text
 * (section 7 of RFC 8259 for strings, sections 4 and 5 for objects and
 * arrays). Stringify writes no whitespace; a string is quoted with `"`, `\`
 * and the control characters escaped as section 25.5.2.3 (QuoteJSONString)
 * of ECMA-262 prescribes.
 */
module Json {
  import opened Wrappers
  import opened Strings

  /** The lower-case hexadecimal digit of a value below 16. */
  function HexDigit(v: nat): (ch: char)
    requires v < 16
  {
    "0123456789abcdef"[v]
  }

  /** The value of a hexadecimal digit of either case. */
  function HexValue(ch: char): Option<nat> {
    if '0' <= ch <= '9' then Some(ch as int - '0' as int)
    else if 'a' <= ch <= 'f' then Some(ch as int - 'a' as int + 10)
    else if 'A' <= ch <= 'F' then Some(ch as int - 'A' as int + 10)
    else None
  }

  /** Reading back a written hexadecimal digit. */
  lemma HexDigitValue(v: nat)
    requires v < 16
    ensures HexValue(HexDigit(v)) == Some(v)
  {
  }

  /** QuoteJSONString for one code point. */
  function EscapeChar(c: char): string {
    var n := c as int;
    if c == '"' then "\\\""
    else if c == '\\' then "\\\\"
    else if n == 8 then "\\b"
    else if n == 9 then "\\t"
    else if n == 10 then "\\n"
    else if n == 12 then "\\f"
    else if n == 13 then "\\r"
    else if n < 32 then "\\u00" + [HexDigit(n / 16), HexDigit(n % 16)]
    else [c]
  }

  /** The escaped text of a string, without the quotes. */
  function Escape(s: string): string {
    if |s| == 0 then "" else EscapeChar(s[0]) + Escape(s[1..])
  }

  /** JSON.stringify of a string. */
  function Quote(s: string): string {
    "\"" + Escape(s) + "\""
  }

  /** The escape `\` e stands for this character, when e is one of the one-letter escapes. */
  function SimpleEscape(e: char): Option<char> {
    if e == '"' then Some('"')
    else if e == '\\' then Some('\\')
    else if e == '/' then Some('/')
    else if e == 'b' then Some(8 as char)
    else if e == 't' then Some(9 as char)
    else if e == 'n' then Some(10 as char)
    else if e == 'f' then Some(12 as char)
    else if e == 'r' then Some(13 as char)
    else None
  }

  /** Put a character in front of the text read so far. */
  function Prepend(c: char, r: Option<(string, string)>): Option<(string, string)> {
    match r
    case None => None
    case Some((s, rest)) => Some(([c] + s, rest))
  }

  /**
   * Reads the characters of a string literal up to its closing quote: the
   * characters and the text after the quote. A raw control character, a bad
   * escape or a missing closing quote is an error; `\u` escapes of surrogate
   * code units are not read.
   */
  function ReadBody(t: string): (r: Option<(string, string)>)
    ensures r.Some? ==> |r.value.1| < |t|
    decreases |t|
  {
    if |t| == 0 then None
    else if t[0] == '"' then Some(("", t[1..]))
    else if t[0] == '\\' then
      if |t| < 2 then None
      else if t[1] == 'u' then
        if |t| < 6 then None
        else
          var h0, h1, h2, h3 := HexValue(t[2]), HexValue(t[3]), HexValue(t[4]), HexValue(t[5]);
          if h0.None? || h1.None? || h2.None? || h3.None? then None
          else
            var v := 4096 * h0.value + 256 * h1.value + 16 * h2.value + h3.value;
            if 0xD800 <= v < 0xE000 then None
            else Prepend(v as char, ReadBody(t[6..]))
      else if SimpleEscape(t[1]).Some? then Prepend(SimpleEscape(t[1]).value, ReadBody(t[2..]))
      else None
    else if (t[0] as int) < 32 then None
    else Prepend(t[0], ReadBody(t[1..]))
  }

  /** Reads a string literal at the start of t: its value and the text after it. */
  function ReadString(t: string): (r: Option<(string, string)>)
    ensures r.Some? ==> |r.value.1| < |t|
  {
    if |t| > 0 && t[0] == '"' then ReadBody(t[1..]) else None
  }

  /** A control character without a short escape is written `\u00` and two hex digits, which read back as it. */
  lemma ReadUnicodeEscape(c: char, t: string)
    requires c as int < 32 && EscapeChar(c) == "\\u00" + [HexDigit(c as int / 16), HexDigit(c as int % 16)]
    ensures ReadBody(EscapeChar(c) + t) == Prepend(c, ReadBody(t))
  {
    var n := c as int;
    var e := EscapeChar(c) + t;
    HexDigitValue(n / 16);
    HexDigitValue(n % 16);
    assert e[..6] == ['\\', 'u', '0', '0', HexDigit(n / 16), HexDigit(n % 16)];
    assert e[6..] == t;
  }

  /** An escaped character reads back as itself, and reading goes on right after it. */
  lemma ReadEscapedChar(c: char, t: string)
    ensures ReadBody(EscapeChar(c) + t) == Prepend(c, ReadBody(t))
  {
    var n := c as int;
    if c == '"' || c == '\\' || n == 8 || n == 9 || n == 10 || n == 12 || n == 13 {
      ReadShortEscape(c, t);
    } else if n < 32 {
      ReadUnicodeEscape(c, t);
    } else {
      var e := EscapeChar(c) + t;
      assert e[0] == c && e[1..] == t;
    }
  }

  /** A character with a one-letter escape is written `\` and that letter, which read back as it. */
  lemma ReadShortEscape(c: char, t: string)
    requires c == '"' || c == '\\' || c as int in {8, 9, 10, 12, 13}
    ensures ReadBody(EscapeChar(c) + t) == Prepend(c, ReadBody(t))
  {
    var e := EscapeChar(c) + t;
    assert |EscapeChar(c)| == 2 && e[0] == '\\' && e[1] != 'u';
    assert SimpleEscape(e[1]) == Some(c);
    assert e[2..] == t;
  }

  /** The escaped text of a string followed by a quote reads back as the string. */
  lemma {:induction false} ReadEscape(s: string, rest: string)
    ensures ReadBody(Escape(s) + "\"" + rest) == Some((s, rest))
    decreases |s|
  {
    if |s| == 0 {
      assert Escape(s) + "\"" + rest == "\"" + rest;
    } else {
      ReadEscape(s[1..], rest);
      assert Escape(s) + "\"" + rest == EscapeChar(s[0]) + (Escape(s[1..]) + "\"" + rest);
      ReadEscapedChar(s[0], Escape(s[1..]) + "\"" + rest);
      assert [s[0]] + s[1..] == s;
    }
  }

  /** A quoted string reads back as itself, whatever follows it. */
  lemma QuoteRoundTrip(s: string, rest: string)
    ensures ReadString(Quote(s) + rest) == Some((s, rest))
  {
    ReadEscape(s, rest);
    assert (Quote(s) + rest)[1..] == Escape(s) + "\"" + rest;
  }

  /** Different strings are quoted differently. */
  lemma QuoteInjective(s: string, t: string)
    requires Quote(s) == Quote(t)
    ensures s == t
  {
    QuoteRoundTrip(s, "");
    QuoteRoundTrip(t, "");
    assert Quote(s) + "" == Quote(s) && Quote(t) + "" == Quote(t);
  }

  /** A character JSON.stringify writes as itself: no quote, no backslash, no control character. */
  predicate Unescaped(c: char) {
    c as int >= 0x20 && c != '"' && c != '\\'
  }

  /** Text of such characters is written as it stands, between quotes. */
  lemma {:induction false} QuoteUnescaped(s: string)
    requires forall i :: 0 <= i < |s| ==> Unescaped(s[i])
    ensures Escape(s) == s && Quote(s) == "\"" + s + "\""
    decreases |s|
  {
    if |s| > 0 {
      QuoteUnescaped(s[1..]);
      assert [s[0]] + s[1..] == s;
    }
  }

  /** The quoted strings, in order. */
  function QuoteAll(ss: seq<string>): (r: seq<string>)
    ensures |r| == |ss|
  {
    seq(|ss|, i requires 0 <= i < |ss| => Quote(ss[i]))
  }

  /** JSON.stringify of an array of strings. */
  function StringifyArray(ss: seq<string>): string {
    "[" + Join(QuoteAll(ss), ',') + "]"
  }

  /** Put a value in front of a sequence that may be missing. */
  function ConsOpt<T>(x: T, r: Option<seq<T>>): Option<seq<T>> {
    match r
    case None => None
    case Some(xs) => Some([x] + xs)
  }

  /** Reads comma-separated string literals up to the closing bracket. */
  function ReadElements(t: string): Option<seq<string>>
    decreases |t|
  {
    match ReadString(t)
    case None => None
    case Some((s, rest)) =>
      if rest == "]" then Some([s])
      else if |rest| > 0 && rest[0] == ',' then ConsOpt(s, ReadElements(rest[1..]))
      else None
  }

  /** Reads a JSON array of strings written without whitespace. */
  function ReadArray(t: string): Option<seq<string>> {
    if t == "[]" then Some([])
    else if |t| > 0 && t[0] == '[' then ReadElements(t[1..])
    else None
  }

  /** Joined quoted strings followed by the closing bracket read back as the strings. */
  lemma {:induction false} ReadJoinedElements(ss: seq<string>)
    requires |ss| > 0
    ensures ReadElements(Join(QuoteAll(ss), ',') + "]") == Some(ss)
    decreases |ss|
  {
    var q := QuoteAll(ss);
    if |ss| == 1 {
      assert Join(q, ',') == Quote(ss[0]);
      QuoteRoundTrip(ss[0], "]");
      assert ss == [ss[0]];
    } else {
      var tail := Join(QuoteAll(ss[1..]), ',') + "]";
      assert q[1..] == QuoteAll(ss[1..]);
      assert Join(q, ',') + "]" == Quote(ss[0]) + ("," + tail);
      QuoteRoundTrip(ss[0], "," + tail);
      ReadJoinedElements(ss[1..]);
      assert ("," + tail)[1..] == tail;
      assert [ss[0]] + ss[1..] == ss;
    }
  }

  /** An array of strings reads back as itself: the text is valid JSON and keeps the order. */
  lemma ArrayRoundTrip(ss: seq<string>)
    ensures ReadArray(StringifyArray(ss)) == Some(ss)
  {
    if |ss| > 0 {
      var t, q := StringifyArray(ss), QuoteAll(ss);
      assert q[0] == Quote(ss[0]) && Quote(ss[0])[0] == '"';
      JoinStartsWithFirst(q, ',');
      ReadJoinedElements(ss);
      assert t[1..] == Join(q, ',') + "]" && t[1] == '"';
    }
  }

  /** `"key":"value"`, one member of an object. */
  function Member(m: (string, string)): string {
    Quote(m.0) + ":" + Quote(m.1)
  }

  /** The members, in order. */
  function MemberTexts(ms: seq<(string, string)>): (r: seq<string>)
    ensures |r| == |ms|
  {
    seq(|ms|, i requires 0 <= i < |ms| => Member(ms[i]))
  }

  /** JSON.stringify of an object whose properties, in order, have these names and string values. */
  function StringifyObject(ms: seq<(string, string)>): string {
    "{" + Join(MemberTexts(ms), ',') + "}"
  }

  /** Reads one `"key":"value"` member at the start of t: the pair and the text after it. */
  function ReadMember(t: string): (r: Option<((string, string), string)>)
    ensures r.Some? ==> |r.value.1| < |t|
  {
    match ReadString(t)
    case None => None
    case Some((k, rest)) =>
      if |rest| == 0 || rest[0] != ':' then None
      else
        match ReadString(rest[1..])
        case None => None
        case Some((v, after)) => Some(((k, v), after))
  }

  /** Reads comma-separated members up to the closing brace. */
  function ReadMembers(t: string): Option<seq<(string, string)>>
    decreases |t|
  {
    match ReadMember(t)
    case None => None
    case Some((m, after)) =>
      if after == "}" then Some([m])
      else if |after| > 0 && after[0] == ',' then ConsOpt(m, ReadMembers(after[1..]))
      else None
  }

  /** Reads a JSON object with string values written without whitespace. */
  function ReadObject(t: string): Option<seq<(string, string)>> {
    if t == "{}" then Some([])
    else if |t| > 0 && t[0] == '{' then ReadMembers(t[1..])
    else None
  }

  /** A written member reads back as its name and value, whatever follows it. */
  lemma ReadMemberOf(m: (string, string), after: string)
    ensures ReadMember(Member(m) + after) == Some((m, after))
  {
    var value := Quote(m.1) + after;
    var rest := [':'] + value;
    assert Member(m) + after == Quote(m.0) + rest;
    QuoteRoundTrip(m.0, rest);
    assert rest[0] == ':' && rest[1..] == value;
    QuoteRoundTrip(m.1, after);
  }

  /** After one written member, reading goes on with the text that follows it. */
  lemma ReadMembersStep(m: (string, string), after: string)
    ensures ReadMembers(Member(m) + after) ==
      if after == "}" then Some([m])
      else if |after| > 0 && after[0] == ',' then ConsOpt(m, ReadMembers(after[1..]))
      else None
  {
    ReadMemberOf(m, after);
  }

  /** Joined members followed by the closing brace read back as the members. */
  lemma {:induction false} ReadJoinedMembers(ms: seq<(string, string)>)
    requires |ms| > 0
    ensures ReadMembers(Join(MemberTexts(ms), ',') + "}") == Some(ms)
    decreases |ms|
  {
    if |ms| == 1 {
      ReadSingleMember(ms);
    } else {
      var inner := Join(MemberTexts(ms[1..]), ',') + "}";
      JoinedMembersCons(ms);
      ReadMembersComma(ms[0], inner);
      ReadJoinedMembers(ms[1..]);
      assert ReadMembers(Join(MemberTexts(ms), ',') + "}") == ConsOpt(ms[0], Some(ms[1..]));
      assert [ms[0]] + ms[1..] == ms;
    }
  }

  /** One member followed by the closing brace reads back as that member. */
  lemma ReadSingleMember(ms: seq<(string, string)>)
    requires |ms| == 1
    ensures ReadMembers(Join(MemberTexts(ms), ',') + "}") == Some(ms)
  {
    assert Join(MemberTexts(ms), ',') == Member(ms[0]);
    ReadMembersStep(ms[0], "}");
    assert ms == [ms[0]];
  }

  /** A member followed by a comma is read, and reading goes on after the comma. */
  lemma ReadMembersComma(m: (string, string), inner: string)
    ensures ReadMembers(Member(m) + ([','] + inner)) == ConsOpt(m, ReadMembers(inner))
  {
    var after := [','] + inner;
    ReadMembersStep(m, after);
    assert after[0] == ',' && after != "}" && after[1..] == inner;
  }

  /** The text of two or more members is the first member, a comma and the text of the rest. */
  lemma JoinedMembersCons(ms: seq<(string, string)>)
    requires |ms| >= 2
    ensures Join(MemberTexts(ms), ',') + "}" == Member(ms[0]) + ([','] + (Join(MemberTexts(ms[1..]), ',') + "}"))
  {
    var q := MemberTexts(ms);
    assert q[1..] == MemberTexts(ms[1..]);
  }

  /** An object reads back as its members: the text is valid JSON and keeps the order. */
  lemma ObjectRoundTrip(ms: seq<(string, string)>)
    ensures ReadObject(StringifyObject(ms)) == Some(ms)
  {
    if |ms| > 0 {
      var t, q := StringifyObject(ms), MemberTexts(ms);
      assert q[0] == Member(ms[0]) && Member(ms[0])[0] == '"';
      JoinStartsWithFirst(q, ',');
      ReadJoinedMembers(ms);
      assert t[1..] == Join(q, ',') + "}" && t[1] == '"';
    }
  }
}
