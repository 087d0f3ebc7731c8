/** The body that `json.dump({"content": content}, f, ensure_ascii=False, indent=4)` writes (rufus.py),
    and a reader for exactly that layout, so that the body can be shown to hold the content. */
module JsonText {
  import opened Wrappers
  import opened Strings

  /** The value of a hexadecimal digit, either case. */
  function HexValue(ch: char): (r: Option<nat>)
    ensures r.Some? ==> r.value < 16
  {
    if '0' <= ch <= '9' then Some(ch as int - '0' as int)
    else if 'a' <= ch <= 'f' then Some(ch as int - 'a' as int + 10)
    else if 'A' <= ch <= 'F' then Some(ch as int - 'A' as int + 10)
    else None
  }

  /** The lower-case hexadecimal digit the encoder writes for `d`. */
  function HexDigit(d: nat): (ch: char)
    requires d < 16
    ensures HexValue(ch) == Some(d)
  {
    if d < 10 then ('0' as int + d) as char else ('a' as int + d - 10) as char
  }

  /** The encoder's rendering of one character: backslash, quote and the C0 controls are escaped
      (`\b \f \n \r \t` by name, the rest as `\u00xx`); every other character, non-ASCII included,
      is written as itself. */
  function EscapeChar(ch: char): (r: string)
    ensures r != [] && forall k :: 0 <= k < |r| ==> r[k] >= ' '
    ensures r[0] == '\\' || (r == [ch] && ch != '"')
    ensures r == [ch] <==> ch >= ' ' && ch != '"' && ch != '\\'
  {
    if ch == '\\' then "\\\\"
    else if ch == '"' then "\\\""
    else if ch == '\U{8}' then "\\b"
    else if ch == '\U{C}' then "\\f"
    else if ch == '\n' then "\\n"
    else if ch == '\r' then "\\r"
    else if ch == '\t' then "\\t"
    else if ch < ' ' then ['\\', 'u', '0', '0', HexDigit(ch as int / 16), HexDigit(ch as int % 16)]
    else [ch]
  }

  /** The encoder's rendering of a string, without the surrounding quotes. */
  function Escape(s: string): (r: string)
    ensures |r| >= |s|
  {
    if s == [] then [] else EscapeChar(s[0]) + Escape(s[1..])
  }

  /** No raw control character survives the encoding. */
  lemma {:induction false} EscapedTextHasNoControlChars(s: string)
    ensures forall k :: 0 <= k < |Escape(s)| ==> Escape(s)[k] >= ' '
  {
    if s != [] {
      EscapedTextHasNoControlChars(s[1..]);
      var head, tail := EscapeChar(s[0]), Escape(s[1..]);
      assert Escape(s) == head + tail;
      forall k | 0 <= k < |head + tail| ensures (head + tail)[k] >= ' ' {
        if k >= |head| { assert (head + tail)[k] == tail[k - |head|]; }
      }
    }
  }

  /** The text before the encoded content. */
  const Header: string := "{\n    \"content\": \""

  /** The text after the encoded content (the closing quote, then the closing brace on its own line). */
  const Trailer: string := "\"\n}"

  /** The whole body written for `content`. */
  function ContentObject(content: string): (body: string)
    ensures StartsWith(body, Header) && EndsWith(body, Trailer)
  {
    Header + Escape(content) + Trailer
  }

  // ---------------------------------------------------------------------------
  // Reading the body back.

  /** The character an escape sequence stands for, and how many characters after the backslash it takes. */
  function Unescape(e: string): (r: Option<(char, nat)>)
    ensures r.Some? ==> 1 <= r.value.1 <= |e|
  {
    if e == [] then None
    else if e[0] == '"' || e[0] == '\\' || e[0] == '/' then Some((e[0], 1))
    else if e[0] == 'b' then Some(('\U{8}', 1))
    else if e[0] == 'f' then Some(('\U{C}', 1))
    else if e[0] == 'n' then Some(('\n', 1))
    else if e[0] == 'r' then Some(('\r', 1))
    else if e[0] == 't' then Some(('\t', 1))
    else if e[0] == 'u' && |e| >= 5 then
      match (HexValue(e[1]), HexValue(e[2]), HexValue(e[3]), HexValue(e[4]))
      case (Some(a), Some(b), Some(c), Some(d)) =>
        var v := ((a * 16 + b) * 16 + c) * 16 + d;
        if 0xD800 <= v < 0xE000 then None else Some((v as char, 5))
      case _ => None
    else None
  }

  /** Reads the inside of a JSON string up to its closing quote: the text it stands for and what
      follows the quote; `None` when the string is not closed or holds a raw control character
      or a bad escape. */
  function ReadString(s: string): (r: Option<(string, string)>)
    ensures r.Some? ==> |r.value.1| < |s|
    decreases |s|
  {
    if s == [] then None
    else if s[0] == '"' then Some(([], s[1..]))
    else if s[0] < ' ' then None
    else if s[0] != '\\' then
      match ReadString(s[1..])
      case None => None
      case Some((t, rest)) => Some(([s[0]] + t, rest))
    else
      match Unescape(s[1..])
      case None => None
      case Some((ch, n)) =>
        match ReadString(s[1 + n..])
        case None => None
        case Some((t, rest)) => Some(([ch] + t, rest))
  }

  /** Reads a body of the layout `ContentObject` writes; `None` for any other text. */
  function ReadContentObject(body: string): Option<string>
  {
    if !StartsWith(body, Header) then None
    else
      match ReadString(body[|Header|..])
      case Some((content, rest)) => if rest == Trailer[1..] then Some(content) else None
      case None => None
  }

  /** Prepends `ch` to the text a successful read yields. */
  function Prepend(ch: char, r: Option<(string, string)>): Option<(string, string)>
  {
    match r
    case None => None
    case Some((t, rest)) => Some(([ch] + t, rest))
  }

  /** A control character without a short escape reads back from its `\u00xx` escape. */
  lemma ReadHexEscape(ch: char, rest: string)
    requires ch < ' ' && ch != '\U{8}' && ch != '\U{C}' && ch != '\n' && ch != '\r' && ch != '\t'
    ensures ReadString(EscapeChar(ch) + rest) == Prepend(ch, ReadString(rest))
  {
    var s := EscapeChar(ch) + rest;
    var hi, lo := ch as int / 16, ch as int % 16;
    var e := s[1..];
    assert e == ['u', '0', '0', HexDigit(hi), HexDigit(lo)] + rest;
    assert HexValue(e[1]) == Some(0) && HexValue(e[2]) == Some(0);
    assert HexValue(e[3]) == Some(hi) && HexValue(e[4]) == Some(lo);
    assert ((0 * 16 + 0) * 16 + hi) * 16 + lo == ch as int;
    assert Unescape(e) == Some((ch, 5));
    assert s[6..] == rest;
  }

  /** A character with a two-character escape reads back from it. */
  lemma ReadShortEscape(ch: char, rest: string)
    requires ch == '\\' || ch == '"' || ch == '\U{8}' || ch == '\U{C}' || ch == '\n' || ch == '\r' || ch == '\t'
    ensures ReadString(EscapeChar(ch) + rest) == Prepend(ch, ReadString(rest))
  {
    var s := EscapeChar(ch) + rest;
    assert |EscapeChar(ch)| == 2 && s[0] == '\\';
    assert Unescape(s[1..]) == Some((ch, 1));
    assert s[2..] == rest;
  }

  /** Reading an encoded character gives the character back, whatever follows it. */
  lemma ReadEscapedChar(ch: char, rest: string)
    ensures ReadString(EscapeChar(ch) + rest) == Prepend(ch, ReadString(rest))
  {
    if ch == '\\' || ch == '"' || ch == '\U{8}' || ch == '\U{C}' || ch == '\n' || ch == '\r' || ch == '\t' {
      ReadShortEscape(ch, rest);
    } else if ch < ' ' {
      ReadHexEscape(ch, rest);
    } else {
      var s := EscapeChar(ch) + rest;
      assert s[0] == ch && s[1..] == rest;
    }
  }

  /** The encoder and the reader are inverse: an encoded string followed by the closing quote reads
      back as the string, and the reading stops right after that quote. */
  lemma {:induction false} ReadEscaped(s: string, closed: string)
    requires closed != [] && closed[0] == '"'
    ensures ReadString(Escape(s) + closed) == Some((s, closed[1..]))
  {
    if s == [] {
      assert Escape(s) + closed == closed;
    } else {
      var tail := Escape(s[1..]) + closed;
      ReadEscaped(s[1..], closed);
      assert Escape(s) + closed == EscapeChar(s[0]) + tail;
      ReadEscapedChar(s[0], tail);
      assert [s[0]] + s[1..] == s;
    }
  }

  /** The body written for a `.json` file holds exactly the content. */
  lemma ContentObjectReadsBack(content: string)
    ensures ReadContentObject(ContentObject(content)) == Some(content)
  {
    var body := ContentObject(content);
    assert body[|Header|..] == Escape(content) + Trailer;
    ReadEscaped(content, Trailer);
  }
}
