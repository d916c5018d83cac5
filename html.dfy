/** QString::toHtmlEscaped, the escaping the renderer's exception page relies on, and its inverse. */
module Html {

  /** The replacement text of one character: the four markup characters become entities. */
  function EscapeChar(c: char): string
  {
    if c == '<' then "&lt;"
    else if c == '>' then "&gt;"
    else if c == '&' then "&amp;"
    else if c == '"' then "&quot;"
    else [c]
  }

  function HtmlEscape(s: string): string
  {
    if s == [] then [] else EscapeChar(s[0]) + HtmlEscape(s[1..])
  }

  /** Decodes the four entities HtmlEscape produces; any other character stands for itself. */
  function HtmlUnescape(t: string): string
    decreases |t|
  {
    if t == [] then []
    else if |t| >= 4 && t[..4] == "&lt;" then "<" + HtmlUnescape(t[4..])
    else if |t| >= 4 && t[..4] == "&gt;" then ">" + HtmlUnescape(t[4..])
    else if |t| >= 5 && t[..5] == "&amp;" then "&" + HtmlUnescape(t[5..])
    else if |t| >= 6 && t[..6] == "&quot;" then "\"" + HtmlUnescape(t[6..])
    else [t[0]] + HtmlUnescape(t[1..])
  }

  lemma UnescapeEscapedChar(c: char, rest: string)
    ensures HtmlUnescape(EscapeChar(c) + rest) == [c] + HtmlUnescape(rest)
  {
    var t := EscapeChar(c) + rest;
    if c == '<' {
      assert t[..4] == "&lt;" && t[4..] == rest;
    } else if c == '>' {
      assert t[..4] == "&gt;" && t[4..] == rest;
    } else if c == '&' {
      assert t[..4][1] == 'a';
      assert t[..5] == "&amp;" && t[5..] == rest;
    } else if c == '"' {
      assert t[..4][1] == 'q' && t[..5][1] == 'q';
      assert t[..6] == "&quot;" && t[6..] == rest;
    } else {
      assert t[0] == c && t[1..] == rest;
      assert |t| >= 4 ==> t[..4][0] == c;
      assert |t| >= 5 ==> t[..5][0] == c;
      assert |t| >= 6 ==> t[..6][0] == c;
    }
  }

  /** Escaping loses nothing: unescaping gives the text back. */
  lemma {:induction false} UnescapeInvertsEscape(s: string)
    ensures HtmlUnescape(HtmlEscape(s)) == s
  {
    if s != [] {
      UnescapeInvertsEscape(s[1..]);
      UnescapeEscapedChar(s[0], HtmlEscape(s[1..]));
      assert [s[0]] + s[1..] == s;
    }
  }

  /** Escaping works character by character, so it distributes over concatenation. */
  lemma {:induction false} EscapeConcat(a: string, b: string)
    ensures HtmlEscape(a + b) == HtmlEscape(a) + HtmlEscape(b)
  {
    if a == [] {
      assert a + b == b;
    } else {
      assert (a + b)[0] == a[0] && (a + b)[1..] == a[1..] + b;
      EscapeConcat(a[1..], b);
    }
  }

  /** Escaped text holds no character that opens or closes a tag or an attribute value. */
  lemma {:induction false} EscapedHasNoMarkup(s: string)
    ensures '<' !in HtmlEscape(s) && '>' !in HtmlEscape(s) && '"' !in HtmlEscape(s)
  {
    if s != [] {
      EscapedHasNoMarkup(s[1..]);
      assert HtmlEscape(s) == EscapeChar(s[0]) + HtmlEscape(s[1..]);
    }
  }
}
