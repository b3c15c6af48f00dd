/** escapeHtml: the widget's escaping of event titles before they are put
    into markup. Each of & < > " ' is replaced by its entity, every other
    character is kept. */
module HtmlEscape {

  predicate IsSpecial(c: char) {
    c == '&' || c == '<' || c == '>' || c == '"' || c == '\''
  }

  /** The replacement for one character. */
  function EscapeChar(c: char): (r: string)
    ensures |r| >= 1 && (r[0] == '&' <==> IsSpecial(c))
    ensures !IsSpecial(c) ==> r == [c]
    ensures forall i :: 0 <= i < |r| ==> r[i] == '&' || !IsSpecial(r[i])
  {
    match c
    case '&' => "&amp;"
    case '<' => "&lt;"
    case '>' => "&gt;"
    case '"' => "&quot;"
    case '\'' => "&#39;"
    case _ => [c]
  }

  /** The global regular-expression replacement, one character at a time
      from left to right. The result holds none of < > " ', and every & in
      it is one the escaping put there. */
  function EscapeHtml(t: string): (r: string)
    ensures forall i :: 0 <= i < |r| ==> r[i] == '&' || !IsSpecial(r[i])
    ensures |r| >= |t|
  {
    if t == [] then [] else EscapeChar(t[0]) + EscapeHtml(t[1..])
  }

  /** Escaping works piece by piece: it distributes over concatenation. */
  lemma {:induction false} EscapeConcat(a: string, b: string)
    ensures EscapeHtml(a + b) == EscapeHtml(a) + EscapeHtml(b)
  {
    if a == [] {
      assert a + b == b;
    } else {
      assert (a + b)[0] == a[0] && (a + b)[1..] == a[1..] + b;
      EscapeConcat(a[1..], b);
    }
  }

  /** Text without special characters passes through unchanged. */
  lemma {:induction false} EscapePlain(t: string)
    requires forall i :: 0 <= i < |t| ==> !IsSpecial(t[i])
    ensures EscapeHtml(t) == t
  {
    if t != [] {
      EscapePlain(t[1..]);
    }
  }

  predicate StartsWith(s: string, prefix: string) {
    |prefix| <= |s| && s[..|prefix|] == prefix
  }

  /** The character spelled at the front of `s`, and how many characters
      spell it: one of the five entities, or else the first character as it
      is (an & that starts no such entity included). */
  function DecodeFront(s: string): (r: (char, nat))
    requires s != []
    ensures 1 <= r.1 <= |s|
  {
    if StartsWith(s, "&amp;") then ('&', 5)
    else if StartsWith(s, "&lt;") then ('<', 4)
    else if StartsWith(s, "&gt;") then ('>', 4)
    else if StartsWith(s, "&quot;") then ('"', 6)
    else if StartsWith(s, "&#39;") then ('\'', 5)
    else (s[0], 1)
  }

  /** Decoding of the five entities that escaping produces. */
  function Unescape(s: string): string
    decreases |s|
  {
    if s == [] then [] else [DecodeFront(s).0] + Unescape(s[DecodeFront(s).1..])
  }

  /** The front of an escaped character decodes to that character and
      takes up exactly its replacement. */
  lemma DecodeEscapedFront(c: char, rest: string)
    ensures DecodeFront(EscapeChar(c) + rest) == (c, |EscapeChar(c)|)
  {
    var s := EscapeChar(c) + rest;
    if c == '&' {
      assert s[..5] == "&amp;";
    } else if c == '<' {
      assert |s| >= 5 ==> s[..5][1] == 'l';
      assert s[..4] == "&lt;";
    } else if c == '>' {
      assert s[..4][1] == 'g' && (|s| >= 5 ==> s[..5][1] == 'g');
      assert s[..4] == "&gt;";
    } else if c == '"' {
      assert s[..5][1] == 'q' && s[..4][1] == 'q';
      assert s[..6] == "&quot;";
    } else if c == '\'' {
      assert s[..5][1] == '#' && s[..4][1] == '#' && (|s| >= 6 ==> s[..6][1] == '#');
      assert s[..5] == "&#39;";
    } else {
      assert s[0] == c;
    }
  }

  /** Decoding one escaped character in front of the rest gives back that
      character in front of the decoded rest. */
  lemma UnescapeChar(c: char, rest: string)
    ensures Unescape(EscapeChar(c) + rest) == [c] + Unescape(rest)
  {
    var s := EscapeChar(c) + rest;
    DecodeEscapedFront(c, rest);
    assert s[|EscapeChar(c)|..] == rest;
  }

  /** Decoding the entities recovers the original text exactly. */
  lemma {:induction false} UnescapeEscape(t: string)
    ensures Unescape(EscapeHtml(t)) == t
  {
    if t != [] {
      UnescapeChar(t[0], EscapeHtml(t[1..]));
      UnescapeEscape(t[1..]);
    }
  }
}
