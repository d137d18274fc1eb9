/**
 * The converter's HTML escaping: four chained one-character replacements,
 * `&` first, then `<`, `>` and `"`; and, for a value that is not a string,
 * Python truthiness first (a falsy value becomes the empty string).
 */
module Escape {
  import opened Strings
  import opened Cells

  /** Escaping a string. Because `&` is replaced first, every character is
      escaped on its own (no entity a later step produces is escaped again):
      the result holds no raw `<`, `>` or `"`, every `&` in it begins one of
      the four entities, each special character grows by a fixed amount, and
      decoding the entities gives the text back. */
  function EscapeHtml(s: string): (r: string)
    ensures r == EscapeRef(s)
    ensures forall i :: 0 <= i < |r| ==> r[i] != '<' && r[i] != '>' && r[i] != '"'
    ensures forall i :: 0 <= i < |r| && r[i] == '&' ==> EntityAt(r, i)
    ensures |r| == |s| + 4 * Count(s, '&') + 3 * Count(s, '<') + 3 * Count(s, '>') + 5 * Count(s, '"')
    ensures Unescape(r) == s
  {
    ChainIsPerChar(s);
    RefNoRawMarkup(s);
    RefAmpersandsBeginEntities(s);
    RefLength(s);
    RefRoundTrip(s);
    ReplaceChain(s)
  }

  /** The four chained one-character replacements, in their fixed order. */
  function ReplaceChain(s: string): string
  {
    Replace(Replace(Replace(Replace(s, '&', "&amp;"), '<', "&lt;"), '>', "&gt;"), '"', "&quot;")
  }

  /** Escaping any value: a string as it is; another falsy value becomes
      `""`; any other value is turned into its `str()` text first. The result
      is escaped text that decodes to what the value shows. */
  function EscapeValue(v: Cell): (r: string)
    ensures r == "" <==> Falsy(v)
    ensures Unescape(r) == if Falsy(v) then "" else PyStr(v)
    ensures forall i :: 0 <= i < |r| ==> r[i] != '<' && r[i] != '>' && r[i] != '"'
    ensures forall i :: 0 <= i < |r| && r[i] == '&' ==> EntityAt(r, i)
  {
    var text := if v.Text? then v.s else if Falsy(v) then "" else PyStr(v);
    EscapeHtml(text)
  }

  // ----- a character-by-character reference -----

  /** The entity (or the character itself) that each character becomes. */
  function EscapeChar(c: char): string
  {
    if c == '&' then "&amp;"
    else if c == '<' then "&lt;"
    else if c == '>' then "&gt;"
    else if c == '"' then "&quot;"
    else [c]
  }

  function EscapeRef(s: string): string
  {
    if s == [] then "" else EscapeChar(s[0]) + EscapeRef(s[1..])
  }

  predicate Special(c: char)
  {
    c == '&' || c == '<' || c == '>' || c == '"'
  }

  function Count(s: string, c: char): nat
  {
    if s == [] then 0 else (if s[0] == c then 1 else 0) + Count(s[1..], c)
  }

  lemma ReplaceOne(c: char, d: char, sub: string)
    ensures Replace([c], d, sub) == if c == d then sub else [c]
  {
    assert [c][1..] == [];
  }

  /** The last three replacements leave text free of `<`, `>` and `"` alone. */
  lemma ReplaceRestAbsent(t: string)
    requires '<' !in t && '>' !in t && '"' !in t
    ensures Replace(Replace(Replace(t, '<', "&lt;"), '>', "&gt;"), '"', "&quot;") == t
  {
    ReplaceAbsent(t, '<', "&lt;");
    ReplaceAbsent(t, '>', "&gt;");
    ReplaceAbsent(t, '"', "&quot;");
  }

  lemma ChainAmpersand()
    ensures ReplaceChain("&") == "&amp;"
  {
    ReplaceOne('&', '&', "&amp;");
    ReplaceRestAbsent("&amp;");
  }

  lemma ChainLess()
    ensures ReplaceChain("<") == "&lt;"
  {
    ReplaceOne('<', '&', "&amp;");
    ReplaceOne('<', '<', "&lt;");
    var t := "&lt;";
    ReplaceAbsent(t, '>', "&gt;");
    ReplaceAbsent(t, '"', "&quot;");
  }

  lemma ChainGreater()
    ensures ReplaceChain(">") == "&gt;"
  {
    ReplaceOne('>', '&', "&amp;");
    ReplaceOne('>', '<', "&lt;");
    ReplaceOne('>', '>', "&gt;");
    ReplaceAbsent("&gt;", '"', "&quot;");
  }

  lemma ChainQuote()
    ensures ReplaceChain("\"") == "&quot;"
  {
    ReplaceOne('"', '&', "&amp;");
    ReplaceOne('"', '<', "&lt;");
    ReplaceOne('"', '>', "&gt;");
    ReplaceOne('"', '"', "&quot;");
  }

  lemma ChainPlainChar(c: char)
    requires !Special(c)
    ensures ReplaceChain([c]) == [c]
  {
    ReplaceOne(c, '&', "&amp;");
    ReplaceOne(c, '<', "&lt;");
    ReplaceOne(c, '>', "&gt;");
    ReplaceOne(c, '"', "&quot;");
  }

  lemma ChainChar(c: char)
    ensures ReplaceChain([c]) == EscapeChar(c)
  {
    if c == '&' {
      ChainAmpersand();
    } else if c == '<' {
      ChainLess();
    } else if c == '>' {
      ChainGreater();
    } else if c == '"' {
      ChainQuote();
    } else {
      ChainPlainChar(c);
    }
  }

  lemma ChainAppend(a: string, b: string)
    ensures ReplaceChain(a + b) == ReplaceChain(a) + ReplaceChain(b)
  {
    ReplaceAppend(a, b, '&', "&amp;");
    var a1, b1 := Replace(a, '&', "&amp;"), Replace(b, '&', "&amp;");
    ReplaceAppend(a1, b1, '<', "&lt;");
    var a2, b2 := Replace(a1, '<', "&lt;"), Replace(b1, '<', "&lt;");
    ReplaceAppend(a2, b2, '>', "&gt;");
    var a3, b3 := Replace(a2, '>', "&gt;"), Replace(b2, '>', "&gt;");
    ReplaceAppend(a3, b3, '"', "&quot;");
  }

  /** Because `&` is replaced first, the chain escapes every character
      independently. */
  lemma {:induction false} ChainIsPerChar(s: string)
    ensures ReplaceChain(s) == EscapeRef(s)
  {
    if s != [] {
      assert s == [s[0]] + s[1..];
      ChainAppend([s[0]], s[1..]);
      ChainChar(s[0]);
      ChainIsPerChar(s[1..]);
    } else {
      assert ReplaceChain(s) == "";
    }
  }

  /** With `&` replaced last instead, an escaped `<` would be escaped twice. */
  lemma AmpersandOrderMatters()
    ensures EscapeHtml("<") == "&lt;"
    ensures Replace(Replace("<", '<', "&lt;"), '&', "&amp;") == "&amp;lt;"
  {
    ChainLess();
    AmpersandLast();
  }

  lemma AmpersandLast()
    ensures Replace(Replace("<", '<', "&lt;"), '&', "&amp;") == "&amp;lt;"
  {
    ReplaceOne('<', '<', "&lt;");
    var t := "&lt;";
    assert t[1..] == "lt;" && t[2..] == "t;" && t[3..] == ";" && t[4..] == "";
  }

  // ----- properties of the escaped text -----

  lemma {:induction false} RefNoRawMarkup(s: string)
    ensures forall i :: 0 <= i < |EscapeRef(s)| ==>
      EscapeRef(s)[i] != '<' && EscapeRef(s)[i] != '>' && EscapeRef(s)[i] != '"'
  {
    if s != [] {
      RefNoRawMarkup(s[1..]);
      var e := EscapeChar(s[0]);
      assert forall i :: 0 <= i < |e| ==> e[i] != '<' && e[i] != '>' && e[i] != '"';
    }
  }

  /** `t[i..]` starts with one of the four entities. */
  predicate EntityAt(t: string, i: nat)
    requires i <= |t|
  {
    "&amp;" <= t[i..] || "&lt;" <= t[i..] || "&gt;" <= t[i..] || "&quot;" <= t[i..]
  }

  lemma {:induction false} RefAmpersandsBeginEntities(s: string)
    ensures forall i :: 0 <= i < |EscapeRef(s)| && EscapeRef(s)[i] == '&' ==> EntityAt(EscapeRef(s), i)
  {
    if s != [] {
      var e, rest := EscapeChar(s[0]), EscapeRef(s[1..]);
      var t := e + rest;
      RefAmpersandsBeginEntities(s[1..]);
      forall i | 0 <= i < |t| && t[i] == '&'
        ensures EntityAt(t, i)
      {
        if i < |e| {
          assert i == 0 && Special(s[0]);
          assert e <= t;
        } else {
          assert t[i..] == rest[i - |e|..];
        }
      }
    }
  }

  /** Text without special characters is left as it is. */
  lemma {:induction false} EscapePlainUnchanged(s: string)
    requires forall i :: 0 <= i < |s| ==> !Special(s[i])
    ensures EscapeHtml(s) == s
  {
    ReplaceAbsent(s, '&', "&amp;");
    ReplaceAbsent(s, '<', "&lt;");
    ReplaceAbsent(s, '>', "&gt;");
    ReplaceAbsent(s, '"', "&quot;");
  }

  lemma {:induction false} RefLength(s: string)
    ensures |EscapeRef(s)| == |s| + 4 * Count(s, '&') + 3 * Count(s, '<') + 3 * Count(s, '>') + 5 * Count(s, '"')
  {
    if s != [] {
      RefLength(s[1..]);
    }
  }

  // ----- the inverse -----

  /** Decodes the four entities, leaving every other character alone. */
  function Unescape(t: string): string
  {
    if t == [] then ""
    else if "&amp;" <= t then "&" + Unescape(t[5..])
    else if "&lt;" <= t then "<" + Unescape(t[4..])
    else if "&gt;" <= t then ">" + Unescape(t[4..])
    else if "&quot;" <= t then "\"" + Unescape(t[6..])
    else [t[0]] + Unescape(t[1..])
  }

  lemma {:induction false} RefRoundTrip(s: string)
    ensures Unescape(EscapeRef(s)) == s
  {
    if s != [] {
      RefRoundTrip(s[1..]);
      UnescapeEntity(s[0], EscapeRef(s[1..]));
      assert s == [s[0]] + s[1..];
    }
  }

  /** Decoding undoes the escape of one character in front of any text. */
  lemma UnescapeEntity(c: char, rest: string)
    ensures Unescape(EscapeChar(c) + rest) == [c] + Unescape(rest)
  {
    var e := EscapeChar(c);
    var t := e + rest;
    assert t[|e|..] == rest;
    if c == '&' {
      assert "&amp;" <= t;
    } else if c == '<' {
      assert t[1] == 'l';
      assert "&lt;" <= t;
    } else if c == '>' {
      assert t[1] == 'g';
      assert "&gt;" <= t;
    } else if c == '"' {
      assert t[1] == 'q';
      assert "&quot;" <= t;
    } else {
      assert t[0] == c;
    }
  }
}
