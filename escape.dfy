/** `escapeHtml(s)` of src/script.js: the text of the printable report is made safe for
    HTML by replacing every `&`, then every `<`, then every `>` with its character
    entity. */
module Escape {

  /** `s.replace(/x/g, rep)`: every occurrence of the character `x` replaced by `rep`. */
  function ReplaceAll(s: string, x: char, rep: string): (r: string)
    ensures x !in rep ==> x !in r
    ensures forall c :: c != x && c !in rep ==> (c in r <==> c in s)
  {
    if s == [] then []
    else (if s[0] == x then rep else [s[0]]) + ReplaceAll(s[1..], x, rep)
  }

  /** `escapeHtml(s)`: `&` first, so that the `&` of the other two entities is not
      escaped again. */
  function EscapeHtml(s: string): (r: string)
    ensures '<' !in r && '>' !in r
  {
    ReplaceAll(ReplaceAll(ReplaceAll(s, '&', "&amp;"), '<', "&lt;"), '>', "&gt;")
  }

  /** The escape of one character. */
  function EscapeChar(c: char): string {
    if c == '&' then "&amp;"
    else if c == '<' then "&lt;"
    else if c == '>' then "&gt;"
    else [c]
  }

  /** Escaping character by character: the reference the sequential replacement is
      proved equal to. */
  function EscapeEach(s: string): string {
    if s == [] then [] else EscapeChar(s[0]) + EscapeEach(s[1..])
  }

  /** Reading the three entities back as the characters they stand for. */
  function Unescape(s: string): string
    decreases |s|
  {
    if |s| >= 5 && s[..5] == "&amp;" then "&" + Unescape(s[5..])
    else if |s| >= 4 && s[..4] == "&lt;" then "<" + Unescape(s[4..])
    else if |s| >= 4 && s[..4] == "&gt;" then ">" + Unescape(s[4..])
    else if s == [] then []
    else [s[0]] + Unescape(s[1..])
  }

  /** The text at `i` in `s` is one of the three entities. */
  predicate EntityAt(s: string, i: nat)
    requires i <= |s|
  {
    var t := s[i..];
    (|t| >= 5 && t[..5] == "&amp;") || (|t| >= 4 && (t[..4] == "&lt;" || t[..4] == "&gt;"))
  }

  /** Every `&` in `s` begins an entity: nothing in `s` looks like an escape that was
      not made by escaping. */
  predicate AmpersandsAreEntities(s: string) {
    forall i :: 0 <= i < |s| && s[i] == '&' ==> EntityAt(s, i)
  }

  // ---------------------------------------------------------------------------
  // Lemmas

  lemma {:induction false} ReplaceAllAppend(a: string, b: string, x: char, rep: string)
    ensures ReplaceAll(a + b, x, rep) == ReplaceAll(a, x, rep) + ReplaceAll(b, x, rep)
  {
    if a == [] {
      assert a + b == b;
    } else {
      assert (a + b)[1..] == a[1..] + b;
      ReplaceAllAppend(a[1..], b, x, rep);
    }
  }

  /** Replacing a character that does not occur changes nothing. */
  lemma {:induction false} ReplaceAbsent(s: string, x: char, rep: string)
    requires x !in s
    ensures ReplaceAll(s, x, rep) == s
  {
    if s != [] {
      ReplaceAbsent(s[1..], x, rep);
    }
  }

  /** Replacing in a one-character string. */
  lemma ReplaceChar(c: char, x: char, rep: string)
    ensures ReplaceAll([c], x, rep) == if c == x then rep else [c]
  {
    assert [c][1..] == [];
  }

  /** The three sequential replacements escape each character on its own. */
  lemma {:induction false} EscapeHtmlEach(s: string)
    ensures EscapeHtml(s) == EscapeEach(s)
  {
    if s != [] {
      var c, rest := s[0], s[1..];
      var r1 := ReplaceAll(rest, '&', "&amp;");
      var r2 := ReplaceAll(r1, '<', "&lt;");
      var h1 := if c == '&' then "&amp;" else [c];
      ReplaceAllAppend(h1, r1, '<', "&lt;");
      var h2 := ReplaceAll(h1, '<', "&lt;");
      ReplaceAllAppend(h2, r2, '>', "&gt;");
      assert ReplaceAll(ReplaceAll(h1, '<', "&lt;"), '>', "&gt;") == EscapeChar(c) by {
        if c == '&' {
          ReplaceAbsent(h1, '<', "&lt;");
          ReplaceAbsent(h1, '>', "&gt;");
        } else {
          ReplaceChar(c, '<', "&lt;");
          if c == '<' {
            ReplaceAbsent("&lt;", '>', "&gt;");
          } else {
            ReplaceChar(c, '>', "&gt;");
          }
        }
      }
      EscapeHtmlEach(rest);
    }
  }

  /** Escaping is undone by reading the entities back. */
  lemma {:induction false} UnescapeEscapeEach(s: string)
    ensures Unescape(EscapeEach(s)) == s
  {
    if s != [] {
      var e := EscapeChar(s[0]);
      var rest := EscapeEach(s[1..]);
      var t := e + rest;
      assert t[..|e|] == e && t[|e|..] == rest;
      if s[0] == '&' {
        assert t[..5] == "&amp;";
      } else if s[0] == '<' {
        assert t[1] == 'l' && t[..4] == "&lt;";
      } else if s[0] == '>' {
        assert t[1] == 'g' && t[..4] == "&gt;";
      } else {
        assert t[0] == s[0] && t[1..] == rest;
        assert |t| >= 4 ==> t[..4][0] == s[0];
        assert |t| >= 5 ==> t[..5][0] == s[0];
      }
      UnescapeEscapeEach(s[1..]);
    }
  }

  /** The output of escaping character by character has no `<` and no `>`, and each of
      its `&` begins an entity. */
  lemma {:induction false} EscapeEachWellFormed(s: string)
    ensures '<' !in EscapeEach(s) && '>' !in EscapeEach(s)
    ensures AmpersandsAreEntities(EscapeEach(s))
  {
    if s != [] {
      var e := EscapeChar(s[0]);
      var rest := EscapeEach(s[1..]);
      var r := e + rest;
      EscapeEachWellFormed(s[1..]);
      forall i | 0 <= i < |r| && r[i] == '&' ensures EntityAt(r, i) {
        if i < |e| {
          assert i == 0 && r[i..][..|e|] == e;
        } else {
          assert r[i..] == rest[i - |e|..];
          assert EntityAt(rest, i - |e|);
        }
      }
    }
  }

  /** `escapeHtml` is undone by reading the entities back. */
  lemma UnescapeEscapeHtml(s: string)
    ensures Unescape(EscapeHtml(s)) == s
  {
    EscapeHtmlEach(s);
    UnescapeEscapeEach(s);
  }

  /** The output of `escapeHtml` has no `<` and no `>`, and each of its `&` begins
      `&amp;`, `&lt;` or `&gt;`. */
  lemma EscapeHtmlWellFormed(s: string)
    ensures '<' !in EscapeHtml(s) && '>' !in EscapeHtml(s)
    ensures AmpersandsAreEntities(EscapeHtml(s))
  {
    EscapeHtmlEach(s);
    EscapeEachWellFormed(s);
  }

  /** Every character other than `&`, `<` and `>` (quotes included) is kept as it is:
      escaping works character by character, and such a character escapes to itself. */
  lemma {:induction false} EscapeHtmlKeepsOthers(a: string, c: char, b: string)
    requires c !in "&<>"
    ensures EscapeHtml(a + [c] + b) == EscapeHtml(a) + [c] + EscapeHtml(b)
  {
    EscapeHtmlEach(a + [c] + b);
    EscapeHtmlEach(a);
    EscapeHtmlEach(b);
    EscapeEachAppend(a + [c], b);
    EscapeEachAppend(a, [c]);
    assert EscapeEach([c]) == [c] by {
      assert [c][1..] == [];
    }
  }

  lemma {:induction false} EscapeEachAppend(a: string, b: string)
    ensures EscapeEach(a + b) == EscapeEach(a) + EscapeEach(b)
  {
    if a == [] {
      assert a + b == b;
    } else {
      assert (a + b)[1..] == a[1..] + b;
      EscapeEachAppend(a[1..], b);
    }
  }

  /** Replacing `<` before `&` would escape the `&` of `&lt;` a second time; the order
      of the three replacements is what makes the round trip hold. */
  lemma WrongOrderDoubleEscapes()
    ensures ReplaceAll(ReplaceAll("<", '<', "&lt;"), '&', "&amp;") == "&amp;lt;"
    ensures EscapeHtml("<") == "&lt;"
  {
    assert ReplaceAll("<", '<', "&lt;") == "&lt;";
    ReplaceAllAppend("&", "lt;", '&', "&amp;");
    assert "&" + "lt;" == "&lt;";
  }
}
