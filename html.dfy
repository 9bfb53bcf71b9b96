/**
 * HTML escaping: escapeHtml (app.js:8-10), used for option texts, and the
 * two-pass replacement applied to the report cells of the printable page
 * (app.js:291-293).  A decoder of the five entities inverts both.
 */
module Html {
  import opened Text

  function EscapeChar(c: char): string
  {
    if c == '&' then "&amp;"
    else if c == '<' then "&lt;"
    else if c == '>' then "&gt;"
    else if c == '"' then "&quot;"
    else if c == '\'' then "&#39;"
    else [c]
  }

  predicate Special(c: char)
  {
    c == '<' || c == '>' || c == '"' || c == '\''
  }

  /** escapeHtml: each of & < > " ' becomes its entity; no markup character survives. */
  function EscapeHtml(s: string): (r: string)
    ensures forall k :: 0 <= k < |r| ==> !Special(r[k])
  {
    if s == [] then [] else EscapeChar(s[0]) + EscapeHtml(s[1..])
  }

  /** `s` begins with one of the five entities escapeHtml writes. */
  predicate StartsEntity(s: string)
  {
    "&amp;" <= s || "&lt;" <= s || "&gt;" <= s || "&quot;" <= s || "&#39;" <= s
  }

  /** Every `&` escapeHtml writes begins an entity: no raw `&` survives. */
  lemma {:induction false} EscapeHtmlAmpersands(s: string)
    ensures forall k :: 0 <= k < |EscapeHtml(s)| && EscapeHtml(s)[k] == '&' ==> StartsEntity(EscapeHtml(s)[k..])
  {
    if s != [] {
      EscapeHtmlAmpersands(s[1..]);
      var e := EscapeChar(s[0]);
      var t := EscapeHtml(s[1..]);
      var r := EscapeHtml(s);
      assert r == e + t;
      forall k | 0 <= k < |r| && r[k] == '&' ensures StartsEntity(r[k..]) {
        if k < |e| {
          assert k == 0 && s[0] in "&<>\"'";
          assert r[k..] == e + t;
          assert (e + t)[..|e|] == e;
        } else {
          assert r[k..] == t[k - |e|..];
        }
      }
    }
  }

  /** `s.replace(/<c>/g, rep)` for a single character `c`. */
  function ReplaceAll(s: string, c: char, rep: string): (r: string)
  {
    if s == [] then []
    else (if s[0] == c then rep else [s[0]]) + ReplaceAll(s[1..], c, rep)
  }

  /** A report cell of the printable page: `&` replaced first, then `<`. */
  function PdfCell(s: string): string
  {
    ReplaceAll(ReplaceAll(s, '&', "&amp;"), '<', "&lt;")
  }

  /** Decodes the five entities escapeHtml writes; anything else is kept. */
  function UnescapeHtml(s: string): string
    decreases |s|
  {
    if s == [] then []
    else if s[0] != '&' then [s[0]] + UnescapeHtml(s[1..])
    else if |s| >= 5 && s[..5] == "&amp;" then "&" + UnescapeHtml(s[5..])
    else if |s| >= 4 && s[..4] == "&lt;" then "<" + UnescapeHtml(s[4..])
    else if |s| >= 4 && s[..4] == "&gt;" then ">" + UnescapeHtml(s[4..])
    else if |s| >= 6 && s[..6] == "&quot;" then "\"" + UnescapeHtml(s[6..])
    else if |s| >= 5 && s[..5] == "&#39;" then "'" + UnescapeHtml(s[5..])
    else "&" + UnescapeHtml(s[1..])
  }

  lemma UnescapeAmp(rest: string)
    ensures UnescapeHtml("&amp;" + rest) == "&" + UnescapeHtml(rest)
  {
    var x := "&amp;" + rest;
    assert x[..5] == "&amp;" && x[5..] == rest;
  }

  lemma UnescapeLt(rest: string)
    ensures UnescapeHtml("&lt;" + rest) == "<" + UnescapeHtml(rest)
  {
    var x := "&lt;" + rest;
    assert x[1] == 'l';
    assert x[..4] == "&lt;" && x[4..] == rest;
  }

  lemma UnescapeGt(rest: string)
    ensures UnescapeHtml("&gt;" + rest) == ">" + UnescapeHtml(rest)
  {
    var x := "&gt;" + rest;
    assert x[1] == 'g';
    assert x[..4] == "&gt;" && x[4..] == rest;
  }

  lemma UnescapeQuot(rest: string)
    ensures UnescapeHtml("&quot;" + rest) == "\"" + UnescapeHtml(rest)
  {
    var x := "&quot;" + rest;
    assert x[1] == 'q';
    assert x[..6] == "&quot;" && x[6..] == rest;
  }

  lemma UnescapeApos(rest: string)
    ensures UnescapeHtml("&#39;" + rest) == "'" + UnescapeHtml(rest)
  {
    var x := "&#39;" + rest;
    assert x[1] == '#';
    assert x[..5] == "&#39;" && x[5..] == rest;
  }

  lemma UnescapePlain(c: char, rest: string)
    requires c != '&'
    ensures UnescapeHtml([c] + rest) == [c] + UnescapeHtml(rest)
  {
    var x := [c] + rest;
    assert x[0] == c && x[1..] == rest;
  }

  lemma UnescapeChar(c: char, rest: string)
    ensures UnescapeHtml(EscapeChar(c) + rest) == [c] + UnescapeHtml(rest)
  {
    if c == '&' { UnescapeAmp(rest); }
    else if c == '<' { UnescapeLt(rest); }
    else if c == '>' { UnescapeGt(rest); }
    else if c == '"' { UnescapeQuot(rest); }
    else if c == '\'' { UnescapeApos(rest); }
    else { UnescapePlain(c, rest); }
  }

  /** Decoding escapeHtml's output gives back the original text. */
  lemma {:induction false} UnescapeEscapeHtml(s: string)
    ensures UnescapeHtml(EscapeHtml(s)) == s
  {
    if s != [] {
      UnescapeEscapeHtml(s[1..]);
      UnescapeChar(s[0], EscapeHtml(s[1..]));
      assert [s[0]] + s[1..] == s;
    }
  }

  /** ReplaceAll on a string with a known first character. */
  lemma ReplaceAllCons(ch: char, t: string, c: char, rep: string)
    ensures ReplaceAll([ch] + t, c, rep) == (if ch == c then rep else [ch]) + ReplaceAll(t, c, rep)
  {
    var s := [ch] + t;
    assert s[0] == ch && s[1..] == t;
  }

  lemma {:induction false} ReplaceAllAppend(a: string, b: string, c: char, rep: string)
    ensures ReplaceAll(a + b, c, rep) == ReplaceAll(a, c, rep) + ReplaceAll(b, c, rep)
  {
    if a == [] {
      assert a + b == b;
    } else {
      var t := a[1..];
      assert a == [a[0]] + t;
      assert a + b == [a[0]] + (t + b);
      ReplaceAllAppend(t, b, c, rep);
      ReplaceAllCons(a[0], t + b, c, rep);
      ReplaceAllCons(a[0], t, c, rep);
      Assoc(if a[0] == c then rep else [a[0]], ReplaceAll(t, c, rep), ReplaceAll(b, c, rep));
    }
  }

  /** The per-character rule the two passes amount to. */
  function PdfChar(c: char): string
  {
    if c == '&' then "&amp;" else if c == '<' then "&lt;" else [c]
  }

  /**
   * The two passes act as one per-character rule, because the first pass
   * writes no `<` for the second one to find.
   */
  lemma {:induction false} PdfCellPerChar(s: string)
    ensures s != [] ==> PdfCell(s) == PdfChar(s[0]) + PdfCell(s[1..])
  {
    if s != [] {
      var first := ReplaceAll(s, '&', "&amp;");
      var head := if s[0] == '&' then "&amp;" else [s[0]];
      assert first == head + ReplaceAll(s[1..], '&', "&amp;");
      ReplaceAllAppend(head, ReplaceAll(s[1..], '&', "&amp;"), '<', "&lt;");
      if s[0] == '&' {
        assert ReplaceAll("&amp;", '<', "&lt;") == "&amp;" by {
          assert "&amp;"[1..] == "amp;";
          assert "amp;"[1..] == "mp;";
          assert "mp;"[1..] == "p;";
          assert "p;"[1..] == ";";
          assert ";"[1..] == "";
        }
      } else {
        assert ReplaceAll(head, '<', "&lt;") == PdfChar(s[0]) by {
          assert head[1..] == [];
        }
      }
    }
  }

  /** A printable cell holds no `<`, and decoding it gives back the cell's text. */
  lemma {:induction false} PdfCellSafe(s: string)
    ensures forall k :: 0 <= k < |PdfCell(s)| ==> PdfCell(s)[k] != '<'
    ensures UnescapeHtml(PdfCell(s)) == s
  {
    if s == [] {
    } else {
      PdfCellPerChar(s);
      PdfCellSafe(s[1..]);
      var rest := PdfCell(s[1..]);
      if s[0] == '&' {
        UnescapeAmp(rest);
      } else if s[0] == '<' {
        UnescapeLt(rest);
      } else {
        UnescapePlain(s[0], rest);
      }
      assert [s[0]] + s[1..] == s;
    }
  }
}
