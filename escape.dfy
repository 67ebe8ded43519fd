/**
 * escapeHtml: every `&`, `<`, `>` and `"` of a string is replaced by its HTML entity,
 * every other character is kept. The page applies it to metadata keys and values
 * before placing them in element text and in `value="…"` attributes.
 */
module HtmlEscape {

  /** The four characters the escaping regex `/[&<>"]/g` matches. */
  predicate IsSpecial(c: char) {
    c == '&' || c == '<' || c == '>' || c == '"'
  }

  /** The lookup table of the replacement callback. */
  function EscapeChar(c: char): string {
    match c
    case '&' => "&amp;"
    case '<' => "&lt;"
    case '>' => "&gt;"
    case '"' => "&quot;"
    case _ => [c]
  }

  /** escapeHtml(str) on a string argument. */
  function EscapeHtml(s: string): (r: string)
    ensures |r| >= |s|
    ensures forall i :: 0 <= i < |r| ==> r[i] != '<' && r[i] != '>' && r[i] != '"'
  {
    if s == [] then [] else EscapeChar(s[0]) + EscapeHtml(s[1..])
  }

  /** One of the four entities escapeHtml emits begins at position i of t. */
  predicate EntityAt(t: string, i: nat)
    requires i <= |t|
  {
    "&amp;" <= t[i..] || "&lt;" <= t[i..] || "&gt;" <= t[i..] || "&quot;" <= t[i..]
  }

  /** The strings an escape can produce: no `<`, `>` or `"`, and every `&` opens an entity. */
  predicate WellEscaped(t: string) {
    && (forall i :: 0 <= i < |t| ==> t[i] != '<' && t[i] != '>' && t[i] != '"')
    && (forall i :: 0 <= i < |t| && t[i] == '&' ==> EntityAt(t, i))
  }

  /**
   * How an HTML parser reads the four entities back (in element text and in a quoted
   * attribute value). Any other character, including an `&` that opens none of them,
   * is read as itself.
   */
  function Unescape(t: string): string
    decreases |t|
  {
    if t == [] then []
    else if "&amp;" <= t then "&" + Unescape(t[5..])
    else if "&lt;" <= t then "<" + Unescape(t[4..])
    else if "&gt;" <= t then ">" + Unescape(t[4..])
    else if "&quot;" <= t then "\"" + Unescape(t[6..])
    else [t[0]] + Unescape(t[1..])
  }

  /** Escaping is a homomorphism on concatenation: each character is escaped on its own. */
  lemma {:induction false} EscapeConcat(a: string, b: string)
    ensures EscapeHtml(a + b) == EscapeHtml(a) + EscapeHtml(b)
  {
    if a != [] {
      assert (a + b)[0] == a[0] && (a + b)[1..] == a[1..] + b;
      EscapeConcat(a[1..], b);
      assert EscapeHtml(a + b) == EscapeChar(a[0]) + (EscapeHtml(a[1..]) + EscapeHtml(b));
    } else {
      assert a + b == b;
    }
  }

  /** A string is left unchanged exactly when it holds none of the four special characters. */
  lemma {:induction false} EscapeIdentityIff(s: string)
    ensures EscapeHtml(s) == s <==> forall i :: 0 <= i < |s| ==> !IsSpecial(s[i])
  {
    if s != [] {
      EscapeIdentityIff(s[1..]);
      if IsSpecial(s[0]) {
        // the escaped string is longer than the input
        assert |EscapeChar(s[0])| > 1;
        assert |EscapeHtml(s)| > |s|;
      } else {
        assert EscapeHtml(s) == [s[0]] + EscapeHtml(s[1..]);
        if EscapeHtml(s) == s {
          assert EscapeHtml(s[1..]) == s[1..];
        }
        assert (forall i :: 0 <= i < |s| ==> !IsSpecial(s[i]))
          <==> (forall i :: 0 <= i < |s[1..]| ==> !IsSpecial(s[1..][i]));
      }
    }
  }

  /** Suffixes of a well-escaped string are well-escaped. */
  lemma WellEscapedSuffix(t: string, k: nat)
    requires k <= |t| && WellEscaped(t)
    ensures WellEscaped(t[k..])
  {
    forall i | 0 <= i < |t[k..]| && t[k..][i] == '&'
      ensures EntityAt(t[k..], i)
    {
      assert EntityAt(t, k + i);
      assert t[k..][i..] == t[k + i..];
    }
  }

  /** Every output of escapeHtml is well-escaped: each `&` in it starts an entity. */
  lemma {:induction false} EscapeIsWellEscaped(s: string)
    ensures WellEscaped(EscapeHtml(s))
  {
    if s != [] {
      EscapeIsWellEscaped(s[1..]);
      var head, rest := EscapeChar(s[0]), EscapeHtml(s[1..]);
      var t := head + rest;
      assert EscapeHtml(s) == t;
      forall i | 0 <= i < |t| && t[i] == '&'
        ensures EntityAt(t, i)
      {
        if i < |head| {
          assert IsSpecial(s[0]) && i == 0;
          assert head <= t[i..];
        } else {
          assert t[i] == rest[i - |head|];
          assert EntityAt(rest, i - |head|);
          assert t[i..] == rest[i - |head|..];
        }
      }
    }
  }

  /** One step of reading back: an escaped character followed by anything. */
  lemma UnescapeChar(c: char, rest: string)
    ensures Unescape(EscapeChar(c) + rest) == [c] + Unescape(rest)
  {
    var t := EscapeChar(c) + rest;
    if c == '&' {
      assert t[5..] == rest;
    } else if c == '<' {
      assert t[1] == 'l' && !("&amp;" <= t);
      assert t[4..] == rest;
    } else if c == '>' {
      assert t[1] == 'g' && !("&amp;" <= t) && !("&lt;" <= t);
      assert t[4..] == rest;
    } else if c == '"' {
      assert t[1] == 'q' && !("&amp;" <= t) && !("&lt;" <= t) && !("&gt;" <= t);
      assert t[6..] == rest;
    } else {
      assert t[0] == c && t[1..] == rest;
      assert !("&amp;" <= t) && !("&lt;" <= t) && !("&gt;" <= t) && !("&quot;" <= t);
    }
  }

  /** Reading the escaped text back gives the original string exactly. */
  lemma {:induction false} UnescapeEscape(s: string)
    ensures Unescape(EscapeHtml(s)) == s
  {
    if s != [] {
      UnescapeChar(s[0], EscapeHtml(s[1..]));
      UnescapeEscape(s[1..]);
    }
  }

  /** Conversely every well-escaped string is the escape of what it reads back as. */
  lemma {:induction false} EscapeUnescape(t: string)
    requires WellEscaped(t)
    ensures EscapeHtml(Unescape(t)) == t
    decreases |t|
  {
    if t == [] {
    } else if "&amp;" <= t {
      EscapeStep(t, '&', 5);
    } else if "&lt;" <= t {
      EscapeStep(t, '<', 4);
    } else if "&gt;" <= t {
      EscapeStep(t, '>', 4);
    } else if "&quot;" <= t {
      EscapeStep(t, '"', 6);
    } else {
      assert t[0] != '&' by { assert !EntityAt(t, 0); }
      EscapeStep(t, t[0], 1);
    }
  }

  /** The inductive step of EscapeUnescape: t is the escape of c followed by a well-escaped rest. */
  lemma {:induction false} EscapeStep(t: string, c: char, n: nat)
    requires WellEscaped(t) && 1 <= n <= |t|
    requires t[..n] == EscapeChar(c)
    requires Unescape(t) == [c] + Unescape(t[n..])
    ensures EscapeHtml(Unescape(t)) == t
    decreases |t|, 0
  {
    WellEscapedSuffix(t, n);
    EscapeUnescape(t[n..]);
    assert ([c] + Unescape(t[n..]))[0] == c;
    assert ([c] + Unescape(t[n..]))[1..] == Unescape(t[n..]);
    assert t == t[..n] + t[n..];
  }
}
