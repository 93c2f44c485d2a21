/**
 * `escapeHtml`: each of the five characters `& < > " '` is replaced by its
 * entity, every other character is kept, one character at a time.
 */
module Html {

  predicate IsSpecial(c: char) {
    c == '&' || c == '<' || c == '>' || c == '"' || c == '\''
  }

  /** The replacement table of the source: one entity per special character. */
  function Entity(c: char): (e: string)
    requires IsSpecial(c)
    ensures |e| >= 4 && e[0] == '&' && e[|e| - 1] == ';'
  {
    if c == '&' then "&amp;"
    else if c == '<' then "&lt;"
    else if c == '>' then "&gt;"
    else if c == '"' then "&quot;"
    else "&#039;"
  }

  function EscapeChar(c: char): string {
    if IsSpecial(c) then Entity(c) else [c]
  }

  /** `escapeHtml(str)`. */
  function EscapeHtml(s: string): string
    decreases |s|
  {
    if |s| == 0 then "" else EscapeChar(s[0]) + EscapeHtml(s[1..])
  }

  /** Decodes exactly the five entities `EscapeHtml` produces; the partner of `EscapeHtml`. */
  function UnescapeHtml(s: string): string
    decreases |s|
  {
    if |s| == 0 then ""
    else if s[0] == '&' && |s| >= 5 && s[..5] == "&amp;" then "&" + UnescapeHtml(s[5..])
    else if s[0] == '&' && |s| >= 4 && s[..4] == "&lt;" then "<" + UnescapeHtml(s[4..])
    else if s[0] == '&' && |s| >= 4 && s[..4] == "&gt;" then ">" + UnescapeHtml(s[4..])
    else if s[0] == '&' && |s| >= 6 && s[..6] == "&quot;" then "\"" + UnescapeHtml(s[6..])
    else if s[0] == '&' && |s| >= 6 && s[..6] == "&#039;" then "'" + UnescapeHtml(s[6..])
    else [s[0]] + UnescapeHtml(s[1..])
  }

  /** Text that a browser would read as markup or an attribute delimiter. */
  predicate HasMarkup(s: string) {
    exists i :: 0 <= i < |s| && (s[i] == '<' || s[i] == '>' || s[i] == '"' || s[i] == '\'')
  }

  function CountSpecial(s: string): nat
    decreases |s|
  {
    if |s| == 0 then 0 else (if IsSpecial(s[0]) then 1 else 0) + CountSpecial(s[1..])
  }

  lemma UnescapeChar(c: char, rest: string)
    ensures UnescapeHtml(EscapeChar(c) + rest) == [c] + UnescapeHtml(rest)
  {
    var t := EscapeChar(c) + rest;
    if IsSpecial(c) {
      var e := Entity(c);
      assert t[..|e|] == e && t[|e|..] == rest;
      assert t[0] == '&' && t[1] == e[1];
      if c != '&' {
        assert t[1] != 'a';
      }
      if c == '>' || c == '"' || c == '\'' {
        assert t[1] != 'l';
      }
      if c == '"' || c == '\'' {
        assert t[1] != 'g';
      }
      if c == '\'' {
        assert t[1] != 'q';
      }
    } else {
      assert t[0] == c && t[1..] == rest;
    }
  }

  /** Unescaping undoes escaping: no information is lost. */
  lemma {:induction false} UnescapeEscape(s: string)
    ensures UnescapeHtml(EscapeHtml(s)) == s
    decreases |s|
  {
    if |s| > 0 {
      UnescapeEscape(s[1..]);
      UnescapeChar(s[0], EscapeHtml(s[1..]));
      assert [s[0]] + s[1..] == s;
    }
  }

  /** Escaped text carries no raw `<`, `>`, `"` or `'`. */
  lemma {:induction false} EscapeRemovesMarkup(s: string)
    ensures !HasMarkup(EscapeHtml(s))
    decreases |s|
  {
    if |s| > 0 {
      EscapeRemovesMarkup(s[1..]);
      var head, tail := EscapeChar(s[0]), EscapeHtml(s[1..]);
      forall i | 0 <= i < |head + tail|
        ensures (head + tail)[i] !in {'<', '>', '"', '\''}
      {
        if i >= |head| {
          assert (head + tail)[i] == tail[i - |head|];
        }
      }
    }
  }

  /** Escaping grows the text by the entity length less one for each special character. */
  lemma {:induction false} EscapeLength(s: string)
    ensures |s| + 3 * CountSpecial(s) <= |EscapeHtml(s)| <= |s| + 5 * CountSpecial(s)
    decreases |s|
  {
    if |s| > 0 {
      EscapeLength(s[1..]);
    }
  }

  /** Text without special characters comes back unchanged. */
  lemma {:induction false} EscapePlain(s: string)
    requires CountSpecial(s) == 0
    ensures EscapeHtml(s) == s
    decreases |s|
  {
    if |s| > 0 {
      EscapePlain(s[1..]);
      assert [s[0]] + s[1..] == s;
    }
  }

  /** Text comes back unchanged exactly when it holds no special character. */
  lemma EscapeUnchanged(s: string)
    ensures EscapeHtml(s) == s <==> CountSpecial(s) == 0
  {
    EscapeLength(s);
    if CountSpecial(s) == 0 {
      EscapePlain(s);
    }
  }

  /** Escaping works character by character: it distributes over concatenation. */
  lemma {:induction false} EscapeConcat(a: string, b: string)
    ensures EscapeHtml(a + b) == EscapeHtml(a) + EscapeHtml(b)
    decreases |a|
  {
    if |a| > 0 {
      assert (a + b)[1..] == a[1..] + b;
      EscapeConcat(a[1..], b);
    } else {
      assert a + b == b;
    }
  }
}
