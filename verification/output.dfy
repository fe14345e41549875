/** The escaping of the changelog for the `::set-output` workflow command
    (main.go): `%`, line feed and carriage return are percent-encoded so
    the value fits on the single line the command occupies. */
module Output {
  import opened Strings

  /** The three ReplaceAll passes, `%` first. */
  function Sanitize(input: string): string
  {
    ReplaceAll(ReplaceAll(ReplaceAll(input, '%', "%25"), '\n', "%0A"), '\r', "%0D")
  }

  predicate IsReserved(c: char)
  {
    c == '%' || c == '\n' || c == '\r'
  }

  /** The escape of one character. */
  function Escape(c: char): string
  {
    if c == '%' then "%25"
    else if c == '\n' then "%0A"
    else if c == '\r' then "%0D"
    else [c]
  }

  /** The reference definition: every character escaped on its own. */
  function EscapeEach(s: string): (r: string)
    ensures '\n' !in r && '\r' !in r
    ensures |r| == |s| + 2 * Reserved(s)
  {
    if |s| == 0 then "" else Escape(s[0]) + EscapeEach(s[1..])
  }

  /** Number of reserved characters in `s`. */
  function Reserved(s: string): nat
  {
    if |s| == 0 then 0 else (if IsReserved(s[0]) then 1 else 0) + Reserved(s[1..])
  }

  /** A left-to-right decoder: `%25`, `%0A` and `%0D` read back as the
      character they stand for. */
  function Unescape(s: string): string
  {
    if |s| == 0 then ""
    else if |s| >= 3 && s[0] == '%' && s[1] == '2' && s[2] == '5' then "%" + Unescape(s[3..])
    else if |s| >= 3 && s[0] == '%' && s[1] == '0' && s[2] == 'A' then "\n" + Unescape(s[3..])
    else if |s| >= 3 && s[0] == '%' && s[1] == '0' && s[2] == 'D' then "\r" + Unescape(s[3..])
    else [s[0]] + Unescape(s[1..])
  }

  lemma SanitizeChar(c: char)
    ensures Sanitize([c]) == Escape(c)
  {
  }

  lemma SanitizeConcat(a: string, b: string)
    ensures Sanitize(a + b) == Sanitize(a) + Sanitize(b)
  {
    var p := ReplaceAll(a, '%', "%25");
    var q := ReplaceAll(b, '%', "%25");
    ReplaceAllConcat(a, b, '%', "%25");
    ReplaceAllConcat(p, q, '\n', "%0A");
    ReplaceAllConcat(ReplaceAll(p, '\n', "%0A"), ReplaceAll(q, '\n', "%0A"), '\r', "%0D");
  }

  /** Because `%` is replaced first, the three passes amount to escaping
      each character once: the `%` the later passes insert is never
      escaped again. */
  lemma {:induction false} SanitizeIsEscapeEach(s: string)
    ensures Sanitize(s) == EscapeEach(s)
  {
    if |s| > 0 {
      var t := s[1..];
      assert Sanitize(s) == Sanitize([s[0]]) + Sanitize(t) by {
        assert s == [s[0]] + t;
        SanitizeConcat([s[0]], t);
      }
      assert Sanitize([s[0]]) == Escape(s[0]) by {
        SanitizeChar(s[0]);
      }
      SanitizeIsEscapeEach(t);
    }
  }

  /** The escaped value holds no line break. */
  lemma SanitizeSingleLine(s: string)
    ensures '\n' !in Sanitize(s) && '\r' !in Sanitize(s)
  {
    SanitizeIsEscapeEach(s);
  }

  /** Each reserved character grows by two; nothing else changes length. */
  lemma SanitizeLength(s: string)
    ensures |Sanitize(s)| == |s| + 2 * Reserved(s)
  {
    SanitizeIsEscapeEach(s);
  }

  /** A value without reserved characters is written as it is. */
  lemma {:induction false} SanitizeUnreserved(s: string)
    requires forall i :: 0 <= i < |s| ==> !IsReserved(s[i])
    ensures Sanitize(s) == s
  {
    if |s| > 0 {
      assert s == [s[0]] + s[1..];
      SanitizeConcat([s[0]], s[1..]);
      SanitizeChar(s[0]);
      SanitizeUnreserved(s[1..]);
    }
  }

  lemma UnescapeEscape(c: char, rest: string)
    ensures Unescape(Escape(c) + rest) == [c] + Unescape(rest)
  {
    var s := Escape(c) + rest;
    if IsReserved(c) {
      assert s[3..] == rest;
    } else {
      assert s[1..] == rest;
    }
  }

  /** The left-to-right decoder recovers every input. */
  lemma {:induction false} UnescapeSanitize(s: string)
    ensures Unescape(Sanitize(s)) == s
  {
    SanitizeIsEscapeEach(s);
    UnescapeEscapeEach(s);
  }

  lemma {:induction false} UnescapeEscapeEach(s: string)
    ensures Unescape(EscapeEach(s)) == s
  {
    if |s| > 0 {
      UnescapeEscape(s[0], EscapeEach(s[1..]));
      UnescapeEscapeEach(s[1..]);
      assert s == [s[0]] + s[1..];
    }
  }

  /** Different changelogs are written differently. */
  lemma SanitizeInjective(a: string, b: string)
    requires Sanitize(a) == Sanitize(b)
    ensures a == b
  {
    UnescapeSanitize(a);
    UnescapeSanitize(b);
  }
}
