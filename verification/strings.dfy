/** The functions of Go's `strings` package that the action relies on,
    specialised to single-character separators, with the facts about them
    that the rest of the model needs. */
module Strings {

  /** Number of occurrences of `c` in `s`. */
  function Count(s: string, c: char): nat
  {
    if |s| == 0 then 0 else (if s[0] == c then 1 else 0) + Count(s[1..], c)
  }

  /** `strings.Split(s, string(c))`: the fields of `s` between occurrences
      of `c`. There is always one field more than there are separators, so
      the empty string splits into one empty field. */
  function Split(s: string, c: char): (r: seq<string>)
    ensures |r| == Count(s, c) + 1
    ensures forall i :: 0 <= i < |r| ==> c !in r[i]
  {
    if |s| == 0 then [""]
    else
      var rest := Split(s[1..], c);
      if s[0] == c then [""] + rest
      else [[s[0]] + rest[0]] + rest[1..]
  }

  /** `strings.Join(parts, sep)`. */
  function Join(parts: seq<string>, sep: string): string
  {
    if |parts| == 0 then ""
    else if |parts| == 1 then parts[0]
    else parts[0] + sep + Join(parts[1..], sep)
  }

  /** Joining the fields of a split with the separator gives back the
      original string. */
  lemma {:induction false} JoinSplit(s: string, c: char)
    ensures Join(Split(s, c), [c]) == s
  {
    if |s| > 0 {
      var rest := Split(s[1..], c);
      JoinSplit(s[1..], c);
      if s[0] == c {
        assert Split(s, c) == [""] + rest;
        assert ([""] + rest)[1..] == rest;
      } else if |rest| == 1 {
        assert Split(s, c) == [[s[0]] + rest[0]];
        assert s == [s[0]] + s[1..];
      } else {
        var first := [s[0]] + rest[0];
        assert Split(s, c) == [first] + rest[1..];
        assert ([first] + rest[1..])[1..] == rest[1..];
        assert Join(rest, [c]) == rest[0] + [c] + Join(rest[1..], [c]);
        assert s == [s[0]] + s[1..];
      }
    }
  }

  /** A string without the separator is a single field. */
  lemma {:induction false} SplitNoSeparator(s: string, c: char)
    requires c !in s
    ensures Split(s, c) == [s]
  {
    if |s| > 0 {
      SplitNoSeparator(s[1..], c);
      assert s == [s[0]] + s[1..];
    }
  }

  /** The first field ends at the first separator, and the remaining
      fields are those of the text after it. */
  lemma {:induction false} SplitAtFirst(s: string, c: char, i: nat)
    requires i < |s| && s[i] == c && c !in s[..i]
    ensures Split(s, c) == [s[..i]] + Split(s[i + 1..], c)
  {
    if i > 0 {
      assert s[0] == s[..i][0];
      assert s[1..][i - 1] == c;
      assert s[1..][..i - 1] == s[1..i];
      SplitAtFirst(s[1..], c, i - 1);
      assert s[1..][i..] == s[i + 1..];
      assert [s[0]] + s[1..i] == s[..i];
    }
  }

  /** Splitting joined parts recovers them when no part holds the
      separator: Split and Join are inverse in both directions. */
  lemma {:induction false} SplitJoin(parts: seq<string>, c: char)
    requires |parts| >= 1
    requires forall i :: 0 <= i < |parts| ==> c !in parts[i]
    ensures Split(Join(parts, [c]), c) == parts
  {
    if |parts| == 1 {
      SplitNoSeparator(parts[0], c);
    } else {
      var tail := Join(parts[1..], [c]);
      var s := parts[0] + [c] + tail;
      assert Join(parts, [c]) == s;
      assert s[..|parts[0]|] == parts[0];
      assert s[|parts[0]| + 1..] == tail;
      SplitAtFirst(s, c, |parts[0]|);
      SplitJoin(parts[1..], c);
      assert parts == [parts[0]] + parts[1..];
    }
  }

  /** A trailing separator adds one empty last field. */
  lemma {:induction false} SplitTrailing(s: string, c: char)
    ensures Split(s + [c], c) == Split(s, c) + [""]
  {
    if |s| > 0 {
      SplitTrailing(s[1..], c);
      assert (s + [c])[1..] == s[1..] + [c];
      assert (s + [c])[0] == s[0];
    }
  }

  /** A separator followed by a separator-free tail adds the tail as one
      last field. */
  lemma {:induction false} SplitAppend(s: string, c: char, tail: string)
    requires c !in tail
    ensures Split(s + [c] + tail, c) == Split(s, c) + [tail]
  {
    if |s| == 0 {
      assert s + [c] + tail == [c] + tail;
      SplitNoSeparator(tail, c);
      assert ([c] + tail)[1..] == tail;
    } else {
      var t := s + [c] + tail;
      var rest := Split(s[1..], c);
      var more := Split(t[1..], c);
      assert more == rest + [tail] by {
        assert t[1..] == s[1..] + [c] + tail;
        SplitAppend(s[1..], c, tail);
      }
      assert t[0] == s[0];
      if s[0] == c {
        assert Split(t, c) == [""] + more;
        assert Split(s, c) == [""] + rest;
      } else {
        assert Split(t, c) == [[s[0]] + more[0]] + more[1..];
        assert Split(s, c) == [[s[0]] + rest[0]] + rest[1..];
        assert more[0] == rest[0] && more[1..] == rest[1..] + [tail];
      }
    }
  }

  /** `strings.ReplaceAll(s, string(c), rep)`: every occurrence of `c`
      replaced by `rep`, nothing re-scanned. */
  function ReplaceAll(s: string, c: char, rep: string): (r: string)
    ensures c !in s ==> r == s
    ensures c !in rep ==> c !in r
    ensures forall x :: x in r ==> x in s || x in rep
  {
    if |s| == 0 then ""
    else (if s[0] == c then rep else [s[0]]) + ReplaceAll(s[1..], c, rep)
  }

  /** ReplaceAll acts on each part of a concatenation separately. */
  lemma {:induction false} ReplaceAllConcat(a: string, b: string, c: char, rep: string)
    ensures ReplaceAll(a + b, c, rep) == ReplaceAll(a, c, rep) + ReplaceAll(b, c, rep)
  {
    if |a| > 0 {
      assert (a + b)[0] == a[0];
      assert (a + b)[1..] == a[1..] + b;
      ReplaceAllConcat(a[1..], b, c, rep);
    } else {
      assert a + b == b;
    }
  }

  /** `strings.TrimSuffix(s, suffix)`. */
  function TrimSuffix(s: string, suffix: string): (r: string)
    ensures r == s || r + suffix == s
    ensures |suffix| <= |s| && s[|s| - |suffix|..] == suffix ==> r + suffix == s
  {
    if |suffix| <= |s| && s[|s| - |suffix|..] == suffix then s[..|s| - |suffix|] else s
  }

  /** Go's `unicode.IsSpace`: the Latin-1 spaces, then the other Unicode
      White_Space characters. */
  predicate IsSpace(c: char)
  {
    || c == ' ' || c == '\t' || c == '\n' || c == '\U{000B}' || c == '\U{000C}' || c == '\r'
    || c == '\U{0085}' || c == '\U{00A0}' || c == '\U{1680}'
    || ('\U{2000}' <= c <= '\U{200A}')
    || c == '\U{2028}' || c == '\U{2029}' || c == '\U{202F}' || c == '\U{205F}' || c == '\U{3000}'
  }

  ghost predicate AllSpace(s: string)
  {
    forall i :: 0 <= i < |s| ==> IsSpace(s[i])
  }

  /** Drops leading white space: the result is the suffix of `s` that
      starts at its first non-space character. */
  function TrimLeft(s: string): (r: string)
    ensures |r| <= |s| && r == s[|s| - |r|..]
    ensures AllSpace(s[..|s| - |r|])
    ensures |r| > 0 ==> !IsSpace(r[0])
  {
    if |s| > 0 && IsSpace(s[0]) then TrimLeft(s[1..]) else s
  }

  /** Drops trailing white space: the result is the prefix of `s` that
      ends at its last non-space character. */
  function TrimRight(s: string): (r: string)
    ensures |r| <= |s| && r == s[..|r|]
    ensures AllSpace(s[|r|..])
    ensures |r| > 0 ==> !IsSpace(r[|r| - 1])
  {
    if |s| > 0 && IsSpace(s[|s| - 1]) then TrimRight(s[..|s| - 1]) else s
  }

  /** `strings.TrimSpace(s)`. */
  function TrimSpace(s: string): string
  {
    TrimRight(TrimLeft(s))
  }

  lemma {:induction false} TrimLeftSpaces(a: string, m: string)
    requires AllSpace(a)
    requires |m| > 0 && !IsSpace(m[0])
    ensures TrimLeft(a + m) == m
  {
    if |a| > 0 {
      assert (a + m)[1..] == a[1..] + m;
      TrimLeftSpaces(a[1..], m);
    } else {
      assert a + m == m;
    }
  }

  lemma {:induction false} TrimRightSpaces(m: string, b: string)
    requires AllSpace(b)
    requires |m| > 0 && !IsSpace(m[|m| - 1])
    ensures TrimRight(m + b) == m
  {
    if |b| > 0 {
      assert (m + b)[..|m + b| - 1] == m + b[..|b| - 1];
      TrimRightSpaces(m, b[..|b| - 1]);
    } else {
      assert m + b == m;
    }
  }

  /** TrimSpace removes exactly the white space around a core that starts
      and ends with non-space characters. */
  lemma TrimSpacePadded(a: string, m: string, b: string)
    requires AllSpace(a) && AllSpace(b)
    requires |m| > 0 && !IsSpace(m[0]) && !IsSpace(m[|m| - 1])
    ensures TrimSpace(a + m + b) == m
  {
    assert a + m + b == a + (m + b);
    TrimLeftSpaces(a, m + b);
    TrimRightSpaces(m, b);
  }

  /** `s` is `m` with nothing but white space on either side. */
  ghost predicate Padded(s: string, m: string)
  {
    exists i :: PaddedAt(s, m, i)
  }

  /** `s` is white space, then `m` from position `i`, then white space. */
  ghost predicate PaddedAt(s: string, m: string, i: int)
  {
    0 <= i <= |s| - |m| && AllSpace(s[..i]) && s[i..i + |m|] == m && AllSpace(s[i + |m|..])
  }

  /** A white-space prefix cut from `s` and a white-space suffix cut from
      what remains leave `m` padded in `s`. */
  lemma PaddedByCuts(s: string, l: string, m: string)
    requires |l| <= |s| && l == s[|s| - |l|..] && AllSpace(s[..|s| - |l|])
    requires |m| <= |l| && m == l[..|m|] && AllSpace(l[|m|..])
    ensures PaddedAt(s, m, |s| - |l|)
  {
    var i := |s| - |l|;
    assert s[i..i + |m|] == m by {
      assert s[i..i + |m|] == s[i..][..|m|];
    }
    assert s[i + |m|..] == l[|m|..];
  }

  /** What TrimSpace removes is white space on both sides. */
  lemma TrimSpaceRemovesPadding(s: string)
    ensures Padded(s, TrimSpace(s))
  {
    var l := TrimLeft(s);
    PaddedByCuts(s, l, TrimRight(l));
  }

  /** TrimSpace recovers a padded core that begins and ends with a
      non-space character. */
  lemma TrimSpaceOfPadded(s: string, m: string)
    requires Padded(s, m)
    requires |m| > 0 && !IsSpace(m[0]) && !IsSpace(m[|m| - 1])
    ensures TrimSpace(s) == m
  {
    var i :| PaddedAt(s, m, i);
    assert s == s[..i] + m + s[i + |m|..];
    TrimSpacePadded(s[..i], m, s[i + |m|..]);
  }

  /** For a core that begins and ends with a non-space character, TrimSpace
      yields it exactly when the input is that core padded with white space. */
  lemma TrimSpaceIs(s: string, m: string)
    requires |m| > 0 && !IsSpace(m[0]) && !IsSpace(m[|m| - 1])
    ensures TrimSpace(s) == m <==> Padded(s, m)
  {
    TrimSpaceRemovesPadding(s);
    if Padded(s, m) {
      TrimSpaceOfPadded(s, m);
    }
  }
}
