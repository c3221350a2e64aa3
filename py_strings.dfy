/**
 * The few Python `str` operations the converter relies on, modelled on
 * `string` (= `seq<char>`): `strip()` with no argument, `split(sep)` for a
 * one-character separator, and `sep.join(pieces)`.
 */
module PyStrings {

  /** The characters Python's `str.strip()` removes when given no argument
      (the characters for which `str.isspace()` holds). */
  predicate IsWhitespace(c: char) {
    || c == ' '
    || ('\t' <= c <= '\r')
    || ('\U{1C}' <= c <= '\U{1F}')
    || c == '\U{85}' || c == '\U{A0}' || c == '\U{1680}'
    || ('\U{2000}' <= c <= '\U{200A}')
    || c == '\U{2028}' || c == '\U{2029}' || c == '\U{202F}'
    || c == '\U{205F}' || c == '\U{3000}'
  }

  predicate AllWhitespace(s: string) {
    forall i :: 0 <= i < |s| ==> IsWhitespace(s[i])
  }

  /** Neither end of `s` is whitespace: what `strip()` leaves behind. */
  predicate Trimmed(s: string) {
    s == [] || (!IsWhitespace(s[0]) && !IsWhitespace(s[|s| - 1]))
  }

  /** `s.strip()`: drops whitespace from both ends; what is left is trimmed. */
  function Strip(s: string): (r: string)
    ensures Trimmed(r)
    ensures |r| <= |s|
  {
    if s != [] && IsWhitespace(s[0]) then Strip(s[1..])
    else if s != [] && IsWhitespace(s[|s| - 1]) then Strip(s[..|s| - 1])
    else s
  }

  /** Stripping leaves nothing exactly when the string is all whitespace. */
  lemma {:induction false} StripEmptyIffAllWhitespace(s: string)
    ensures Strip(s) == [] <==> AllWhitespace(s)
    decreases |s|
  {
    if s != [] && IsWhitespace(s[0]) {
      StripEmptyIffAllWhitespace(s[1..]);
      assert AllWhitespace(s) <==> AllWhitespace(s[1..]) by {
        if AllWhitespace(s[1..]) {
          forall i | 0 <= i < |s| ensures IsWhitespace(s[i]) { if i > 0 { assert s[i] == s[1..][i - 1]; } }
        }
      }
    } else if s != [] && IsWhitespace(s[|s| - 1]) {
      StripEmptyIffAllWhitespace(s[..|s| - 1]);
      assert AllWhitespace(s) <==> AllWhitespace(s[..|s| - 1]) by {
        if AllWhitespace(s[..|s| - 1]) {
          forall i | 0 <= i < |s| ensures IsWhitespace(s[i]) { if i < |s| - 1 { assert s[i] == s[..|s| - 1][i]; } }
        }
      }
    } else if s != [] {
      assert !IsWhitespace(s[0]);
    }
  }

  /** A concatenation is all whitespace exactly when both parts are. */
  lemma AllWhitespaceConcat(x: string, y: string)
    ensures AllWhitespace(x + y) <==> AllWhitespace(x) && AllWhitespace(y)
  {
    if AllWhitespace(x + y) {
      forall i | 0 <= i < |x| ensures IsWhitespace(x[i]) { assert (x + y)[i] == x[i]; }
      forall i | 0 <= i < |y| ensures IsWhitespace(y[i]) { assert (x + y)[|x| + i] == y[i]; }
    }
  }

  /** How many whitespace characters `s` starts with. */
  function LeadingWhitespace(s: string): (n: nat)
    ensures n <= |s|
  {
    if s != [] && IsWhitespace(s[0]) then 1 + LeadingWhitespace(s[1..]) else 0
  }

  /** `r` sits in `s` at offset `a` with only whitespace before and after it. */
  predicate SurroundedByWhitespace(s: string, a: nat, r: string) {
    a + |r| <= |s| && r == s[a..a + |r|] && AllWhitespace(s[..a]) && AllWhitespace(s[a + |r|..])
  }

  /** A whitespace character in front of `s[1..]` joins its leading
      whitespace. */
  lemma WhitespaceAtStart(s: string, a: nat, r: string)
    requires s != [] && IsWhitespace(s[0]) && SurroundedByWhitespace(s[1..], a, r)
    ensures SurroundedByWhitespace(s, a + 1, r)
  {
    assert s[a + 1..a + 1 + |r|] == s[1..][a..a + |r|];
    assert s[a + 1 + |r|..] == s[1..][a + |r|..];
    var front, rest := s[..a + 1], s[1..][..a];
    forall i | 0 <= i < |front| ensures IsWhitespace(front[i]) {
      if i > 0 { assert front[i] == rest[i - 1]; }
    }
  }

  /** A whitespace character after `s[..|s| - 1]` joins its trailing
      whitespace. */
  lemma WhitespaceAtEnd(s: string, a: nat, r: string)
    requires s != [] && IsWhitespace(s[|s| - 1]) && SurroundedByWhitespace(s[..|s| - 1], a, r)
    ensures SurroundedByWhitespace(s, a, r)
  {
    var t := s[..|s| - 1];
    assert s[a..a + |r|] == t[a..a + |r|];
    assert s[..a] == t[..a];
    var back, rest := s[a + |r|..], t[a + |r|..];
    forall i | 0 <= i < |back| ensures IsWhitespace(back[i]) {
      if i < |rest| { assert back[i] == rest[i]; }
    }
  }

  /** Stripping removes only whitespace, and only at the two ends: the result
      is the part of `s` after its leading whitespace, followed in `s` by
      nothing but whitespace. */
  lemma {:induction false} StripKeepsMiddle(s: string)
    ensures SurroundedByWhitespace(s, LeadingWhitespace(s), Strip(s))
    decreases |s|
  {
    if s != [] && IsWhitespace(s[0]) {
      StripKeepsMiddle(s[1..]);
      WhitespaceAtStart(s, LeadingWhitespace(s[1..]), Strip(s[1..]));
    } else if s != [] && IsWhitespace(s[|s| - 1]) {
      StripKeepsMiddle(s[..|s| - 1]);
      assert LeadingWhitespace(s[..|s| - 1]) == 0;
      WhitespaceAtEnd(s, 0, Strip(s[..|s| - 1]));
    } else {
      assert s[..0] == [] && s[|s|..] == [] && s[0..|s|] == s;
    }
  }

  /** An already trimmed string is left alone, so stripping is idempotent. */
  lemma StripTrimmed(s: string)
    requires Trimmed(s)
    ensures Strip(s) == s
  {
  }

  /** Padding a non-empty trimmed string with a space on each side is undone
      by stripping. */
  lemma StripPadded(s: string)
    requires s != [] && Trimmed(s)
    ensures Strip(" " + s + " ") == s
  {
    var padded := " " + s + " ";
    assert padded[1..] == s + " ";
    assert Strip(padded) == Strip(s + " ");
    assert (s + " ")[..|s|] == s;
    assert (s + " ")[0] == s[0];
    assert Strip(s + " ") == Strip(s);
    StripTrimmed(s);
  }

  /** `s.split(sep)`: the pieces between occurrences of `sep`, always at least
      one; its first piece is the longest prefix of `s` without `sep`. */
  function Split(s: string, sep: char): (r: seq<string>)
    ensures |r| >= 1
    ensures forall j :: 0 <= j < |r| ==> sep !in r[j]
    ensures r[0] <= s
    ensures |r[0]| < |s| ==> s[|r[0]|] == sep
  {
    if s == [] then [""]
    else
      var rest := Split(s[1..], sep);
      if s[0] == sep then [""] + rest
      else [[s[0]] + rest[0]] + rest[1..]
  }

  /** `sep.join(pieces)`. */
  function Join(pieces: seq<string>, sep: string): string {
    if |pieces| == 0 then ""
    else if |pieces| == 1 then pieces[0]
    else pieces[0] + sep + Join(pieces[1..], sep)
  }

  /** Joining the pieces of a split with the separator gives back the
      original string. */
  lemma {:induction false} JoinSplit(s: string, sep: char)
    ensures Join(Split(s, sep), [sep]) == s
  {
    if s != [] {
      var rest := Split(s[1..], sep);
      JoinSplit(s[1..], sep);
      if s[0] == sep {
        assert Split(s, sep) == [""] + rest;
        assert ([""] + rest)[1..] == rest;
        assert Join([""] + rest, [sep]) == "" + [sep] + Join(rest, [sep]);
        assert s == [s[0]] + s[1..];
      } else {
        var first := [s[0]] + rest[0];
        assert Split(s, sep) == [first] + rest[1..];
        if |rest| == 1 {
          assert Join([first], [sep]) == first;
          assert s == [s[0]] + s[1..];
        } else {
          assert ([first] + rest[1..])[1..] == rest[1..];
          assert Join(rest, [sep]) == rest[0] + [sep] + Join(rest[1..], [sep]);
          assert s == [s[0]] + s[1..];
        }
      }
    }
  }

  /** Splitting a join of separator-free pieces gives back the pieces. */
  lemma {:induction false} SplitJoin(pieces: seq<string>, sep: char)
    requires |pieces| >= 1
    requires forall j :: 0 <= j < |pieces| ==> sep !in pieces[j]
    ensures Split(Join(pieces, [sep]), sep) == pieces
  {
    if |pieces| == 1 {
      SplitNoSeparator(pieces[0], sep);
    } else {
      SplitJoin(pieces[1..], sep);
      SplitAfterPiece(pieces[0], Join(pieces[1..], [sep]), sep);
      assert pieces == [pieces[0]] + pieces[1..];
    }
  }

  /** A string without the separator splits into itself alone. */
  lemma {:induction false} SplitNoSeparator(s: string, sep: char)
    requires sep !in s
    ensures Split(s, sep) == [s]
  {
    if s != [] {
      SplitNoSeparator(s[1..], sep);
      assert [s[0]] + s[1..] == s;
    }
  }

  /** Splitting a string that starts with the separator gives an empty first
      piece. */
  lemma SplitLeadingSeparator(t: string, sep: char)
    ensures Split([sep] + t, sep) == [""] + Split(t, sep)
  {
    assert ([sep] + t)[1..] == t;
  }

  /** A first character other than the separator goes to the first piece. */
  lemma SplitLeadingChar(c: char, t: string, sep: char)
    requires c != sep
    ensures Split([c] + t, sep) == [[c] + Split(t, sep)[0]] + Split(t, sep)[1..]
  {
    assert ([c] + t)[1..] == t;
  }

  /** A separator-free piece followed by the separator splits off as the
      first piece. */
  lemma {:induction false} SplitAfterPiece(p: string, tail: string, sep: char)
    requires sep !in p
    ensures Split(p + [sep] + tail, sep) == [p] + Split(tail, sep)
  {
    if p == [] {
      assert p + [sep] + tail == [sep] + tail;
      SplitLeadingSeparator(tail, sep);
    } else {
      var t := p[1..] + [sep] + tail;
      SplitAfterPiece(p[1..], tail, sep);
      assert p + [sep] + tail == [p[0]] + t;
      SplitLeadingChar(p[0], t, sep);
      assert [p[0]] + p[1..] == p;
    }
  }

  /** A join with a whitespace separator is all whitespace exactly when every
      piece is. */
  lemma {:induction false} JoinAllWhitespace(pieces: seq<string>, sep: string)
    requires AllWhitespace(sep)
    ensures AllWhitespace(Join(pieces, sep)) <==> forall j :: 0 <= j < |pieces| ==> AllWhitespace(pieces[j])
  {
    if |pieces| > 1 {
      JoinAllWhitespace(pieces[1..], sep);
      AllWhitespaceConcat(pieces[0], sep);
      AllWhitespaceConcat(pieces[0] + sep, Join(pieces[1..], sep));
      assert forall k :: 0 <= k < |pieces| - 1 ==> pieces[1..][k] == pieces[k + 1];
    }
  }
}
