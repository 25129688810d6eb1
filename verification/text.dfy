/**
 The string operations the epitope pipeline relies on, as Python defines them:
 `str.split` with a one-character separator, its inverse `sep.join`, and the
 argument-less `str.strip`, which removes Unicode whitespace from both ends.
 */
module Text {

  /** Python's `str.isspace` for a single character: the characters whose
      bidirectional class is WS, B or S, or whose category is Zs. */
  predicate IsWhitespace(c: char) {
    || ('\t' <= c <= '\r')
    || ('\U{1C}' <= c <= '\U{1F}')
    || c == ' '
    || c == '\U{85}'
    || c == '\U{A0}'
    || c == '\U{1680}'
    || ('\U{2000}' <= c <= '\U{200A}')
    || c == '\U{2028}'
    || c == '\U{2029}'
    || c == '\U{202F}'
    || c == '\U{205F}'
    || c == '\U{3000}'
  }

  predicate AllWhitespace(s: string) {
    forall k :: 0 <= k < |s| ==> IsWhitespace(s[k])
  }

  /** The pieces of `s` between occurrences of `sep`, as `s.split(sep)`:
      never empty, and no piece contains the separator. */
  function Split(s: string, sep: char): (pieces: seq<string>)
    ensures |pieces| >= 1
    ensures forall i :: 0 <= i < |pieces| ==> sep !in pieces[i]
    decreases |s|
  {
    if |s| == 0 then [""]
    else
      var rest := Split(s[1..], sep);
      if s[0] == sep then [""] + rest
      else [[s[0]] + rest[0]] + rest[1..]
  }

  /** `sep.join(pieces)`. */
  function Join(pieces: seq<string>, sep: char): string
  {
    if |pieces| == 0 then ""
    else if |pieces| == 1 then pieces[0]
    else pieces[0] + [sep] + Join(pieces[1..], sep)
  }

  /** Joining the pieces of a split gives back the text. */
  lemma {:induction false} JoinSplit(s: string, sep: char)
    ensures Join(Split(s, sep), sep) == s
    decreases |s|
  {
    if |s| > 0 {
      var rest := Split(s[1..], sep);
      JoinSplit(s[1..], sep);
      if s[0] == sep {
        assert Split(s, sep) == [""] + rest;
        assert Join([""] + rest, sep) == "" + [sep] + Join(rest, sep);
      } else {
        var ps := [[s[0]] + rest[0]] + rest[1..];
        if |rest| == 1 {
          assert ps == [[s[0]] + rest[0]];
        } else {
          assert ps[1..] == rest[1..];
          assert Join(rest, sep) == rest[0] + [sep] + Join(rest[1..], sep);
        }
      }
    }
  }

  /** Splitting `a + [sep] + b`, where `a` has no separator, yields `a`
      followed by the pieces of `b`. */
  lemma {:induction false} SplitCons(a: string, sep: char, b: string)
    requires sep !in a
    ensures Split(a + [sep] + b, sep) == [a] + Split(b, sep)
    decreases |a|
  {
    if |a| == 0 {
      assert a + [sep] + b == [sep] + b;
      assert ([sep] + b)[1..] == b;
    } else {
      var s := a + [sep] + b;
      assert s[0] == a[0];
      assert s[1..] == a[1..] + [sep] + b;
      SplitCons(a[1..], sep, b);
      assert [a[0]] + a[1..] == a;
    }
  }

  /** Splitting a text with no separator yields the text alone. */
  lemma {:induction false} SplitNone(a: string, sep: char)
    requires sep !in a
    ensures Split(a, sep) == [a]
    decreases |a|
  {
    if |a| > 0 {
      SplitNone(a[1..], sep);
      assert [a[0]] + a[1..] == a;
    }
  }

  /** Splitting a join gives back the pieces, provided none of them holds
      the separator: the other half of the split/join inverse pair. */
  lemma {:induction false} SplitJoin(pieces: seq<string>, sep: char)
    requires |pieces| >= 1
    requires forall i :: 0 <= i < |pieces| ==> sep !in pieces[i]
    ensures Split(Join(pieces, sep), sep) == pieces
    decreases |pieces|
  {
    if |pieces| == 1 {
      SplitNone(pieces[0], sep);
    } else {
      SplitJoin(pieces[1..], sep);
      SplitCons(pieces[0], sep, Join(pieces[1..], sep));
      assert [pieces[0]] + pieces[1..] == pieces;
    }
  }

  /** `r` is `s` with whitespace removed from both ends: a slice of `s` that
      starts and ends with a non-whitespace character (or is empty) and is
      surrounded only by whitespace. */
  ghost predicate IsTrimOf(r: string, s: string) {
    exists i, j :: TrimBounds(r, s, i, j)
  }

  /** `r` is `s[i..j]`, with non-whitespace ends unless empty, and only
      whitespace before `i` and from `j` on. */
  predicate TrimBounds(r: string, s: string, i: int, j: int) {
    && 0 <= i <= j <= |s| && r == s[i..j]
    && AllWhitespace(s[..i]) && AllWhitespace(s[j..])
    && (r == [] || (!IsWhitespace(r[0]) && !IsWhitespace(r[|r| - 1])))
  }

  /** `s.strip()`: whitespace is dropped from the front, then from the back,
      one character at a time until neither end is whitespace. */
  function Strip(s: string): (r: string)
    ensures |r| <= |s|
  {
    if |s| > 0 && IsWhitespace(s[0]) then Strip(s[1..])
    else if |s| > 0 && IsWhitespace(s[|s| - 1]) then Strip(s[..|s| - 1])
    else s
  }

  /** A text is all whitespace exactly when its first character is and the
      rest is. */
  lemma AllWhitespaceFront(s: string)
    requires |s| > 0
    ensures AllWhitespace(s) <==> IsWhitespace(s[0]) && AllWhitespace(s[1..])
  {
    assert forall k :: 1 <= k < |s| ==> s[k] == s[1..][k - 1];
  }

  /** A text is all whitespace exactly when its last character is and the
      rest is. */
  lemma AllWhitespaceBack(s: string)
    requires |s| > 0
    ensures AllWhitespace(s) <==> IsWhitespace(s[|s| - 1]) && AllWhitespace(s[..|s| - 1])
  {
    assert forall k :: 0 <= k < |s| - 1 ==> s[k] == s[..|s| - 1][k];
  }

  /** Stripping leaves nothing exactly when the text is all whitespace, and
      otherwise leaves a text with non-whitespace characters at both ends. */
  lemma {:induction false} StripEnds(s: string)
    ensures Strip(s) == [] <==> AllWhitespace(s)
    ensures Strip(s) != [] ==> !IsWhitespace(Strip(s)[0]) && !IsWhitespace(Strip(s)[|Strip(s)| - 1])
    decreases |s|
  {
    if |s| > 0 && IsWhitespace(s[0]) {
      StripEnds(s[1..]);
      AllWhitespaceFront(s);
    } else if |s| > 0 && IsWhitespace(s[|s| - 1]) {
      StripEnds(s[..|s| - 1]);
      AllWhitespaceBack(s);
    }
  }

  /** The strip of `s` is a slice of `s` with only whitespace before and
      after it. */
  lemma {:induction false} StripSlice(s: string) returns (i: nat, j: nat)
    ensures i <= j <= |s| && Strip(s) == s[i..j]
    ensures AllWhitespace(s[..i]) && AllWhitespace(s[j..])
    decreases |s|
  {
    if |s| > 0 && IsWhitespace(s[0]) {
      var i', j' := StripSlice(s[1..]);
      SliceFront(s, i', j');
      i, j := i' + 1, j' + 1;
    } else if |s| > 0 && IsWhitespace(s[|s| - 1]) {
      i, j := StripSlice(s[..|s| - 1]);
      SliceBack(s, i, j);
    } else {
      i, j := 0, |s|;
      assert s[0..|s|] == s;
      assert s[..0] == [] && s[|s|..] == [];
    }
  }

  /** A whitespace-surrounded slice of `s[1..]` is one of `s` when `s[0]`
      is whitespace. */
  lemma SliceFront(s: string, i: nat, j: nat)
    requires |s| > 0 && IsWhitespace(s[0])
    requires i <= j <= |s| - 1
    requires AllWhitespace(s[1..][..i]) && AllWhitespace(s[1..][j..])
    ensures s[1..][i..j] == s[i + 1..j + 1]
    ensures AllWhitespace(s[..i + 1]) && AllWhitespace(s[j + 1..])
  {
    assert s[..i + 1][1..] == s[1..][..i];
    AllWhitespaceFront(s[..i + 1]);
    assert s[j + 1..] == s[1..][j..];
  }

  /** A whitespace-surrounded slice of `s[..|s| - 1]` is one of `s` when
      the last character of `s` is whitespace. */
  lemma SliceBack(s: string, i: nat, j: nat)
    requires |s| > 0 && IsWhitespace(s[|s| - 1])
    requires i <= j <= |s| - 1
    requires AllWhitespace(s[..|s| - 1][..i]) && AllWhitespace(s[..|s| - 1][j..])
    ensures s[..|s| - 1][i..j] == s[i..j]
    ensures AllWhitespace(s[..i]) && AllWhitespace(s[j..])
  {
    var t := s[..|s| - 1];
    assert t[..i] == s[..i];
    assert s[j..][..|s[j..]| - 1] == t[j..];
    AllWhitespaceBack(s[j..]);
  }

  /** Every character of an all-whitespace prefix is whitespace. */
  lemma InWhitespacePrefix(s: string, n: nat, k: nat)
    ensures k < n <= |s| && AllWhitespace(s[..n]) ==> IsWhitespace(s[k])
  {
    if k < n <= |s| {
      assert s[..n][k] == s[k];
    }
  }

  /** Every character of an all-whitespace suffix is whitespace. */
  lemma InWhitespaceSuffix(s: string, n: nat, k: nat)
    ensures n <= k < |s| && AllWhitespace(s[n..]) ==> IsWhitespace(s[k])
  {
    if n <= k < |s| {
      assert s[n..][k - n] == s[k];
    }
  }

  /** Strip removes exactly the surrounding whitespace. */
  lemma StripIsTrim(s: string)
    ensures IsTrimOf(Strip(s), s)
  {
    var i, j := StripSlice(s);
    StripEnds(s);
    assert TrimBounds(Strip(s), s, i, j);
  }

  /** Trimming has only one possible result, so `IsTrimOf` pins `Strip`
      down completely. */
  lemma TrimUnique(r: string, s: string)
    requires IsTrimOf(r, s)
    ensures r == Strip(s)
  {
    var i, j :| TrimBounds(r, s, i, j);
    if r == [] {
      BlankTrim(s, i, j);
    } else {
      TrimAt(s, i, j);
    }
  }

  /** An empty slice with only whitespace around it means the text is blank. */
  lemma BlankTrim(s: string, i: nat, j: nat)
    requires i == j <= |s|
    requires AllWhitespace(s[..i]) && AllWhitespace(s[j..])
    ensures Strip(s) == []
  {
    forall k | 0 <= k < |s| ensures IsWhitespace(s[k]) {
      InWhitespacePrefix(s, i, k);
      InWhitespaceSuffix(s, j, k);
    }
    StripEnds(s);
  }

  /** A slice with non-whitespace ends and only whitespace around it is the
      strip: its bounds are those `StripSlice` finds. */
  lemma TrimAt(s: string, i: nat, j: nat)
    requires i < j <= |s|
    requires AllWhitespace(s[..i]) && AllWhitespace(s[j..])
    requires !IsWhitespace(s[i]) && !IsWhitespace(s[j - 1])
    ensures s[i..j] == Strip(s)
  {
    var i', j' := StripSlice(s);
    StripBounds(s, i, i', j');
    InWhitespacePrefix(s, i', i);
    InWhitespacePrefix(s, i, i');
    InWhitespaceSuffix(s, j, j' - 1);
    InWhitespaceSuffix(s, j', j - 1);
  }

  /** When some character is not whitespace, the bounds of the strip sit on
      non-whitespace characters. */
  lemma StripBounds(s: string, k: nat, i: nat, j: nat)
    requires k < |s| && !IsWhitespace(s[k])
    requires i <= j <= |s| && Strip(s) == s[i..j]
    ensures i < j && !IsWhitespace(s[i]) && !IsWhitespace(s[j - 1])
  {
    StripEnds(s);
    assert Strip(s)[0] == s[i];
  }
}
