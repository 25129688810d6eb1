/**
 `parse_epitopes`: raw text to an ordered list of epitopes, or the list of
 offending tokens.  The separator is chosen once for the whole text (comma
 if there is any comma, line break otherwise); each piece is stripped, empty
 pieces are dropped, and a single invalid token rejects the whole input.
 */
module Parser {
  import opened Text
  import opened Alphabet

  /** What parsing yields: the accepted epitopes in encounter order, or the
      rejected tokens in encounter order (the source raises `ValueError`). */
  datatype ParseResult =
    | Epitopes(epitopes: seq<string>)
    | InvalidSequences(invalid: seq<string>)

  /** The separator used for the whole text. */
  function Separator(text: string): char {
    if ',' in text then ',' else '\n'
  }

  /** The pieces the text is split into, before stripping. */
  function RawPieces(text: string): (pieces: seq<string>)
    ensures |pieces| >= 1
    ensures forall k :: 0 <= k < |pieces| ==> Separator(text) !in pieces[k]
  {
    Split(text, Separator(text))
  }

  /** The non-empty stripped pieces, in order. */
  function Tokens(pieces: seq<string>): (ts: seq<string>)
    ensures |ts| <= |pieces|
    ensures forall k :: 0 <= k < |ts| ==> ts[k] != []
  {
    if pieces == [] then []
    else
      var t := Strip(pieces[|pieces| - 1]);
      Tokens(pieces[..|pieces| - 1]) + (if t == [] then [] else [t])
  }

  /** The valid tokens, in order. */
  function Accepted(ts: seq<string>): (acc: seq<string>)
    ensures forall k :: 0 <= k < |acc| ==> IsValidEpitope(acc[k])
  {
    if ts == [] then []
    else
      var t := ts[|ts| - 1];
      Accepted(ts[..|ts| - 1]) + (if IsValidEpitope(t) then [t] else [])
  }

  /** The invalid tokens, in order. */
  function Rejected(ts: seq<string>): (rej: seq<string>)
    ensures forall k :: 0 <= k < |rej| ==> !IsValidEpitope(rej[k])
  {
    if ts == [] then []
    else
      var t := ts[|ts| - 1];
      Rejected(ts[..|ts| - 1]) + (if IsValidEpitope(t) then [] else [t])
  }

  /** The result of `parse_epitopes(text)`. */
  function Parse(text: string): (r: ParseResult)
    ensures r.Epitopes? ==> forall k :: 0 <= k < |r.epitopes| ==> IsValidEpitope(r.epitopes[k])
    ensures r.InvalidSequences? ==> |r.invalid| > 0
    ensures r.InvalidSequences? ==> forall k :: 0 <= k < |r.invalid| ==> !IsValidEpitope(r.invalid[k])
  {
    var ts := Tokens(RawPieces(text));
    var bad := Rejected(ts);
    if |bad| > 0 then InvalidSequences(bad) else Epitopes(Accepted(ts))
  }

  /** The parse succeeds exactly when every token is valid, and then it
      returns all tokens, each non-empty, in encounter order. */
  lemma ParseAccepts(text: string)
    ensures Parse(text).Epitopes? ==>
      forall k :: 0 <= k < |Tokens(RawPieces(text))| ==> IsValidEpitope(Tokens(RawPieces(text))[k])
    ensures (forall k :: 0 <= k < |Tokens(RawPieces(text))| ==> IsValidEpitope(Tokens(RawPieces(text))[k]))
      ==> Parse(text).Epitopes?
    ensures Parse(text).Epitopes? ==> Parse(text).epitopes == Tokens(RawPieces(text))
    ensures Parse(text).Epitopes? ==> forall k :: 0 <= k < |Parse(text).epitopes| ==>
      Parse(text).epitopes[k] != []
  {
    var ts := Tokens(RawPieces(text));
    RejectedEmpty(ts);
    if Rejected(ts) == [] {
      assert Parse(text) == Epitopes(Accepted(ts));
    } else {
      assert Parse(text) == InvalidSequences(Rejected(ts));
    }
  }

  /** No rejected token means every token is valid and all are accepted. */
  lemma {:induction false} RejectedEmpty(ts: seq<string>)
    ensures Rejected(ts) == [] <==> forall k :: 0 <= k < |ts| ==> IsValidEpitope(ts[k])
    ensures Rejected(ts) == [] ==> Accepted(ts) == ts
  {
    if ts != [] {
      var init := ts[..|ts| - 1];
      RejectedEmpty(init);
      assert init + [ts[|ts| - 1]] == ts;
      assert forall k :: 0 <= k < |init| ==> init[k] == ts[k];
    }
  }

  /** Every token lands in exactly one of the two lists, and together they
      hold exactly the tokens. */
  lemma Partition(ts: seq<string>)
    ensures multiset(Accepted(ts)) + multiset(Rejected(ts)) == multiset(ts)
    ensures forall t :: t in ts ==> (t in Accepted(ts) <==> IsValidEpitope(t))
    ensures forall t :: t in ts ==> (t in Rejected(ts) <==> !IsValidEpitope(t))
    ensures forall t :: t in Accepted(ts) || t in Rejected(ts) ==> t in ts
  {
    PartitionCount(ts);
    var acc, rej := Accepted(ts), Rejected(ts);
    forall t ensures t in ts <==> t in acc || t in rej {
      assert t in ts <==> t in multiset(ts);
      assert t in acc <==> t in multiset(acc);
      assert t in rej <==> t in multiset(rej);
    }
  }

  /** The two lists together are a permutation of the tokens. */
  lemma {:induction false} PartitionCount(ts: seq<string>)
    ensures multiset(Accepted(ts)) + multiset(Rejected(ts)) == multiset(ts)
  {
    if ts != [] {
      var init := ts[..|ts| - 1];
      var t := ts[|ts| - 1];
      PartitionCount(init);
      FilterStep(init, t);
      assert init + [t] == ts;
    }
  }

  /** Every piece is whitespace only. */
  predicate AllBlank(pieces: seq<string>) {
    forall k :: 0 <= k < |pieces| ==> AllWhitespace(pieces[k])
  }

  /** Every character is whitespace or the separator. */
  predicate BlankOrSeparator(s: string, sep: char) {
    forall k :: 0 <= k < |s| ==> IsWhitespace(s[k]) || s[k] == sep
  }

  lemma AllBlankCons(p: string, rest: seq<string>)
    ensures AllBlank([p] + rest) <==> AllWhitespace(p) && AllBlank(rest)
  {
    var ps := [p] + rest;
    assert ps[0] == p;
    if AllBlank(ps) {
      forall k | 0 <= k < |rest| ensures AllWhitespace(rest[k]) {
        assert ps[k + 1] == rest[k];
      }
    }
    if AllWhitespace(p) && AllBlank(rest) {
      forall k | 0 <= k < |ps| ensures AllWhitespace(ps[k]) {
        if k > 0 {
          assert ps[k] == rest[k - 1];
        }
      }
    }
  }

  lemma BlankOrSeparatorFront(s: string, sep: char)
    requires |s| > 0
    ensures BlankOrSeparator(s, sep) <==>
      (IsWhitespace(s[0]) || s[0] == sep) && BlankOrSeparator(s[1..], sep)
  {
    assert forall k :: 1 <= k < |s| ==> s[k] == s[1..][k - 1];
  }

  /** Splitting gives only whitespace pieces exactly when every character of
      the text is whitespace or the separator. */
  lemma {:induction false} SplitAllWhitespace(s: string, sep: char)
    ensures AllBlank(Split(s, sep)) <==> BlankOrSeparator(s, sep)
    decreases |s|
  {
    if |s| > 0 {
      var rest := Split(s[1..], sep);
      SplitAllWhitespace(s[1..], sep);
      BlankOrSeparatorFront(s, sep);
      if s[0] == sep {
        AllBlankCons("", rest);
      } else {
        var p0 := [s[0]] + rest[0];
        AllBlankCons(p0, rest[1..]);
        AllBlankCons(rest[0], rest[1..]);
        assert rest == [rest[0]] + rest[1..];
        assert p0[1..] == rest[0];
        AllWhitespaceFront(p0);
      }
    }
  }

  /** No token survives exactly when every piece is whitespace. */
  lemma TokensEmpty(pieces: seq<string>)
    ensures Tokens(pieces) == [] <==> AllBlank(pieces)
  {
    TokensNone(pieces);
    forall k | 0 <= k < |pieces| ensures Strip(pieces[k]) == [] <==> AllWhitespace(pieces[k]) {
      StripEnds(pieces[k]);
    }
  }

  /** No token survives exactly when every piece strips to nothing. */
  lemma {:induction false} TokensNone(pieces: seq<string>)
    ensures Tokens(pieces) == [] <==> forall k :: 0 <= k < |pieces| ==> Strip(pieces[k]) == []
  {
    if pieces != [] {
      var init := pieces[..|pieces| - 1];
      var p := pieces[|pieces| - 1];
      TokensNone(init);
      assert Tokens(pieces) == [] <==> Tokens(init) == [] && Strip(p) == [] by {
        assert Tokens(pieces) == Tokens(init) + (if Strip(p) == [] then [] else [Strip(p)]);
      }
      if Tokens(pieces) == [] {
        forall k | 0 <= k < |pieces| ensures Strip(pieces[k]) == [] {
          if k < |init| {
            assert pieces[k] == init[k];
          }
        }
      } else {
        if Tokens(init) != [] {
          var k :| 0 <= k < |init| && Strip(init[k]) != [];
          assert pieces[k] == init[k];
        }
      }
    }
  }

  /** Parsing finds no epitope and no invalid token exactly when the text
      consists of whitespace and separators only (for instance a blank text
      or ",,,"): the case the caller reports as "no valid epitopes". */
  lemma ParseFindsNothing(text: string)
    ensures Parse(text) == Epitopes([]) <==> BlankOrSeparator(text, Separator(text))
  {
    var ts := Tokens(RawPieces(text));
    SplitAllWhitespace(text, Separator(text));
    TokensEmpty(RawPieces(text));
    RejectedEmpty(ts);
    assert Parse(text) == Epitopes([]) <==> ts == [] by {
      if ts == [] {
        assert Rejected(ts) == [] && Accepted(ts) == [];
      }
    }
  }

  /** All-or-nothing: one invalid token anywhere rejects the whole input,
      and the rejection lists it. */
  lemma AllOrNothing(text: string, t: string)
    requires t in Tokens(RawPieces(text))
    requires !IsValidEpitope(t)
    ensures Parse(text).InvalidSequences?
    ensures t in Parse(text).invalid
  {
    Partition(Tokens(RawPieces(text)));
  }

  /** The separator choice is whole-input: when the text has any comma, a
      token that still holds a line break is rejected. */
  lemma CommaModeKeepsLineBreaks(text: string, t: string)
    requires ',' in text
    requires t in Tokens(RawPieces(text))
    requires '\n' in t
    ensures Parse(text).InvalidSequences?
    ensures t in Parse(text).invalid
  {
    if IsValidEpitope(t) {
      ValidEpitopeIsPlain(t);
    }
    AllOrNothing(text, t);
  }

  /** The comma wins for the whole text: in `a` line break `b` comma `c`, with
      valid epitopes `a`, `b` and `c`, the text splits at the comma only, so
      `a` and `b` stay together in one token holding a line break, and that
      token alone fails the parse. */
  lemma MixedSeparators(a: string, b: string, c: string)
    requires a != [] && b != [] && c != []
    requires IsValidEpitope(a) && IsValidEpitope(b) && IsValidEpitope(c)
    ensures Parse((a + "\n" + b) + [','] + c) == InvalidSequences([a + "\n" + b])
  {
    var ab := a + "\n" + b;
    var text := ab + [','] + c;
    MixedPieces(a, b, c);
    JoinedStrip(a, b);
    ValidEpitopeIsPlain(c);
    TokensSnoc([], ab);
    assert [] + [ab] == [ab];
    TokensSnoc([ab], c);
    assert !IsValidEpitope(ab) by {
      assert ab[|a|] == '\n';
      if IsValidEpitope(ab) {
        AminoAcidIsPlain(ab[|a|]);
      }
    }
    FilterStep([], ab);
    FilterStep([ab], c);
    assert Rejected([ab, c]) == [ab];
  }

  /** The mixed text has a comma, and splitting at it gives the two sides. */
  lemma MixedPieces(a: string, b: string, c: string)
    requires IsValidEpitope(a) && IsValidEpitope(b) && IsValidEpitope(c)
    ensures RawPieces((a + "\n" + b) + [','] + c) == [a + "\n" + b, c]
  {
    var ab := a + "\n" + b;
    var text := ab + [','] + c;
    ValidEpitopeIsPlain(a);
    ValidEpitopeIsPlain(b);
    ValidEpitopeIsPlain(c);
    assert text[|ab|] == ',';
    assert ',' !in ab by {
      forall k | 0 <= k < |ab| ensures ab[k] != ',' {
        if k < |a| {
          assert ab[k] == a[k];
        } else if k > |a| {
          assert ab[k] == b[k - |a| - 1];
        }
      }
    }
    SplitNone(c, ',');
    SplitCons(ab, ',', c);
  }

  /** Joining two valid epitopes with a line break leaves nothing to strip:
      the joined text starts and ends with an alphabet letter. */
  lemma JoinedStrip(a: string, b: string)
    requires a != [] && b != []
    requires IsValidEpitope(a) && IsValidEpitope(b)
    ensures Strip(a + "\n" + b) == a + "\n" + b
  {
    var ab := a + "\n" + b;
    AminoAcidIsPlain(a[0]);
    AminoAcidIsPlain(b[|b| - 1]);
    assert ab[0] == a[0] && ab[|ab| - 1] == b[|b| - 1];
    assert ab[..0] == [] && ab[|ab|..] == [];
    TrimAt(ab, 0, |ab|);
    assert ab[0..|ab|] == ab;
  }

  /** A joined text holds only the pieces' characters and the separator. */
  lemma {:induction false} JoinChars(pieces: seq<string>, sep: char, c: char)
    requires c != sep
    requires forall k :: 0 <= k < |pieces| ==> c !in pieces[k]
    ensures c !in Join(pieces, sep)
    decreases |pieces|
  {
    if |pieces| > 1 {
      JoinChars(pieces[1..], sep, c);
    }
  }

  /** Tokenising pieces that are already non-empty valid epitopes leaves
      them unchanged. */
  lemma {:induction false} TokensOfEpitopes(es: seq<string>)
    requires forall k :: 0 <= k < |es| ==> es[k] != [] && IsValidEpitope(es[k])
    ensures Tokens(es) == es
  {
    if es != [] {
      var init := es[..|es| - 1];
      var e := es[|es| - 1];
      assert init + [e] == es;
      assert forall k :: 0 <= k < |init| ==> init[k] == es[k];
      TokensOfEpitopes(init);
      ValidEpitopeIsPlain(e);
      TokensSnoc(init, e);
    }
  }

  /** A piece that is its own non-empty strip becomes the next token. */
  lemma TokensSnoc(pieces: seq<string>, p: string)
    requires p != [] && Strip(p) == p
    ensures Tokens(pieces + [p]) == Tokens(pieces) + [p]
  {
    assert (pieces + [p])[..|pieces|] == pieces;
  }

  /** Joining no epitopes gives the empty text, which parses to no epitopes. */
  lemma ParseEmpty(sep: char)
    ensures Parse(Join([], sep)) == Epitopes([])
  {
    assert Strip("") == "";
    assert Tokens([""]) == [];
  }

  /** Re-reading epitopes written one per line gives them back, in order and
      with their case. */
  lemma ParseLines(es: seq<string>)
    requires forall k :: 0 <= k < |es| ==> es[k] != [] && IsValidEpitope(es[k])
    ensures Parse(Join(es, '\n')) == Epitopes(es)
  {
    if es == [] {
      ParseEmpty('\n');
    } else {
      LinePieces(es);
      ParsePieces(Join(es, '\n'), es);
    }
  }

  /** Re-reading epitopes written comma-separated gives them back too. */
  lemma ParseCommaList(es: seq<string>)
    requires forall k :: 0 <= k < |es| ==> es[k] != [] && IsValidEpitope(es[k])
    ensures Parse(Join(es, ',')) == Epitopes(es)
  {
    if es == [] {
      ParseEmpty(',');
    } else {
      CommaPieces(es);
      ParsePieces(Join(es, ','), es);
    }
  }

  /** Valid epitopes joined by line breaks hold no comma, so they are split
      back at line breaks. */
  lemma LinePieces(es: seq<string>)
    requires |es| >= 1
    requires forall k :: 0 <= k < |es| ==> IsValidEpitope(es[k])
    ensures RawPieces(Join(es, '\n')) == es
  {
    forall k | 0 <= k < |es| ensures ',' !in es[k] && '\n' !in es[k] {
      ValidEpitopeIsPlain(es[k]);
    }
    JoinChars(es, '\n', ',');
    SplitJoin(es, '\n');
  }

  /** Valid epitopes joined by commas are split back at commas; a single
      one holds no separator at all and is its own piece. */
  lemma CommaPieces(es: seq<string>)
    requires |es| >= 1
    requires forall k :: 0 <= k < |es| ==> IsValidEpitope(es[k])
    ensures RawPieces(Join(es, ',')) == es
  {
    forall k | 0 <= k < |es| ensures ',' !in es[k] && '\n' !in es[k] {
      ValidEpitopeIsPlain(es[k]);
    }
    if |es| == 1 {
      SplitNone(es[0], '\n');
    } else {
      assert Join(es, ',')[|es[0]|] == ',';
      SplitJoin(es, ',');
    }
  }

  /** A text whose pieces are valid non-empty epitopes parses to them. */
  lemma ParsePieces(text: string, es: seq<string>)
    requires RawPieces(text) == es
    requires forall k :: 0 <= k < |es| ==> es[k] != [] && IsValidEpitope(es[k])
    ensures Parse(text) == Epitopes(es)
  {
    TokensOfEpitopes(es);
    RejectedEmpty(es);
  }

  /** One more piece adds its stripped form to the tokens, unless empty. */
  lemma TokensStep(pieces: seq<string>, i: nat)
    requires i < |pieces|
    ensures Tokens(pieces[..i + 1]) ==
      Tokens(pieces[..i]) + (if Strip(pieces[i]) == [] then [] else [Strip(pieces[i])])
  {
    assert pieces[..i + 1][..i] == pieces[..i];
  }

  /** One more token goes to exactly one of the two lists. */
  lemma FilterStep(ts: seq<string>, t: string)
    ensures Accepted(ts + [t]) == Accepted(ts) + (if IsValidEpitope(t) then [t] else [])
    ensures Rejected(ts + [t]) == Rejected(ts) + (if IsValidEpitope(t) then [] else [t])
  {
    assert (ts + [t])[..|ts|] == ts;
  }

  /** The effect of one more piece on the two lists. */
  lemma ParseStep(pieces: seq<string>, i: nat)
    requires i < |pieces|
    ensures var t := Strip(pieces[i]);
      Accepted(Tokens(pieces[..i + 1])) ==
        Accepted(Tokens(pieces[..i])) + (if t != [] && IsValidEpitope(t) then [t] else [])
    ensures var t := Strip(pieces[i]);
      Rejected(Tokens(pieces[..i + 1])) ==
        Rejected(Tokens(pieces[..i])) + (if t != [] && !IsValidEpitope(t) then [t] else [])
  {
    TokensStep(pieces, i);
    var t := Strip(pieces[i]);
    var ts := Tokens(pieces[..i]);
    if t != [] {
      assert Tokens(pieces[..i + 1]) == ts + [t];
      FilterStep(ts, t);
    } else {
      assert Tokens(pieces[..i + 1]) == ts;
    }
  }

  /** `parse_epitopes` as written: one pass over the pieces, appending each
      non-empty stripped piece to the accepted or the invalid list. */
  method ParseEpitopes(text: string) returns (r: ParseResult)
    ensures r == Parse(text)
  {
    var pieces := RawPieces(text);
    var epitopes: seq<string> := [];
    var invalid: seq<string> := [];
    var i := 0;
    while i < |pieces|
      invariant 0 <= i <= |pieces|
      invariant epitopes == Accepted(Tokens(pieces[..i]))
      invariant invalid == Rejected(Tokens(pieces[..i]))
    {
      ParseStep(pieces, i);
      var epitope := Strip(pieces[i]);
      if epitope != [] {
        if !IsValidEpitope(epitope) {
          invalid := invalid + [epitope];
        } else {
          epitopes := epitopes + [epitope];
        }
      }
      i := i + 1;
    }
    assert pieces[..|pieces|] == pieces;
    if |invalid| > 0 {
      r := InvalidSequences(invalid);
    } else {
      r := Epitopes(epitopes);
    }
  }

  /** How the rejection is reported: the first five offending tokens, and
      how many more there are (0 when there are no more). */
  datatype InvalidReport = InvalidReport(shown: seq<string>, more: nat)

  /** How many offending tokens the report lists. */
  const ShownLimit: nat := 5

  /** The report built from the rejected tokens. */
  function Report(invalid: seq<string>): (r: InvalidReport)
    ensures |r.shown| <= ShownLimit && |r.shown| <= |invalid|
    ensures r.shown == invalid[..|r.shown|]
    ensures |r.shown| + r.more == |invalid|
    ensures r.more > 0 <==> |invalid| > ShownLimit
    ensures |r.shown| == ShownLimit || r.shown == invalid
  {
    if |invalid| > ShownLimit then InvalidReport(invalid[..ShownLimit], |invalid| - ShownLimit)
    else InvalidReport(invalid, 0)
  }
}
