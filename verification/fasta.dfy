/**
 The FASTA writer: record `i` (counting from 1) is the header line `>seq<i>`
 followed by the epitope on its own line, each line ending in a line break.
 */
module Fasta {
  import opened Text

  /** The character of a decimal digit. */
  function DigitChar(d: nat): (c: char)
    requires d < 10
    ensures '0' <= c <= '9'
  {
    (48 + d) as char
  }

  /** The value of a decimal digit character. */
  function DigitValue(c: char): (d: nat)
    requires '0' <= c <= '9'
    ensures d < 10 && DigitChar(d) == c
  {
    c as int - 48
  }

  predicate AllDigits(s: string) {
    forall k :: 0 <= k < |s| ==> '0' <= s[k] <= '9'
  }

  /** `str(n)`: the decimal numeral of `n`, without leading zeros. */
  function Decimal(n: nat): (s: string)
    ensures |s| >= 1 && AllDigits(s)
    ensures n > 0 ==> s[0] != '0'
  {
    if n < 10 then [DigitChar(n)] else Decimal(n / 10) + [DigitChar(n % 10)]
  }

  /** The number a decimal numeral denotes. */
  function DecimalValue(s: string): nat
    requires AllDigits(s)
  {
    if s == [] then 0 else 10 * DecimalValue(s[..|s| - 1]) + DigitValue(s[|s| - 1])
  }

  /** Reading the numeral back gives the number. */
  lemma {:induction false} DecimalRoundTrip(n: nat)
    ensures DecimalValue(Decimal(n)) == n
  {
    if n >= 10 {
      DecimalRoundTrip(n / 10);
      var s := Decimal(n);
      assert s[..|s| - 1] == Decimal(n / 10);
    } else {
      assert Decimal(n)[..0] == [];
    }
  }

  /** The header line of record `i`, without its line break. */
  function Header(i: nat): string {
    ">seq" + Decimal(i)
  }

  /** A header holds no line break, starts with `>seq`, and the rest of it
      reads back as the record number. */
  lemma HeaderShape(i: nat)
    ensures '\n' !in Header(i)
    ensures Header(i)[..4] == ">seq"
    ensures AllDigits(Header(i)[4..]) && DecimalValue(Header(i)[4..]) == i
  {
    var h := Header(i);
    assert h[4..] == Decimal(i);
    DecimalRoundTrip(i);
    forall k | 4 <= k < |h| ensures h[k] != '\n' {
      assert h[k] == Decimal(i)[k - 4];
    }
  }

  /** One record: `>seq{i}\n{epitope}\n`. */
  function Record(i: nat, epitope: string): string {
    Header(i) + "\n" + epitope + "\n"
  }

  /** The records of `es`, numbered from `first`. */
  function FastaFrom(es: seq<string>, first: nat): (text: string)
    decreases |es|
  {
    if es == [] then "" else Record(first, es[0]) + FastaFrom(es[1..], first + 1)
  }

  /** The FASTA text of an epitope list, numbered from 1. */
  function ToFasta(es: seq<string>): string {
    FastaFrom(es, 1)
  }

  /** Appending an epitope appends its record with the next number. */
  lemma {:induction false} FastaSnoc(es: seq<string>, e: string, first: nat)
    ensures FastaFrom(es + [e], first) == FastaFrom(es, first) + Record(first + |es|, e)
    decreases |es|
  {
    if es == [] {
      assert [e][1..] == [];
    } else {
      assert (es + [e])[1..] == es[1..] + [e];
      FastaSnoc(es[1..], e, first + 1);
    }
  }

  /** The write loop of the source: one record per epitope, numbered by
      `enumerate(epitopes, start=1)`, appended to the output in order. */
  method WriteFasta(epitopes: seq<string>) returns (out: string)
    ensures out == ToFasta(epitopes)
  {
    out := "";
    for i := 0 to |epitopes|
      invariant out == ToFasta(epitopes[..i])
    {
      assert epitopes[..i + 1] == epitopes[..i] + [epitopes[i]];
      FastaSnoc(epitopes[..i], epitopes[i], 1);
      out := out + Record(i + 1, epitopes[i]);
    }
    assert epitopes[..|epitopes|] == epitopes;
  }

  /** The lines of the records of `es` numbered from `first`, without the
      empty piece after the final line break. */
  function Lines(es: seq<string>, first: nat): (lines: seq<string>)
    ensures |lines| == 2 * |es|
    decreases |es|
  {
    if es == [] then [] else [Header(first), es[0]] + Lines(es[1..], first + 1)
  }

  /** Line `2k` is the header of record `first + k`; line `2k + 1` is epitope `k`. */
  lemma {:induction false} LinesAt(es: seq<string>, first: nat)
    ensures forall k :: 0 <= k < |es| ==>
      Lines(es, first)[2 * k + 1] == es[k] && Lines(es, first)[2 * k] == Header(first + k)
    decreases |es|
  {
    if es != [] {
      LinesAt(es[1..], first + 1);
      var ls := Lines(es, first);
      forall k | 0 <= k < |es|
        ensures ls[2 * k + 1] == es[k] && ls[2 * k] == Header(first + k)
      {
        if k > 0 {
          assert ls[2 * k] == Lines(es[1..], first + 1)[2 * (k - 1)];
          assert ls[2 * k + 1] == Lines(es[1..], first + 1)[2 * (k - 1) + 1];
          assert es[1..][k - 1] == es[k];
        }
      }
    }
  }

  /** Splitting a record followed by more text yields its header line, its
      epitope line, then the pieces of the rest. */
  lemma SplitRecord(i: nat, e: string, rest: string)
    requires '\n' !in e
    ensures Split(Record(i, e) + rest, '\n') == [Header(i), e] + Split(rest, '\n')
  {
    HeaderShape(i);
    assert Record(i, e) + rest == Header(i) + ['\n'] + (e + ['\n'] + rest);
    SplitCons(Header(i), '\n', e + ['\n'] + rest);
    SplitCons(e, '\n', rest);
  }

  /** Splitting the FASTA text at line breaks gives its lines, then one empty
      piece after the final line break, provided no epitope holds a line
      break. */
  lemma {:induction false} SplitFasta(es: seq<string>, first: nat)
    requires forall k :: 0 <= k < |es| ==> '\n' !in es[k]
    ensures Split(FastaFrom(es, first), '\n') == Lines(es, first) + [""]
    decreases |es|
  {
    if es != [] {
      SplitFasta(es[1..], first + 1);
      SplitRecord(first, es[0], FastaFrom(es[1..], first + 1));
    }
  }

  /** Every second line, starting with the second. */
  function SequenceLines(lines: seq<string>): (seqs: seq<string>)
    decreases |lines|
  {
    if |lines| < 2 then [] else [lines[1]] + SequenceLines(lines[2..])
  }

  lemma {:induction false} SequenceLinesOfLines(es: seq<string>, first: nat)
    ensures SequenceLines(Lines(es, first) + [""]) == es
    decreases |es|
  {
    if es != [] {
      SequenceLinesOfLines(es[1..], first + 1);
      var ls := Lines(es, first) + [""];
      assert ls[2..] == Lines(es[1..], first + 1) + [""];
      assert [es[0]] + es[1..] == es;
    }
  }

  /** Layout of the written text: `2n + 1` pieces when split at line breaks,
      headers `>seq1` ... `>seqn` on the even lines, the epitopes in order on
      the odd lines, and nothing after the final line break. */
  lemma FastaLayout(es: seq<string>)
    requires forall k :: 0 <= k < |es| ==> '\n' !in es[k]
    ensures |Split(ToFasta(es), '\n')| == 2 * |es| + 1
    ensures Split(ToFasta(es), '\n')[2 * |es|] == ""
    ensures forall k :: 0 <= k < |es| ==>
      Split(ToFasta(es), '\n')[2 * k + 1] == es[k] && Split(ToFasta(es), '\n')[2 * k] == Header(k + 1)
  {
    SplitFasta(es, 1);
    LinesAt(es, 1);
    var ls := Lines(es, 1);
    forall k | 0 <= k < |es|
      ensures (ls + [""])[2 * k + 1] == es[k] && (ls + [""])[2 * k] == Header(k + 1)
    {
      assert ls[2 * k + 1] == es[k] && ls[2 * k] == Header(1 + k);
    }
  }

  /** Re-reading the written text, splitting at line breaks and keeping every
      second line, recovers the epitopes in order. */
  lemma FastaRoundTrip(es: seq<string>)
    requires forall k :: 0 <= k < |es| ==> '\n' !in es[k]
    ensures SequenceLines(Split(ToFasta(es), '\n')) == es
  {
    SplitFasta(es, 1);
    SequenceLinesOfLines(es, 1);
  }

  /** The worked example: two epitopes give two records. */
  lemma FastaExample()
    ensures ToFasta(["AC", "DE"]) == ">seq1\nAC\n>seq2\nDE\n"
  {
    assert Decimal(1) == "1" && Decimal(2) == "2";
    assert ["AC", "DE"][1..] == ["DE"];
    assert ["DE"][1..] == [];
  }
}
