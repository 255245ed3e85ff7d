/**
 * One PCR cycle on text: reading the DNA body of a FASTA-style file,
 * denaturing (a no-op on a single text strand), annealing a primer (a
 * substring test) and extending from the first place the primer binds.
 */
module PcrSimulator {
  import opened Wrappers
  import Seqs

  // ---------------------------------------------------------------------
  // Reading the sequence

  /** The ASCII characters Python's `str.strip()` without arguments removes:
      space, tab, line feed, vertical tab, form feed, carriage return and the
      four separators U+001C to U+001F. */
  predicate IsWhitespace(c: char) {
    c == ' ' || ('\t' <= c <= '\r') || ('\U{1C}' <= c <= '\U{1F}')
  }

  predicate StartsWith(s: string, prefix: string) {
    |prefix| <= |s| && s[..|prefix|] == prefix
  }

  /** The leading whitespace removed: a suffix of `s`, everything dropped is
      whitespace and what is left does not start with whitespace. */
  function TrimStart(s: string): (r: string)
    ensures |r| <= |s| && r == s[|s| - |r|..]
    ensures forall k :: 0 <= k < |s| - |r| ==> IsWhitespace(s[k])
    ensures r == [] || !IsWhitespace(r[0])
  {
    if |s| > 0 && IsWhitespace(s[0]) then TrimStart(s[1..]) else s
  }

  /** The trailing whitespace removed: a prefix of `s`, everything dropped is
      whitespace and what is left does not end with whitespace. */
  function TrimEnd(s: string): (r: string)
    ensures |r| <= |s| && r == s[..|r|]
    ensures forall k :: |r| <= k < |s| ==> IsWhitespace(s[k])
    ensures r == [] || !IsWhitespace(r[|r| - 1])
  {
    if |s| > 0 && IsWhitespace(s[|s| - 1]) then TrimEnd(s[..|s| - 1]) else s
  }

  /** `s[i..j]` is what is left of `s` once all leading and trailing
      whitespace is gone. */
  ghost predicate StrippedSlice(s: string, i: int, j: int) {
    && 0 <= i <= j <= |s|
    && (forall k :: 0 <= k < i ==> IsWhitespace(s[k]))
    && (forall k :: j <= k < |s| ==> IsWhitespace(s[k]))
    && (i < j ==> !IsWhitespace(s[i]) && !IsWhitespace(s[j - 1]))
  }

  /** Python's `str.strip()`. */
  function Strip(s: string): (r: string)
    ensures exists i, j :: StrippedSlice(s, i, j) && r == s[i..j]
  {
    var t := TrimStart(s);
    var r := TrimEnd(t);
    assert StrippedSlice(s, |s| - |t|, |s| - |t| + |r|) && r == s[|s| - |t|..|s| - |t| + |r|];
    r
  }

  /** The slice a strip leaves is unique: Strip is the one function with
      Strip's contract. */
  lemma StrippedSliceUnique(s: string, i: int, j: int, i': int, j': int)
    requires StrippedSlice(s, i, j) && StrippedSlice(s, i', j')
    ensures s[i..j] == s[i'..j']
  {
  }

  /** A line of the file that is not a `>` header. The test looks at the raw
      line, before any stripping. */
  predicate IsDataLine(line: string) {
    !StartsWith(line, ">")
  }

  /** `read_dna_sequence` on the lines `readlines` returned: the stripped
      non-header lines, concatenated in order. Line by line, a header adds
      nothing and every other line adds exactly its stripped text, so the
      sequence is never longer than all lines put together. */
  function ReadDnaSequence(lines: seq<string>): (dna: string)
    ensures dna == Seqs.Join(Seqs.Map(Contribution, lines))
    ensures |dna| <= |Seqs.Join(lines)|
  {
    var kept := Seqs.Filter(IsDataLine, lines);
    Seqs.JoinMapFilter(IsDataLine, Strip, Contribution, lines);
    assert forall x :: |Strip(x)| <= |x|;
    Seqs.JoinMapShorter(Strip, kept);
    Seqs.JoinFilterShorter(IsDataLine, lines);
    Seqs.Join(Seqs.Map(Strip, kept))
  }

  /** What one line adds to the sequence: nothing for a header, its stripped
      text otherwise. */
  function Contribution(line: string): (r: string)
  {
    if IsDataLine(line) then Strip(line) else ""
  }

  /** Reading two blocks of lines gives the two readings one after the
      other. */
  lemma ReadDnaSequenceAppend(a: seq<string>, b: seq<string>)
    ensures ReadDnaSequence(a + b) == ReadDnaSequence(a) + ReadDnaSequence(b)
  {
    Seqs.FilterAppend(IsDataLine, a, b);
    Seqs.MapAppend(Strip, Seqs.Filter(IsDataLine, a), Seqs.Filter(IsDataLine, b));
    Seqs.JoinAppend(Seqs.Map(Strip, Seqs.Filter(IsDataLine, a)), Seqs.Map(Strip, Seqs.Filter(IsDataLine, b)));
  }

  /** A single line reads as its contribution: a header line gives the empty
      sequence, any other line its stripped text. */
  lemma ReadDnaSequenceLine(line: string)
    ensures ReadDnaSequence([line]) == Contribution(line)
    ensures StartsWith(line, ">") ==> ReadDnaSequence([line]) == ""
  {
    var parts := Seqs.Map(Contribution, [line]);
    assert parts == [Contribution(line)];
    assert Seqs.Join(parts) == parts[0] + Seqs.Join(parts[1..]);
  }

  /** Header lines may be inserted anywhere without changing the sequence. */
  lemma ReadDnaSequenceIgnoresHeader(before: seq<string>, header: string, after: seq<string>)
    requires StartsWith(header, ">")
    ensures ReadDnaSequence(before + [header] + after) == ReadDnaSequence(before + after)
  {
    ReadDnaSequenceAppend(before + [header], after);
    ReadDnaSequenceAppend(before, [header]);
    ReadDnaSequenceAppend(before, after);
    ReadDnaSequenceLine(header);
  }

  /** Stripping a core padded with whitespace on both sides gives the core,
      provided the core itself neither starts nor ends with whitespace. */
  lemma StripPadded(pre: string, core: string, post: string)
    requires forall k :: 0 <= k < |pre| ==> IsWhitespace(pre[k])
    requires forall k :: 0 <= k < |post| ==> IsWhitespace(post[k])
    requires core != [] && !IsWhitespace(core[0]) && !IsWhitespace(core[|core| - 1])
    ensures Strip(pre + core + post) == core
  {
    var s := pre + core + post;
    var i, j := |pre|, |pre| + |core|;
    assert s[i..j] == core;
    assert StrippedSlice(s, i, j) by {
      assert forall k :: 0 <= k < i ==> s[k] == pre[k];
      assert forall k :: j <= k < |s| ==> s[k] == post[k - j];
    }
    var i', j' :| StrippedSlice(s, i', j') && Strip(s) == s[i'..j'];
    StrippedSliceUnique(s, i, j, i', j');
  }

  /** Only a `>` in the first column makes a header: an indented `>x` is a
      data line and contributes `>x`. */
  lemma IndentedHeaderIsData()
    ensures ReadDnaSequence(["  >x\n"]) == ">x"
  {
    assert "  >x\n" == "  " + ">x" + "\n";
    StripPadded("  ", ">x", "\n");
    ReadDnaSequenceLine("  >x\n");
  }

  /** Three lines read as their three contributions, one after the other. */
  lemma ReadDnaSequenceThreeLines(a: string, b: string, c: string)
    ensures ReadDnaSequence([a, b, c]) == Contribution(a) + Contribution(b) + Contribution(c)
  {
    ReadDnaSequenceLine(a);
    ReadDnaSequenceLine(b);
    ReadDnaSequenceLine(c);
    assert [a, b, c] == [a] + [b] + [c];
    ReadDnaSequenceAppend([a] + [b], [c]);
    ReadDnaSequenceAppend([a], [b]);
  }

  /** A header followed by two data lines: the header is dropped, each data
      line loses its surrounding whitespace, inner spaces stay. */
  lemma ReadDnaSequenceExample()
    ensures ReadDnaSequence([">chr1\n", "AC GT\n", "  TT  \n"]) == "AC GTTT"
  {
    ReadDnaSequenceThreeLines(">chr1\n", "AC GT\n", "  TT  \n");
    assert Contribution(">chr1\n") == "";
    ExampleLineInnerSpace();
    ExampleLinePadded();
  }

  lemma ExampleLineInnerSpace()
    ensures Contribution("AC GT\n") == "AC GT"
  {
    var d := "AC GT\n";
    assert d == "" + "AC GT" + "\n" by {
      assert forall k :: 0 <= k < 6 ==> d[k] == ("" + "AC GT" + "\n")[k];
    }
    StripPadded("", "AC GT", "\n");
  }

  lemma ExampleLinePadded()
    ensures Contribution("  TT  \n") == "TT"
  {
    var d := "  TT  \n";
    assert d == "  " + "TT" + "  \n" by {
      assert forall k :: 0 <= k < 7 ==> d[k] == ("  " + "TT" + "  \n")[k];
    }
    StripPadded("  ", "TT", "  \n");
  }

  // ---------------------------------------------------------------------
  // One cycle

  /** `denature`: a text strand is already single-stranded, so the DNA is
      returned as it is. */
  function Denature(dna: string): (r: string)
    ensures r == dna
  {
    dna
  }

  /** The primer sits in `dna` starting at index `i`. */
  predicate OccursAt(dna: string, primer: string, i: int) {
    0 <= i && i + |primer| <= |dna| && dna[i..i + |primer|] == primer
  }

  /** An occurrence at index 0 is a prefix, and the occurrences in `dna[1..]`
      are those in `dna` from index 1 on, one place to the left. */
  lemma OccursAtShift(dna: string, primer: string)
    ensures OccursAt(dna, primer, 0) <==> StartsWith(dna, primer)
    ensures |dna| == 0 ==> forall i :: OccursAt(dna, primer, i) ==> i == 0
    ensures |dna| > 0 ==> forall i :: 0 <= i ==> (OccursAt(dna[1..], primer, i) <==> OccursAt(dna, primer, i + 1))
    ensures |dna| > 0 ==> forall j :: 1 <= j ==> (OccursAt(dna, primer, j) <==> OccursAt(dna[1..], primer, j - 1))
  {
    if |dna| > 0 {
      forall i | 0 <= i ensures OccursAt(dna[1..], primer, i) <==> OccursAt(dna, primer, i + 1) {
        if 0 <= i && i + |primer| <= |dna| - 1 {
          assert dna[1..][i..i + |primer|] == dna[i + 1..i + 1 + |primer|];
        }
      }
      forall j | 1 <= j ensures OccursAt(dna, primer, j) <==> OccursAt(dna[1..], primer, j - 1) {
        assert OccursAt(dna[1..], primer, j - 1) <==> OccursAt(dna, primer, j - 1 + 1);
      }
    }
  }

  /** `anneal_primer`: Python's `primer in dna`, a substring test. It holds
      exactly when the primer occurs at some index of `dna`; the empty primer
      occurs in every string. */
  function AnnealPrimer(dna: string, primer: string): (r: bool)
    ensures r <==> exists i :: OccursAt(dna, primer, i)
  {
    OccursAtShift(dna, primer);
    StartsWith(dna, primer) || (|dna| > 0 && AnnealPrimer(dna[1..], primer))
  }

  /** Python's `dna.find(primer, from)`: the least index from `from` on at
      which the primer occurs, or -1 when it occurs at none. */
  function FindFrom(dna: string, primer: string, from: nat): (r: int)
    decreases |dna| + 1 - from
    ensures r == -1 || (from <= r && OccursAt(dna, primer, r))
    ensures r == -1 ==> forall i :: from <= i ==> !OccursAt(dna, primer, i)
    ensures r != -1 ==> forall i :: from <= i < r ==> !OccursAt(dna, primer, i)
  {
    if from + |primer| > |dna| then -1
    else if dna[from..from + |primer|] == primer then from
    else FindFrom(dna, primer, from + 1)
  }

  /** Python's `dna.find(primer)`. */
  function Find(dna: string, primer: string): (r: int)
    ensures r == -1 <==> forall i :: !OccursAt(dna, primer, i)
    ensures r != -1 ==> FirstOccurrence(dna, primer, r)
  {
    FindFrom(dna, primer, 0)
  }

  /** `start` is the least index at which the primer occurs in `dna`. */
  predicate FirstOccurrence(dna: string, primer: string, start: int) {
    OccursAt(dna, primer, start) && forall i :: 0 <= i < start ==> !OccursAt(dna, primer, i)
  }

  /** The text `extend` returns when the primer does not bind. */
  const NotFound: string := "Primer not found in sequence"

  /** `extend` with the failure made explicit: the suffix of `dna` from the
      first place the primer occurs, or None exactly when the primer does not
      anneal. */
  function ExtendOrNone(primer: string, dna: string): (r: Option<string>)
    ensures r.None? <==> !AnnealPrimer(dna, primer)
    ensures r.Some? ==> FirstOccurrence(dna, primer, Find(dna, primer)) && r.value == dna[Find(dna, primer)..]
  {
    var start := Find(dna, primer);
    if start != -1 then Some(dna[start..]) else None
  }

  /** `extend(primer, dna)` as written. When the primer anneals, the strand
      from the least index `start` where it occurs (the index `find`
      returns): a suffix of `dna` that begins with the primer and is
      |dna| - start long. Otherwise the sentinel text. */
  function Extend(primer: string, dna: string): (r: string)
    ensures AnnealPrimer(dna, primer) ==>
              var start := Find(dna, primer);
              && FirstOccurrence(dna, primer, start)
              && r == dna[start..]
              && |r| == |dna| - start
              && StartsWith(r, primer)
    ensures !AnnealPrimer(dna, primer) ==> r == NotFound
  {
    match ExtendOrNone(primer, dna)
    case Some(strand) =>
      var start := Find(dna, primer);
      assert dna[start..][..|primer|] == dna[start..start + |primer|];
      strand
    case None => NotFound
  }

  /** `extend` returns the sentinel exactly when the primer does not anneal,
      provided `dna` does not itself end in the sentinel text. */
  lemma ExtendAgreesWithAnneal(primer: string, dna: string)
    requires !(|NotFound| <= |dna| && dna[|dna| - |NotFound|..] == NotFound)
    ensures Extend(primer, dna) == NotFound <==> !AnnealPrimer(dna, primer)
  {
  }

  /** The exact condition: `extend` returns the sentinel text when the primer
      does not anneal, and also when the strand from the first occurrence of
      the primer on is that very text. */
  lemma ExtendSentinelExact(primer: string, dna: string)
    ensures Extend(primer, dna) == NotFound <==>
            !AnnealPrimer(dna, primer) || dna[Find(dna, primer)..] == NotFound
  {
  }

  /** The sentinel is in-band: a strand that ends in the sentinel text and
      contains the primer there extends to the sentinel although the primer
      anneals. */
  lemma ExtendSentinelCollision()
    ensures AnnealPrimer(NotFound, "Primer")
    ensures Extend("Primer", NotFound) == NotFound
  {
    assert OccursAt(NotFound, "Primer", 0);
    assert Find(NotFound, "Primer") == 0;
  }

  /** The empty primer anneals everywhere and extends to the whole strand. */
  lemma ExtendEmptyPrimer(dna: string)
    ensures AnnealPrimer(dna, "")
    ensures Find(dna, "") == 0
    ensures Extend("", dna) == dna
  {
    assert OccursAt(dna, "", 0);
  }
}
