/** The meaning of the ORF pattern `ATG(?:[AGCT]{3})*?(?:TAG|TGA|TAA)` and of
    `re.findall` with it, stated as explicit scans over positions. */
module OrfPattern {
  import opened Dna

  datatype Option<T> = None | Some(value: T)

  /** A match of the pattern, as the half-open span [start, end) of the text. */
  datatype Match = Match(start: nat, end: nat)

  /** The three characters at `j` spell `codon`. */
  predicate CodonIs(s: string, j: int, codon: string)
    requires |codon| == 3
  {
    0 <= j && j + 3 <= |s| && s[j] == codon[0] && s[j + 1] == codon[1] && s[j + 2] == codon[2]
  }

  /** The start codon ATG begins at `j`. */
  predicate IsStartAt(s: string, j: int) {
    CodonIs(s, j, "ATG")
  }

  /** One of the stop codons TAG, TGA, TAA begins at `j`. */
  predicate IsStopAt(s: string, j: int) {
    CodonIs(s, j, "TAG") || CodonIs(s, j, "TGA") || CodonIs(s, j, "TAA")
  }

  /** `[AGCT]{3}` matches the three characters at `j`. */
  predicate IsCodonAt(s: string, j: int) {
    0 <= j && j + 3 <= |s| && IsBase(s[j]) && IsBase(s[j + 1]) && IsBase(s[j + 2])
  }

  /** `(?:[AGCT]{3})*` can consume exactly the text s[j..k]. */
  ghost predicate CodonRun(s: string, j: nat, k: nat) {
    j <= k && (k - j) % 3 == 0 &&
    forall m :: j <= m < k && (m - j) % 3 == 0 ==> IsCodonAt(s, m)
  }

  /** `(?:[AGCT]{3})*(?:TAG|TGA|TAA)` matches exactly the text s[j..e], with any
      number of codons before the stop codon. */
  ghost predicate TailMatches(s: string, j: nat, e: nat) {
    j + 3 <= e && CodonRun(s, j, e - 3) && IsStopAt(s, e - 3)
  }

  /** The pattern, read without regard to laziness, matches exactly s[i..e]. */
  ghost predicate PatternMatches(s: string, i: nat, e: nat) {
    IsStartAt(s, i) && TailMatches(s, i + 3, e)
  }

  /** A codon at `j` that is not a stop: a tail matching from `j` matches from
      `j + 3` too, and conversely. */
  lemma TailStep(s: string, j: nat, e: nat)
    requires IsCodonAt(s, j) && !IsStopAt(s, j)
    ensures TailMatches(s, j, e) <==> TailMatches(s, j + 3, e)
  {
    if TailMatches(s, j, e) {
      assert e - 3 != j;
      assert CodonRun(s, j + 3, e - 3) by {
        forall m | j + 3 <= m < e - 3 && (m - (j + 3)) % 3 == 0 ensures IsCodonAt(s, m) {
          assert (m - j) % 3 == 0;
        }
      }
    }
    if TailMatches(s, j + 3, e) {
      assert CodonRun(s, j, e - 3) by {
        forall m | j <= m < e - 3 && (m - j) % 3 == 0 ensures IsCodonAt(s, m) {
          if m != j { assert (m - (j + 3)) % 3 == 0; }
        }
      }
    }
  }

  /** The lazy `(?:[AGCT]{3})*?(?:TAG|TGA|TAA)` from `j`: at each codon boundary
      a stop codon ends the match; otherwise one more codon over [AGCT] is
      consumed; otherwise there is no match. The result is the end of the match. */
  function LazyTail(s: string, j: nat): (r: Option<nat>)
    decreases |s| - j
    ensures r.Some? ==> j + 3 <= r.value <= |s| && (r.value - j) % 3 == 0
  {
    if IsStopAt(s, j) then Some(j + 3)
    else if IsCodonAt(s, j) then LazyTail(s, j + 3)
    else None
  }

  /** The lazy tail ends at the nearest end a tail of the pattern can have:
      `*?` tries zero codons first and one more codon each time the stop
      alternative fails. When it finds nothing, no end is possible. */
  lemma {:induction false} LazyTailSpec(s: string, j: nat)
    decreases |s| - j
    ensures LazyTail(s, j).Some? ==> TailMatches(s, j, LazyTail(s, j).value)
    ensures LazyTail(s, j).Some? ==> forall e :: TailMatches(s, j, e) ==> LazyTail(s, j).value <= e
    ensures LazyTail(s, j).None? ==> forall e :: !TailMatches(s, j, e)
  {
    if IsStopAt(s, j) {
      assert TailMatches(s, j, j + 3);
    } else if IsCodonAt(s, j) {
      LazyTailSpec(s, j + 3);
      forall e | true ensures TailMatches(s, j, e) <==> TailMatches(s, j + 3, e) {
        TailStep(s, j, e);
      }
    } else {
      assert forall e :: TailMatches(s, j, e) ==> IsCodonAt(s, j) || IsStopAt(s, j);
    }
  }

  /** The match `re` finds when it tries the pattern at position `i`: the
      text from an ATG at `i` to the first stop codon in frame with it. */
  function MatchAt(s: string, i: nat): (r: Option<nat>)
    ensures r.Some? ==> i + 6 <= r.value <= |s| && (r.value - i) % 3 == 0
  {
    if IsStartAt(s, i) then LazyTail(s, i + 3) else None
  }

  /** The match taken at `i` is the shortest text the pattern matches there,
      and there is none exactly when the pattern matches no text at `i`. */
  lemma MatchAtSpec(s: string, i: nat)
    ensures MatchAt(s, i).Some? ==> PatternMatches(s, i, MatchAt(s, i).value)
    ensures MatchAt(s, i).Some? ==> forall e :: PatternMatches(s, i, e) ==> MatchAt(s, i).value <= e
    ensures MatchAt(s, i).None? ==> forall e :: !PatternMatches(s, i, e)
  {
    LazyTailSpec(s, i + 3);
  }

  /** An open reading frame as the pattern reports it: ATG, then whole codons
      over [AGCT] none of which is a stop codon, then a stop codon. */
  predicate IsOrf(x: string) {
    6 <= |x| && |x| % 3 == 0 && IsStartAt(x, 0) && IsStopAt(x, |x| - 3) &&
    forall m :: 3 <= m < |x| - 3 && m % 3 == 0 ==> IsCodonAt(x, m) && !IsStopAt(x, m)
  }

  /** A match taken at `i` is an ORF: it begins with ATG, ends with a stop
      codon, its length is a multiple of 3 and at least 6, and no stop codon
      sits at an in-frame position strictly between. */
  lemma MatchIsOrf(s: string, i: nat)
    requires MatchAt(s, i).Some?
    ensures i + 6 <= MatchAt(s, i).value <= |s|
    ensures IsOrf(s[i..MatchAt(s, i).value])
  {
    var e := MatchAt(s, i).value;
    var x := s[i..e];
    MatchAtSpec(s, i);
    forall m | 3 <= m < |x| - 3 && m % 3 == 0 ensures IsCodonAt(x, m) && !IsStopAt(x, m) {
      assert (i + m - (i + 3)) % 3 == 0;
      assert IsCodonAt(s, i + m);
      if IsStopAt(s, i + m) {
        assert CodonRun(s, i + 3, i + m) by {
          forall q | i + 3 <= q < i + m && (q - (i + 3)) % 3 == 0 ensures IsCodonAt(s, q) { }
        }
        assert PatternMatches(s, i, i + m + 3);
      }
      assert x[m] == s[i + m] && x[m + 1] == s[i + m + 1] && x[m + 2] == s[i + m + 2];
    }
    assert x[0] == s[i] && x[1] == s[i + 1] && x[2] == s[i + 2];
    assert x[|x| - 3] == s[e - 3] && x[|x| - 2] == s[e - 2] && x[|x| - 1] == s[e - 1];
  }

  /** `re.findall` from position `pos`: the leftmost match at or after `pos`
      is reported and the search resumes at its end. */
  function Scan(s: string, pos: nat): (r: seq<Match>)
    decreases |s| - pos
    ensures forall k :: 0 <= k < |r| ==> pos <= r[k].start && MatchAt(s, r[k].start) == Some(r[k].end)
    ensures forall k :: 0 < k < |r| ==> r[k - 1].end <= r[k].start
  {
    if pos >= |s| then []
    else
      match MatchAt(s, pos)
      case Some(e) => [Match(pos, e)] + Scan(s, e)
      case None => Scan(s, pos + 1)
  }

  /** No match of the pattern can start in [lo, hi). */
  ghost predicate NoMatchBetween(s: string, lo: nat, hi: nat) {
    forall p: nat :: lo <= p < hi ==> MatchAt(s, p).None?
  }

  /** Where the search that found the `k`-th match began. */
  function ResumeAt(pos: nat, ms: seq<Match>, k: nat): nat
    requires k <= |ms|
  {
    if k == 0 then pos else ms[k - 1].end
  }

  /** What `re.findall` reports when it starts searching at `pos`, stated
      without recursion: every reported span is the match taken at its start,
      it starts at or after the point where the search resumed, no match
      starts at a position the search stepped over, and none starts after the
      last reported match. */
  ghost predicate IsFindAll(s: string, pos: nat, ms: seq<Match>) {
    (forall k {:trigger ResumeAt(pos, ms, k)} :: 0 <= k < |ms| ==>
       ResumeAt(pos, ms, k) <= ms[k].start && MatchAt(s, ms[k].start) == Some(ms[k].end) &&
       NoMatchBetween(s, ResumeAt(pos, ms, k), ms[k].start)) &&
    NoMatchBetween(s, ResumeAt(pos, ms, |ms|), |s|)
  }

  /** Positions with no match are stepped over one at a time. */
  lemma {:induction false} ScanSkips(s: string, pos: nat, q: nat)
    requires pos <= q && NoMatchBetween(s, pos, q)
    ensures Scan(s, pos) == Scan(s, q)
    decreases q - pos
  {
    if pos < q && pos < |s| {
      ScanSkips(s, pos + 1, q);
    } else if pos < q {
      assert Scan(s, pos) == [] == Scan(s, q);
    }
  }

  lemma NoMatchExtend(s: string, lo: nat, hi: nat)
    requires MatchAt(s, lo).None? && NoMatchBetween(s, lo + 1, hi)
    ensures NoMatchBetween(s, lo, hi)
  {
  }

  /** A position with no match in front of a description of the search that
      starts after it. */
  lemma FindAllSkip(s: string, pos: nat, ms: seq<Match>)
    requires MatchAt(s, pos).None? && IsFindAll(s, pos + 1, ms)
    ensures IsFindAll(s, pos, ms)
  {
    assert ResumeAt(pos + 1, ms, 0) == pos + 1;
    if ms == [] {
      NoMatchExtend(s, pos, |s|);
    } else {
      assert ResumeAt(pos, ms, |ms|) == ResumeAt(pos + 1, ms, |ms|);
      forall k | 0 <= k < |ms|
        ensures ResumeAt(pos, ms, k) <= ms[k].start && MatchAt(s, ms[k].start) == Some(ms[k].end)
        ensures NoMatchBetween(s, ResumeAt(pos, ms, k), ms[k].start)
      {
        FindAllSkipAt(s, pos, ms, k);
      }
    }
  }

  lemma FindAllSkipAt(s: string, pos: nat, ms: seq<Match>, k: nat)
    requires MatchAt(s, pos).None? && IsFindAll(s, pos + 1, ms) && k < |ms|
    ensures ResumeAt(pos, ms, k) <= ms[k].start && MatchAt(s, ms[k].start) == Some(ms[k].end)
    ensures NoMatchBetween(s, ResumeAt(pos, ms, k), ms[k].start)
  {
    assert ResumeAt(pos + 1, ms, k) <= ms[k].start && MatchAt(s, ms[k].start) == Some(ms[k].end);
    assert NoMatchBetween(s, ResumeAt(pos + 1, ms, k), ms[k].start);
    if k == 0 {
      NoMatchExtend(s, pos, ms[0].start);
    }
  }

  /** A match at `pos` in front of a description of the search that resumes at
      its end. */
  lemma FindAllCons(s: string, pos: nat, e: nat, rest: seq<Match>)
    requires MatchAt(s, pos) == Some(e) && IsFindAll(s, e, rest)
    ensures IsFindAll(s, pos, [Match(pos, e)] + rest)
  {
    var ms := [Match(pos, e)] + rest;
    assert ResumeAt(pos, ms, |ms|) == ResumeAt(e, rest, |rest|);
    forall k | 0 <= k < |ms|
      ensures ResumeAt(pos, ms, k) <= ms[k].start && MatchAt(s, ms[k].start) == Some(ms[k].end)
      ensures NoMatchBetween(s, ResumeAt(pos, ms, k), ms[k].start)
    {
      if k == 0 {
        assert ms[0] == Match(pos, e) && ResumeAt(pos, ms, 0) == pos;
      } else {
        var j := k - 1;
        assert ms[k] == rest[j] && ResumeAt(pos, ms, k) == ResumeAt(e, rest, j);
        assert ResumeAt(e, rest, j) <= rest[j].start && MatchAt(s, rest[j].start) == Some(rest[j].end);
        assert NoMatchBetween(s, ResumeAt(e, rest, j), rest[j].start);
      }
    }
  }

  /** The description of a search, less its first match, describes the search
      that resumes at the end of that match. */
  lemma FindAllTail(s: string, pos: nat, ms: seq<Match>)
    requires ms != [] && IsFindAll(s, pos, ms)
    ensures IsFindAll(s, ms[0].end, ms[1..])
  {
    var e, rest := ms[0].end, ms[1..];
    assert ResumeAt(e, rest, |rest|) == ResumeAt(pos, ms, |ms|);
    forall k | 0 <= k < |rest|
      ensures ResumeAt(e, rest, k) <= rest[k].start && MatchAt(s, rest[k].start) == Some(rest[k].end)
      ensures NoMatchBetween(s, ResumeAt(e, rest, k), rest[k].start)
    {
      assert rest[k] == ms[k + 1] && ResumeAt(e, rest, k) == ResumeAt(pos, ms, k + 1);
    }
  }

  /** The scan meets the non-recursive description of `re.findall`. */
  lemma {:induction false} ScanIsFindAll(s: string, pos: nat)
    ensures IsFindAll(s, pos, Scan(s, pos))
    decreases |s| - pos
  {
    if pos >= |s| {
      assert ResumeAt(pos, [], 0) == pos;
    } else {
      match MatchAt(s, pos)
      case Some(e) =>
        ScanIsFindAll(s, e);
        FindAllCons(s, pos, e, Scan(s, e));
      case None =>
        ScanIsFindAll(s, pos + 1);
        FindAllSkip(s, pos, Scan(s, pos + 1));
    }
  }

  /** `re.findall` is determined by its description: any list of spans that
      meets it is the scan. */
  lemma {:induction false} FindAllUnique(s: string, pos: nat, ms: seq<Match>)
    requires IsFindAll(s, pos, ms)
    ensures ms == Scan(s, pos)
    decreases |ms|
  {
    if ms == [] {
      FindAllEmpty(s, pos);
    } else {
      FindAllHead(s, pos, ms);
      FindAllTail(s, pos, ms);
      FindAllUnique(s, ms[0].end, ms[1..]);
    }
  }

  /** With nothing reported, the scan from `pos` finds nothing. */
  lemma FindAllEmpty(s: string, pos: nat)
    requires IsFindAll(s, pos, [])
    ensures Scan(s, pos) == []
  {
    assert ResumeAt(pos, [], 0) == pos;
    if pos < |s| {
      ScanSkips(s, pos, |s|);
      assert Scan(s, |s|) == [];
    }
  }

  /** The first reported span is the first match of the scan from `pos`. */
  lemma FindAllHead(s: string, pos: nat, ms: seq<Match>)
    requires ms != [] && IsFindAll(s, pos, ms)
    ensures Scan(s, pos) == [ms[0]] + Scan(s, ms[0].end)
  {
    var q, e := ms[0].start, ms[0].end;
    assert ResumeAt(pos, ms, 0) == pos;
    assert pos <= q && MatchAt(s, q) == Some(e) && NoMatchBetween(s, pos, q);
    ScanSkips(s, pos, q);
    assert q < |s| by { MatchIsOrf(s, q); }
    assert Scan(s, q) == [Match(q, e)] + Scan(s, e);
  }

  /** The texts of the spans. */
  function Texts(s: string, ms: seq<Match>): (r: seq<string>)
    requires forall k :: 0 <= k < |ms| ==> ms[k].start <= ms[k].end <= |s|
  {
    seq(|ms|, k requires 0 <= k < |ms| => s[ms[k].start..ms[k].end])
  }

  /** `re.findall(regex, s)`: the texts of the matches, from position 0. */
  function FindAll(s: string): (r: seq<string>)
    ensures |r| == |Scan(s, 0)|
    ensures forall k :: 0 <= k < |r| ==> 6 <= |r[k]| && |r[k]| % 3 == 0
  {
    var ms := Scan(s, 0);
    assert forall k :: 0 <= k < |ms| ==> ms[k].start <= ms[k].end <= |s| by {
      forall k | 0 <= k < |ms| ensures ms[k].start <= ms[k].end <= |s| { MatchIsOrf(s, ms[k].start); }
    }
    Texts(s, ms)
  }

  /** The string `s[i..i + |x|]` is `x`. */
  predicate OccursAt(x: string, s: string, i: int) {
    0 <= i && i + |x| <= |s| && s[i..i + |x|] == x
  }

  /** The `k`-th string `re.findall` reports is an ORF and is the text of `s`
      at the start of the `k`-th match. */
  lemma FindAllOrfAt(s: string, k: nat)
    requires k < |FindAll(s)|
    ensures k < |Scan(s, 0)|
    ensures IsOrf(FindAll(s)[k]) && OccursAt(FindAll(s)[k], s, Scan(s, 0)[k].start)
  {
    MatchIsOrf(s, Scan(s, 0)[k].start);
  }

  /** Every string `re.findall` reports is an ORF and is the text of `s` at
      the start of the corresponding match. */
  lemma FindAllOrfs(s: string)
    ensures |FindAll(s)| == |Scan(s, 0)|
    ensures forall k :: 0 <= k < |FindAll(s)| ==>
      IsOrf(FindAll(s)[k]) && OccursAt(FindAll(s)[k], s, Scan(s, 0)[k].start)
  {
    forall k | 0 <= k < |FindAll(s)|
      ensures IsOrf(FindAll(s)[k]) && OccursAt(FindAll(s)[k], s, Scan(s, 0)[k].start)
    {
      FindAllOrfAt(s, k);
    }
  }

  /** A text that is one match from its first character to its last is
      reported whole, and alone. */
  lemma WholeMatch(s: string)
    requires MatchAt(s, 0) == Some(|s|)
    ensures FindAll(s) == [s]
  {
    assert Scan(s, |s|) == [];
    assert Scan(s, 0) == [Match(0, |s|)];
    assert s[0..|s|] == s;
  }

  /** A text scanned into exactly one match reports the text of that match. */
  lemma OneMatchText(s: string, a: nat, b: nat)
    requires Scan(s, 0) == [Match(a, b)]
    ensures a <= b <= |s| && FindAll(s) == [s[a..b]]
  {
    assert Scan(s, 0)[0] == Match(a, b);
  }
}
