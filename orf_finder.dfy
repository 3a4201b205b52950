/** `find_ORFs` in ORF_finder.py: the ORFs of both strands of a sequence,
    forward-strand ones first, kept when they reach a minimum length. */
module OrfFinder {
  import opened Dna
  import opened OrfPattern

  /** A reverse-strand entry as `find_ORFs` reports it: a string whose reverse
      complement is an ORF. */
  predicate IsReverseOrf(x: string) {
    RevComp(x).Ok? && IsOrf(RevComp(x).value)
  }

  /** Every character of an ORF is one of A, C, G, T. */
  lemma OrfIsDna(x: string)
    requires IsOrf(x)
    ensures IsDna(x)
  {
    forall i | 0 <= i < |x| ensures IsBase(x[i]) {
      var m := i - i % 3;
      if 3 <= m < |x| - 3 {
        assert IsCodonAt(x, m);
      }
    }
  }

  /** A reverse-strand entry, read on the forward strand, starts with the
      complement of a stop codon (TTA, TCA or CTA), ends with CAT, the
      complement of ATG, and its length is a multiple of 3 and at least 6. */
  lemma ReverseOrfShape(x: string)
    requires IsReverseOrf(x)
    ensures 6 <= |x| && |x| % 3 == 0
    ensures CodonIs(x, 0, "TTA") || CodonIs(x, 0, "TCA") || CodonIs(x, 0, "CTA")
    ensures CodonIs(x, |x| - 3, "CAT")
  {
    var y := RevComp(x).value;
    RevCompSound(x, y);
    var n := |x|;
    assert y[0] == Complement(x[n - 1]) && y[1] == Complement(x[n - 2]) && y[2] == Complement(x[n - 3]);
    assert y[n - 3] == Complement(x[2]) && y[n - 2] == Complement(x[1]) && y[n - 1] == Complement(x[0]);
  }

  /** The list comprehension `[reverse_complement(orf) for orf in rev_orfs]`:
      it raises at the first entry that `reverse_complement` rejects. */
  function RevCompEach(orfs: seq<string>): (r: Result<seq<string>>)
    ensures r.Ok? <==> forall k :: 0 <= k < |orfs| ==> RevComp(orfs[k]).Ok?
    ensures r.Ok? ==> |r.value| == |orfs| && forall k :: 0 <= k < |orfs| ==> RevComp(orfs[k]) == Ok(r.value[k])
    ensures r.KeyError? ==> r.key !in ComplementBase
  {
    if orfs == [] then Ok([])
    else
      match RevComp(orfs[0])
      case KeyError(c) => KeyError(c)
      case Ok(x) =>
        match RevCompEach(orfs[1..])
        case KeyError(c) => KeyError(c)
        case Ok(xs) => Ok([x] + xs)
  }

  /** The list comprehension `[orf for orf in all_orfs if len(orf) >= min_length]`. */
  function KeepLong(orfs: seq<string>, minLength: int): (r: seq<string>)
    ensures |r| <= |orfs|
    ensures forall x :: x in r <==> x in orfs && |x| >= minLength
  {
    if orfs == [] then []
    else if |orfs[0]| >= minLength then [orfs[0]] + KeepLong(orfs[1..], minLength)
    else KeepLong(orfs[1..], minLength)
  }

  /** `a` is `b` with some entries left out, the rest kept in order. */
  ghost predicate IsSubsequence(a: seq<string>, b: seq<string>)
    decreases |b|
  {
    a == [] ||
    (b != [] && ((a[0] == b[0] && IsSubsequence(a[1..], b[1..])) || IsSubsequence(a, b[1..])))
  }

  /** Filtering keeps the entries it keeps in their order. */
  lemma {:induction false} KeepLongSubsequence(orfs: seq<string>, minLength: int)
    ensures IsSubsequence(KeepLong(orfs, minLength), orfs)
  {
    if orfs != [] {
      KeepLongSubsequence(orfs[1..], minLength);
    }
  }

  /** Filtering a concatenation filters each part. */
  lemma {:induction false} KeepLongAppend(a: seq<string>, b: seq<string>, minLength: int)
    ensures KeepLong(a + b, minLength) == KeepLong(a, minLength) + KeepLong(b, minLength)
  {
    if a == [] {
      assert a + b == b;
    } else {
      assert (a + b)[1..] == a[1..] + b;
      KeepLongAppend(a[1..], b, minLength);
    }
  }

  /** Filtering at a length and then at a larger one is filtering at the
      larger one. */
  lemma {:induction false} KeepLongTwice(orfs: seq<string>, m1: int, m2: int)
    requires m1 <= m2
    ensures KeepLong(KeepLong(orfs, m1), m2) == KeepLong(orfs, m2)
  {
    if orfs != [] {
      KeepLongTwice(orfs[1..], m1, m2);
    }
  }

  /** `find_ORFs(sequence, min_length)`: the forward-strand matches, then the
      matches on the reverse complement turned back by `reverse_complement`,
      then the entries at least `min_length` long. */
  function FindOrfs(sequence: string, minLength: int := 50): (r: Result<seq<string>>)
    ensures r.Ok? ==> forall x :: x in r.value ==> |x| >= minLength
    ensures r.KeyError? ==> r.key !in ComplementBase
  {
    var orfs := FindAll(sequence);
    match RevComp(sequence)
    case KeyError(c) => KeyError(c)
    case Ok(revSeq) =>
      match RevCompEach(FindAll(revSeq))
      case KeyError(c) => KeyError(c)
      case Ok(back) => Ok(KeepLong(orfs + back, minLength))
  }

  /** A match on the reverse complement of `s`, turned back by
      `reverse_complement`, is the reverse complement of an ORF and is the
      text of `s` that the match covers, read on the forward strand. */
  lemma ReverseEntry(s: string, rev: string, k: nat)
    requires RevComp(s) == Ok(rev) && k < |FindAll(rev)|
    ensures RevComp(FindAll(rev)[k]).Ok?
    ensures var x := RevComp(FindAll(rev)[k]).value;
      IsReverseOrf(x) && OccursAt(x, s, |s| - Scan(rev, 0)[k].start - |x|)
  {
    var found := FindAll(rev)[k];
    FindAllOrfAt(rev, k);
    var a := Scan(rev, 0)[k].start;
    SliceBack(s, rev, found, a);
  }

  /** An ORF found at `a` in the reverse complement `rev` of `s` turns back
      into the text of `s` that ends `a` characters before its end. */
  lemma SliceBack(s: string, rev: string, found: string, a: nat)
    requires RevComp(s) == Ok(rev) && IsOrf(found) && OccursAt(found, rev, a)
    ensures RevComp(found).Ok? && |RevComp(found).value| == |found|
    ensures IsReverseOrf(RevComp(found).value)
    ensures OccursAt(RevComp(found).value, s, |s| - a - |found|)
  {
    TextBack(s, rev, found, a);
    OrfIsDna(found);
    RevCompInvolution(found);
  }

  /** A text found at `a` in the reverse complement `rev` of `s` turns back
      into the text of `s` that ends `a` characters before its end. */
  lemma TextBack(s: string, rev: string, found: string, a: nat)
    requires RevComp(s) == Ok(rev) && OccursAt(found, rev, a)
    ensures RevComp(found).Ok? && |RevComp(found).value| == |found|
    ensures OccursAt(RevComp(found).value, s, |s| - a - |found|)
  {
    RevCompSound(s, rev);
    var y := s[|s| - a - |found|..|s| - a];
    TextBackOf(s, rev, found, a);
    RevCompComplete(found, y);
  }

  lemma TextBackOf(s: string, rev: string, found: string, a: nat)
    requires IsRevCompOf(rev, s) && OccursAt(found, rev, a)
    ensures a + |found| <= |s|
    ensures IsRevCompOf(s[|s| - a - |found|..|s| - a], found)
  {
    RevCompOfSlice(s, rev, a, a + |found|);
    assert rev[a..a + |found|] == found;
  }

  /** For a sequence over {A, C, G, T}, turning the reverse-strand matches
      back never raises, and each entry it gives is the reverse complement of
      an ORF that lies in the sequence. */
  lemma ReverseStrand(s: string)
    requires IsDna(s)
    ensures RevComp(s).Ok? && RevCompEach(FindAll(RevComp(s).value)).Ok?
    ensures var back := RevCompEach(FindAll(RevComp(s).value)).value;
      forall k :: 0 <= k < |back| ==> IsReverseOrf(back[k]) && exists i :: OccursAt(back[k], s, i)
  {
    RevCompFails(s);
    TurnBack(s, RevComp(s).value);
  }

  /** The reverse-strand matches of `s`, turned back, never raise, and each
      entry is a reverse ORF that lies in `s`. */
  lemma TurnBack(s: string, rev: string)
    requires RevComp(s) == Ok(rev)
    ensures RevCompEach(FindAll(rev)).Ok?
    ensures var back := RevCompEach(FindAll(rev)).value;
      forall k :: 0 <= k < |back| ==> IsReverseOrf(back[k]) && exists i :: OccursAt(back[k], s, i)
  {
    TurnBackOk(s, rev);
    var back := RevCompEach(FindAll(rev)).value;
    forall k | 0 <= k < |back| ensures IsReverseOrf(back[k]) && exists i :: OccursAt(back[k], s, i) {
      TurnBackAt(s, rev, k);
    }
  }

  /** Turning the reverse-strand matches of `s` back never raises. */
  lemma TurnBackOk(s: string, rev: string)
    requires RevComp(s) == Ok(rev)
    ensures RevCompEach(FindAll(rev)).Ok?
  {
    var found := FindAll(rev);
    forall k | 0 <= k < |found| ensures RevComp(found[k]).Ok? {
      ReverseEntry(s, rev, k);
    }
  }

  lemma TurnBackAt(s: string, rev: string, k: nat)
    requires RevComp(s) == Ok(rev) && RevCompEach(FindAll(rev)).Ok? && k < |FindAll(rev)|
    ensures k < |RevCompEach(FindAll(rev)).value|
    ensures var x := RevCompEach(FindAll(rev)).value[k];
      IsReverseOrf(x) && exists i :: OccursAt(x, s, i)
  {
    ReverseEntry(s, rev, k);
    var x := RevCompEach(FindAll(rev)).value[k];
    assert RevComp(FindAll(rev)[k]) == Ok(x);
    assert OccursAt(x, s, |s| - Scan(rev, 0)[k].start - |x|);
  }

  /** `find_ORFs` raises exactly when the sequence holds a character other than
      A, C, G, T, and then with the KeyError `reverse_complement` raises on it:
      the reverse-strand entries can never make it raise. */
  lemma FindOrfsFails(s: string, minLength: int)
    ensures FindOrfs(s, minLength).KeyError? <==> !IsDna(s)
    ensures FindOrfs(s, minLength).KeyError? ==> RevComp(s).KeyError? && FindOrfs(s, minLength).key == RevComp(s).key
  {
    RevCompFails(s);
    if IsDna(s) {
      ReverseStrand(s);
    }
  }

  /** Every entry `find_ORFs` returns is at least `min_length` long, lies in
      the sequence, and is an ORF (forward strand) or the reverse complement
      of one (reverse strand). */
  lemma FindOrfsEntries(s: string, minLength: int)
    requires FindOrfs(s, minLength).Ok?
    ensures forall x :: x in FindOrfs(s, minLength).value ==>
      |x| >= minLength && (IsOrf(x) || IsReverseOrf(x)) && exists i :: OccursAt(x, s, i)
  {
    FindOrfsFails(s, minLength);
    ReverseStrand(s);
    FindAllOrfs(s);
    var fwd := FindAll(s);
    var back := RevCompEach(FindAll(RevComp(s).value)).value;
    forall x | x in fwd + back
      ensures (IsOrf(x) || IsReverseOrf(x)) && exists i :: OccursAt(x, s, i)
    {
      if x in fwd {
        var k :| 0 <= k < |fwd| && fwd[k] == x;
        assert OccursAt(x, s, Scan(s, 0)[k].start);
      } else {
        var k :| 0 <= k < |back| && back[k] == x;
      }
    }
  }

  /** The forward-strand entries come first, in scan order, and the
      reverse-strand entries after them. */
  lemma FindOrfsForwardFirst(s: string, minLength: int)
    requires FindOrfs(s, minLength).Ok?
    ensures RevComp(s).Ok? && RevCompEach(FindAll(RevComp(s).value)).Ok?
    ensures var out := FindOrfs(s, minLength).value;
      var fwd := KeepLong(FindAll(s), minLength);
      var back := KeepLong(RevCompEach(FindAll(RevComp(s).value)).value, minLength);
      out == fwd + back && forall x :: x in back ==> IsReverseOrf(x)
  {
    FindOrfsFails(s, minLength);
    ReverseStrand(s);
    var back := RevCompEach(FindAll(RevComp(s).value)).value;
    KeepLongAppend(FindAll(s), back, minLength);
    forall x | x in KeepLong(back, minLength) ensures IsReverseOrf(x) {
      var k :| 0 <= k < |back| && back[k] == x;
    }
  }

  /** Raising `min_length` keeps the result a subsequence of the earlier one:
      exactly its entries that reach the new length, in the same order. */
  lemma FindOrfsMonotone(s: string, m1: int, m2: int)
    requires m1 <= m2
    ensures FindOrfs(s, m1).Ok? <==> FindOrfs(s, m2).Ok?
    ensures FindOrfs(s, m1).Ok? ==>
      FindOrfs(s, m2).value == KeepLong(FindOrfs(s, m1).value, m2) &&
      IsSubsequence(FindOrfs(s, m2).value, FindOrfs(s, m1).value)
  {
    FindOrfsFails(s, m1);
    FindOrfsFails(s, m2);
    if FindOrfs(s, m1).Ok? {
      var back := RevCompEach(FindAll(RevComp(s).value)).value;
      KeepLongTwice(FindAll(s) + back, m1, m2);
      KeepLongSubsequence(FindOrfs(s, m1).value, m2);
    }
  }

  /** Some codon `codon` occurs in `s`. */
  ghost predicate HasCodon(s: string, codon: string)
    requires |codon| == 3
  {
    exists i :: CodonIs(s, i, codon)
  }

  /** A sequence over {A, C, G, T} with neither ATG nor CAT in it, the empty
      sequence among them, has no ORFs: ATG on the reverse strand is CAT on
      the forward strand. */
  lemma FindOrfsNone(s: string, minLength: int)
    requires IsDna(s) && !HasCodon(s, "ATG") && !HasCodon(s, "CAT")
    ensures FindOrfs(s, minLength) == Ok([])
  {
    NoStartNoMatch(s);
    RevCompFails(s);
    var rev := RevComp(s).value;
    RevCompSound(s, rev);
    assert !HasCodon(rev, "ATG") by {
      if i :| CodonIs(rev, i, "ATG") {
        var n := |s|;
        ComplementTable(s[n - 1 - i]);
        ComplementTable(s[n - 2 - i]);
        ComplementTable(s[n - 3 - i]);
        assert CodonIs(s, n - 3 - i, "CAT");
      }
    }
    NoStartNoMatch(rev);
  }

  /** Without ATG the scan finds nothing. */
  lemma NoStartNoMatch(s: string)
    requires !HasCodon(s, "ATG")
    ensures FindAll(s) == []
  {
    if Scan(s, 0) != [] {
      MatchAtSpec(s, Scan(s, 0)[0].start);
    }
  }

  /** A sequence whose reverse complement has no ATG gets nothing from the
      reverse strand. */
  lemma NoReverseStrand(s: string, r: string)
    requires IsRevCompOf(r, s) && !HasCodon(r, "ATG")
    ensures RevComp(s) == Ok(r) && FindAll(r) == [] && RevCompEach(FindAll(r)) == Ok([])
  {
    RevCompComplete(s, r);
    NoStartNoMatch(r);
  }

  /** The empty sequence yields no ORFs whatever the minimum length. */
  lemma FindOrfsEmpty(minLength: int)
    ensures FindOrfs("", minLength) == Ok([])
  {
  }

  /** A sequence whose forward strand reports one ORF and whose reverse
      complement has no ATG yields that ORF alone. */
  lemma ForwardOnly(s: string, r: string, orf: string)
    requires FindAll(s) == [orf] && IsRevCompOf(r, s) && !HasCodon(r, "ATG")
    ensures FindOrfs(s, 0) == Ok([orf])
  {
    NoReverseStrand(s, r);
    assert KeepLong([], 0) == [];
    assert KeepLong([orf] + [], 0) == [orf];
  }

  /** An ORF with one interior codon is found whole; the reverse strand,
      CTATTTCAT, has none. */
  lemma ScenarioOneCodon()
    ensures FindOrfs("ATGAAATAG", 0) == Ok(["ATGAAATAG"])
  {
    var s, r := "ATGAAATAG", "CTATTTCAT";
    assert MatchAt(s, 0) == Some(9);
    WholeMatch(s);
    assert IsRevCompOf(r, s);
    assert !HasCodon(r, "ATG");
    ForwardOnly(s, r, s);
  }

  /** Entries shorter than `min_length` are dropped. */
  lemma ScenarioTooShort()
    ensures FindOrfs("ATGAAATAG", 10) == Ok([])
  {
    ScenarioOneCodon();
    FindOrfsMonotone("ATGAAATAG", 0, 10);
  }

  /** Without `min_length` the default of 50 bases applies. */
  lemma ScenarioDefaultLength()
    ensures FindOrfs("ATGAAATAG") == Ok([])
  {
    ScenarioOneCodon();
    FindOrfsMonotone("ATGAAATAG", 0, 50);
  }

  /** An ORF in the middle of the sequence; the reverse strand,
      CCCTTAGGGCATCCC, has none. */
  lemma ScenarioEmbedded()
    ensures FindOrfs("GGGATGCCCTAAGGG", 0) == Ok(["ATGCCCTAA"])
  {
    var s, r := "GGGATGCCCTAAGGG", "CCCTTAGGGCATCCC";
    EmbeddedForward();
    EmbeddedRevComp();
    EmbeddedNoStart();
    ForwardOnly(s, r, "ATGCCCTAA");
  }

  lemma EmbeddedForward()
    ensures FindAll("GGGATGCCCTAAGGG") == ["ATGCCCTAA"]
  {
    var s := "GGGATGCCCTAAGGG";
    EmbeddedScan();
    OneMatchText(s, 3, 12);
    assert s[3..12] == "ATGCCCTAA";
  }

  lemma EmbeddedRevComp()
    ensures IsRevCompOf("CCCTTAGGGCATCCC", "GGGATGCCCTAAGGG")
  {
    var s, r := "GGGATGCCCTAAGGG", "CCCTTAGGGCATCCC";
    assert IsDna(s);
    forall i | 0 <= i < |s| ensures r[i] == Complement(s[|s| - 1 - i]) {
      ComplementTable(s[|s| - 1 - i]);
    }
  }

  lemma EmbeddedNoStart()
    ensures !HasCodon("CCCTTAGGGCATCCC", "ATG")
  {
  }

  lemma EmbeddedScan()
    ensures Scan("GGGATGCCCTAAGGG", 0) == [Match(3, 12)]
  {
    var s := "GGGATGCCCTAAGGG";
    assert MatchAt(s, 12).None? && MatchAt(s, 13).None? && MatchAt(s, 14).None?;
    assert Scan(s, 12) == [];
    assert MatchAt(s, 3) == Some(12);
    assert Scan(s, 3) == [Match(3, 12)];
    assert MatchAt(s, 0).None? && MatchAt(s, 1).None? && MatchAt(s, 2).None?;
  }

  /** The shortest ORF: a start codon directly followed by a stop codon. */
  lemma ScenarioShortest()
    ensures FindOrfs("ATGTAA", 0) == Ok(["ATGTAA"])
  {
    var s, r := "ATGTAA", "TTACAT";
    assert MatchAt(s, 0) == Some(6);
    WholeMatch(s);
    assert IsRevCompOf(r, s);
    assert !HasCodon(r, "ATG");
    ForwardOnly(s, r, s);
  }

  /** The ATG inside the first match starts a match of its own, but the
      search resumes after the first match and never reports it. */
  lemma ScenarioNested()
    ensures MatchAt("ATGATGTAA", 3) == Some(9)
    ensures FindOrfs("ATGATGTAA", 0) == Ok(["ATGATGTAA"])
  {
    var s, r := "ATGATGTAA", "TTACATCAT";
    assert MatchAt(s, 3) == Some(9);
    assert MatchAt(s, 0) == Some(9);
    WholeMatch(s);
    assert IsRevCompOf(r, s);
    assert !HasCodon(r, "ATG");
    ForwardOnly(s, r, s);
  }

  /** A sequence without ATG whose reverse complement is one whole match
      yields that match turned back: the sequence itself. */
  lemma ReverseOnly(s: string, r: string)
    requires IsRevCompOf(r, s) && !HasCodon(s, "ATG") && FindAll(r) == [r]
    ensures FindOrfs(s, 0) == Ok([s])
  {
    RevCompSymmetric(s, r);
    RevCompComplete(s, r);
    RevCompComplete(r, s);
    NoStartNoMatch(s);
    var rs: seq<string> := [r];
    assert rs[0] == r && rs[1..] == [];
    assert RevCompEach(rs[1..]) == Ok([]);
    assert [s] + [] == [s];
    assert RevCompEach(rs) == Ok([s]);
    assert KeepLong([] + [s], 0) == [s];
  }

  /** A sequence without ATG still yields the reverse-strand ORF, which begins
      with TTA and ends with CAT. */
  lemma ScenarioReverseOnly()
    ensures FindOrfs("TTACAT", 0) == Ok(["TTACAT"])
  {
    var s, r := "TTACAT", "ATGTAA";
    assert IsRevCompOf(r, s);
    assert !HasCodon(s, "ATG");
    assert MatchAt(r, 0) == Some(6);
    WholeMatch(r);
    ReverseOnly(s, r);
  }

  /** A character outside the table makes the whole call raise. */
  lemma ScenarioInvalidBase()
    ensures FindOrfs("ATGNTAA", 0) == KeyError('N')
  {
    var s := "ATGNTAA";
    assert RevComp("ATGN") == KeyError('N');
    assert "ATGNT"[..4] == "ATGN";
    assert RevComp("ATGNT") == KeyError('N');
    assert "ATGNTA"[..5] == "ATGNT";
    assert RevComp("ATGNTA") == KeyError('N');
    assert s[..6] == "ATGNTA";
    assert RevComp(s) == KeyError('N');
  }
}
