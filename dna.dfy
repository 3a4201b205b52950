/** Bases, the Watson-Crick complement table and reverse complementation
    (`reverse_complement` in ORF_finder.py). */
module Dna {

  /** What a Python dictionary lookup gives: a value, or a KeyError naming the
      key that was missing. */
  datatype Result<T> = Ok(value: T) | KeyError(key: char)

  /** The dictionary `complement_base`. */
  const ComplementBase: map<char, char> := map['C' := 'G', 'G' := 'C', 'A' := 'T', 'T' := 'A']

  /** One of the four bases, the character class [AGCT]. */
  predicate IsBase(c: char) {
    c == 'A' || c == 'C' || c == 'G' || c == 'T'
  }

  /** A string over {A, C, G, T}. */
  predicate IsDna(s: string) {
    forall i :: 0 <= i < |s| ==> IsBase(s[i])
  }

  /** The table lookup `complement_base[c]` for a key the table has. */
  function Complement(c: char): char
    requires IsBase(c)
  {
    ComplementBase[c]
  }

  /** The keys of the table are exactly the bases, it maps bases to bases,
      and it is its own inverse. */
  lemma ComplementTable(c: char)
    ensures c in ComplementBase <==> IsBase(c)
    ensures IsBase(c) ==> IsBase(Complement(c)) && Complement(Complement(c)) == c
  {
  }

  /** `sequence[::-1]`. */
  function Reversed(s: string): (r: string)
    ensures |r| == |s|
    ensures forall i :: 0 <= i < |s| ==> r[|s| - 1 - i] == s[i]
  {
    seq(|s|, i requires 0 <= i < |s| => s[|s| - 1 - i])
  }

  /** Adds `prefix` in front of a successful result; a KeyError passes through. */
  function Prepend(prefix: string, r: Result<string>): Result<string> {
    match r
    case Ok(t) => Ok(prefix + t)
    case KeyError(c) => KeyError(c)
  }

  /** What `reverse_complement(s)` returns or raises. The input is read from its
      last character to its first; the first character met in that order that
      the table lacks is the key of the KeyError. */
  function RevComp(s: string): (r: Result<string>)
    decreases |s|
    ensures r.KeyError? ==> r.key !in ComplementBase
  {
    if s == [] then Ok([])
    else
      var c := s[|s| - 1];
      if c !in ComplementBase then KeyError(c)
      else Prepend([ComplementBase[c]], RevComp(s[..|s| - 1]))
  }

  /** One step of `RevComp`: the last character is looked up first. */
  lemma RevCompLast(s: string)
    requires s != []
    ensures s[|s| - 1] !in ComplementBase ==> RevComp(s) == KeyError(s[|s| - 1])
    ensures s[|s| - 1] in ComplementBase ==>
      RevComp(s) == Prepend([ComplementBase[s[|s| - 1]]], RevComp(s[..|s| - 1]))
  {
  }

  lemma PrependTwice(a: string, b: string, r: Result<string>)
    ensures Prepend(a, Prepend(b, r)) == Prepend(a + b, r)
  {
    if r.Ok? {
      assert a + (b + r.value) == (a + b) + r.value;
    }
  }

  /** The loop of `reverse_complement`: it walks the reversed input and appends
      the complement of each character to the string built so far. */
  method ReverseComplement(sequence: string) returns (r: Result<string>)
    ensures r == RevComp(sequence)
  {
    var temp := Reversed(sequence);
    var built := "";
    var n := 0;
    assert sequence[..|sequence|] == sequence;
    assert Prepend(built, RevComp(sequence)) == RevComp(sequence) by {
      if RevComp(sequence).Ok? { assert built + RevComp(sequence).value == RevComp(sequence).value; }
    }
    while n < |temp|
      invariant 0 <= n <= |temp| == |sequence|
      invariant RevComp(sequence) == Prepend(built, RevComp(sequence[..|sequence| - n]))
    {
      var item := temp[n];
      ghost var rest := sequence[..|sequence| - n];
      assert rest[|rest| - 1] == item;
      if item !in ComplementBase {
        RevCompLast(rest);
        return KeyError(item);
      }
      RevCompLast(rest);
      PrependTwice(built, [ComplementBase[item]], RevComp(rest[..|rest| - 1]));
      assert rest[..|rest| - 1] == sequence[..|sequence| - (n + 1)];
      built := built + [ComplementBase[item]];
      n := n + 1;
    }
    assert sequence[..0] == [];
    assert built + [] == built;
    return Ok(built);
  }

  /** The pointwise shape of reverse complementation: character `i` of the
      result is the complement of character `|s| - 1 - i` of the input. */
  ghost predicate IsRevCompOf(r: string, s: string) {
    IsDna(s) && |r| == |s| && forall i :: 0 <= i < |s| ==> r[i] == Complement(s[|s| - 1 - i])
  }

  /** Pointwise characterisation: `reverse_complement(s)` succeeds with `r`
      exactly when `s` is over {A, C, G, T}, `r` is as long as `s`, and the
      character at `i` of `r` is the complement of the character at
      `|s| - 1 - i` of `s`. */
  lemma RevCompOk(s: string, r: string)
    ensures RevComp(s) == Ok(r) <==> IsRevCompOf(r, s)
  {
    if RevComp(s) == Ok(r) {
      RevCompSound(s, r);
    }
    if IsRevCompOf(r, s) {
      RevCompComplete(s, r);
    }
  }

  lemma {:induction false} RevCompSound(s: string, r: string)
    requires RevComp(s) == Ok(r)
    ensures IsRevCompOf(r, s)
  {
    if s != [] {
      var t, c := s[..|s| - 1], s[|s| - 1];
      ComplementTable(c);
      var r' := r[1..];
      assert RevComp(t) == Ok(r');
      RevCompSound(t, r');
      forall i | 0 <= i < |s| ensures IsBase(s[i]) {
        if i < |s| - 1 { assert s[i] == t[i]; }
      }
      forall i | 0 <= i < |s| ensures r[i] == Complement(s[|s| - 1 - i]) {
        if i > 0 { assert r[i] == r'[i - 1] && s[|s| - 1 - i] == t[|t| - 1 - (i - 1)]; }
      }
    }
  }

  lemma {:induction false} RevCompComplete(s: string, r: string)
    requires IsRevCompOf(r, s)
    ensures RevComp(s) == Ok(r)
  {
    if s != [] {
      var t, c := s[..|s| - 1], s[|s| - 1];
      ComplementTable(c);
      var r' := r[1..];
      assert IsDna(t) by {
        forall i | 0 <= i < |t| ensures IsBase(t[i]) { assert t[i] == s[i]; }
      }
      forall i | 0 <= i < |t| ensures r'[i] == Complement(t[|t| - 1 - i]) {
        assert r'[i] == r[i + 1] && t[|t| - 1 - i] == s[|s| - 1 - (i + 1)];
      }
      RevCompComplete(t, r');
      assert r == [r[0]] + r';
    }
  }

  /** `reverse_complement(s)` raises exactly when `s` holds a character other
      than A, C, G, T; the key it reports is the last such character of `s`. */
  lemma {:induction false} RevCompFails(s: string)
    ensures RevComp(s).KeyError? <==> !IsDna(s)
    ensures RevComp(s).KeyError? ==>
      exists j :: 0 <= j < |s| && s[j] == RevComp(s).key && !IsBase(s[j]) && IsDna(s[j + 1..])
  {
    if s != [] {
      var t, c := s[..|s| - 1], s[|s| - 1];
      ComplementTable(c);
      RevCompFails(t);
      if c !in ComplementBase {
        assert IsDna(s[|s|..]);
      } else {
        assert IsDna(s) <==> IsDna(t) by {
          assert forall i :: 0 <= i < |t| ==> t[i] == s[i];
        }
        if RevComp(t).KeyError? {
          var j :| 0 <= j < |t| && t[j] == RevComp(t).key && !IsBase(t[j]) && IsDna(t[j + 1..]);
          assert s[j] == t[j];
          assert s[j + 1..] == t[j + 1..] + [c];
        }
      }
    }
  }

  /** The pointwise shape carries over to slices, with the roles of the two
      strings swapped: the table is its own inverse. */
  lemma RevCompOfSlice(s: string, r: string, a: nat, b: nat)
    requires IsRevCompOf(r, s) && a <= b <= |r|
    ensures IsRevCompOf(s[|s| - b..|s| - a], r[a..b])
  {
    var x, y := r[a..b], s[|s| - b..|s| - a];
    forall i | 0 <= i < |x| ensures IsBase(x[i]) {
      ComplementTable(s[|s| - 1 - (a + i)]);
    }
    forall i | 0 <= i < |y| ensures y[i] == Complement(x[|x| - 1 - i]) {
      var j := |s| - b + i;
      assert y[i] == s[j];
      assert x[|x| - 1 - i] == r[|s| - 1 - j] == Complement(s[j]);
      ComplementTable(s[j]);
    }
  }

  /** The pointwise shape is symmetric: if `r` is the reverse complement of
      `s`, then `s` is the reverse complement of `r`. */
  lemma RevCompSymmetric(s: string, r: string)
    requires IsRevCompOf(r, s)
    ensures IsRevCompOf(s, r)
  {
    RevCompOfSlice(s, r, 0, |r|);
    assert r[0..|r|] == r && s[|s| - |r|..|s| - 0] == s;
  }

  /** Reverse complementation applied to a slice of a reverse complement gives
      back the matching slice of the original, read forwards. */
  lemma RevCompSlice(s: string, r: string, a: nat, b: nat)
    requires RevComp(s) == Ok(r)
    requires a <= b <= |r|
    ensures |r| == |s|
    ensures RevComp(r[a..b]) == Ok(s[|s| - b..|s| - a])
  {
    RevCompSound(s, r);
    RevCompOfSlice(s, r, a, b);
    RevCompComplete(r[a..b], s[|s| - b..|s| - a]);
  }

  /** Applying `reverse_complement` twice gives back any string over
      {A, C, G, T}; the lengths agree. */
  lemma RevCompInvolution(s: string)
    requires IsDna(s)
    ensures RevComp(s).Ok? && |RevComp(s).value| == |s|
    ensures RevComp(RevComp(s).value) == Ok(s)
  {
    RevCompFails(s);
    var r := RevComp(s).value;
    RevCompSlice(s, r, 0, |r|);
    assert r[0..|r|] == r && s[0..|s|] == s;
  }
}
