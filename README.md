# ORF finder, modelled in Dafny

This project models the open-reading-frame (ORF) detection core of
`ORF_finder.py`: the functions `reverse_complement` and `find_ORFs`.

- `reverse_complement` reverses a DNA string and maps each base through the
  Watson-Crick table {C→G, G→C, A→T, T→A}, one character per loop step. A
  character missing from the table raises `KeyError`. It is modelled as the
  method `Dna.ReverseComplement`, whose loop is proved against the
  specification function `Dna.RevComp`. The `KeyError` is the `KeyError(key)`
  case of `Dna.Result`.
- `find_ORFs` runs `re.findall` with the lazy pattern
  `ATG(?:[AGCT]{3})*?(?:TAG|TGA|TAA)` on the sequence and on its reverse
  complement. It turns each reverse-strand match back with
  `reverse_complement`, appends those after the forward matches, and keeps
  the entries at least `min_length` long (default 50). It is the pure
  function `OrfFinder.FindOrfs`.

The regular expression is not modelled as a backtracking matcher. Its meaning
is stated as explicit scans:

- `OrfPattern.LazyTail` walks codon by codon from just after an `ATG`. A stop
  codon ends the match. Otherwise one more codon over [AGCT] is consumed.
  Otherwise there is no match.
- `OrfPattern.MatchAt` is the match tried at one position.
- `OrfPattern.Scan` is `findall`. It takes the leftmost match at or after the
  current position, reports it, and resumes at its end.

Each scan is tied to an independent, non-recursive description:

- `PatternMatches` is the pattern without laziness. `MatchAtSpec` proves the
  lazy match is the shortest such text.
- `IsFindAll` is `findall` stated by its gaps. `ScanIsFindAll` and
  `FindAllUnique` prove the scan is exactly the list it describes.

Three behaviours of the code are worth stating outright, each with the line
it comes from:

- Reverse-strand entries are converted back by `reverse_complement` at line
  24. So they do not start with ATG. They start with TTA, TCA or CTA and end
  with CAT (`ReverseOrfShape`, `ScenarioReverseOnly`).
- An ATG inside an earlier match is never reported on its own. `re.findall`
  at line 17 resumes the search at the end of that match
  (`ScenarioNested`).
- A character outside the table raises `KeyError` at line 42, reached from
  `find_ORFs` through the call at line 20. The key is the last such character
  of the input, because line 41 walks `sequence[::-1]` (`FindOrfsFails`).

## Model

| member | source | states |
|---|---|---|
| `Dna.ComplementTable` | ORF_finder.py:38 | for the constant `ComplementBase` (the dict `complement_base`): the table's keys are exactly A, C, G, T; it maps bases to bases and is its own inverse |
| `Dna.Reversed` | ORF_finder.py:39 | `sequence[::-1]` has the input's length, and the input's character `i` sits at the mirrored position, counted from the end |
| `Dna.RevComp` | ORF_finder.py:32-44 | `reverse_complement` as a function; a KeyError it raises always names a character the table lacks (its full meaning is given by `RevCompOk` and `RevCompFails`) |
| `Dna.ReverseComplement` | ORF_finder.py:32-44 | the loop over the reversed input returns exactly `RevComp(sequence)`, including the KeyError and its key |
| `Dna.RevCompOk` | ORF_finder.py:38-42 | succeeds with `r` iff the input is over {A,C,G,T}, `r` has the same length, and `r[i]` is the complement of the input character at the mirrored position |
| `Dna.RevCompSound` | ORF_finder.py:38-42 | a successful result has the input's length and is complement-of-reversed position by position |
| `Dna.RevCompComplete` | ORF_finder.py:38-42 | a string that is complement-of-reversed position by position is what the function returns |
| `Dna.RevCompFails` | ORF_finder.py:38-42 | raises iff some character is outside {A,C,G,T}; the key raised is the last such character |
| `Dna.RevCompSymmetric` | ORF_finder.py:38-42 | if `r` is the reverse complement of `s`, then `s` is the reverse complement of `r` |
| `Dna.RevCompSlice` | ORF_finder.py:38-42 | the reverse complement of a slice of the reverse complement is the matching slice of the input |
| `Dna.RevCompInvolution` | ORF_finder.py:38-42 | applied twice to a string over {A,C,G,T} it gives the string back; the length is kept |
| `OrfPattern.IsOrf` | ORF_finder.py:14 | reference definition of an ORF: at least 6 long, whole codons, ATG first, a stop codon last, no in-frame stop codon inside, bases only (see `MatchIsOrf`) |
| `OrfPattern.PatternMatches` | ORF_finder.py:14 | reference definition of the pattern without laziness: ATG, any number of [AGCT] codons, a stop codon (see `MatchAtSpec`) |
| `OrfPattern.LazyTail` | ORF_finder.py:14 | a tail match ends at least one codon later, within the text, a whole number of codons on |
| `OrfPattern.LazyTailSpec` | ORF_finder.py:14 | the lazy tail ends at the nearest end any tail match can have, and fails iff no tail match exists |
| `OrfPattern.MatchAt` | ORF_finder.py:14 | a match is at least 6 long, lies within the text, and its length is a multiple of 3 |
| `OrfPattern.MatchAtSpec` | ORF_finder.py:14 | the match at `i` is the shortest text the pattern matches at `i`; there is none iff the pattern matches nothing there |
| `OrfPattern.MatchIsOrf` | ORF_finder.py:14 | a match starts with ATG and ends with a stop codon; its length is a multiple of 3 and at least 6; no in-frame stop codon lies strictly inside |
| `OrfPattern.Scan` | ORF_finder.py:17 | every reported span is the match at its start, at or after the search start; spans come in increasing order and do not overlap |
| `OrfPattern.IsFindAll` | ORF_finder.py:17 | reference definition of findall by its gaps: each span is the match at its start, and no match starts where the search stepped over (see `ScanIsFindAll`, `FindAllUnique`) |
| `OrfPattern.ScanSkips` | ORF_finder.py:17 | positions where no match starts are stepped over without effect |
| `OrfPattern.FindAllSkip` | ORF_finder.py:17 | a match-free position before a described search extends the description |
| `OrfPattern.FindAllCons` | ORF_finder.py:17 | a match followed by the described search from its end is a described search |
| `OrfPattern.FindAllTail` | ORF_finder.py:17 | dropping the first match of a described search describes the search resumed at its end |
| `OrfPattern.ScanIsFindAll` | ORF_finder.py:17 | the scan meets the description of findall: each span is the match at its start, and no match starts at a position that was stepped over or after the last match |
| `OrfPattern.FindAllUnique` | ORF_finder.py:17 | any span list meeting that description is the scan, so the description fixes findall's result |
| `OrfPattern.FindAllEmpty` | ORF_finder.py:17 | a described search with no spans means the scan from that position finds nothing |
| `OrfPattern.FindAllHead` | ORF_finder.py:17 | the first span of a described search is the first match the scan reports, and the scan resumes at its end |
| `OrfPattern.FindAllOrfs` | ORF_finder.py:14-17 | every string findall reports is an ORF and is the text of the sequence at its span's start |
| `OrfPattern.FindAllOrfAt` | ORF_finder.py:14-17 | the `k`-th string findall reports is an ORF and is the text of the sequence at the `k`-th span's start |
| `OrfPattern.FindAll` | ORF_finder.py:17 | `re.findall(regex, s)`: one string per scanned span, each at least 6 long and a whole number of codons (see `FindAllOrfs`) |
| `OrfPattern.WholeMatch` | ORF_finder.py:14-17 | a text that is one match from end to end is reported whole and alone |
| `OrfFinder.OrfIsDna` | ORF_finder.py:14 | an ORF contains only A, C, G, T |
| `OrfFinder.ReverseOrfShape` | ORF_finder.py:20-24 | a reverse-strand entry starts with TTA, TCA or CTA and ends with CAT; its length is a multiple of 3 and at least 6 |
| `OrfFinder.RevCompEach` | ORF_finder.py:24 | succeeds iff every entry can be reverse-complemented; then entry `k` of the result is the reverse complement of entry `k`; a KeyError names a character the table lacks |
| `OrfFinder.KeepLong` | ORF_finder.py:27 | an entry is kept iff it is in the input and at least `min_length` long; no entries are added |
| `OrfFinder.KeepLongSubsequence` | ORF_finder.py:27 | the kept entries are a subsequence of the input, in order |
| `OrfFinder.KeepLongAppend` | ORF_finder.py:24-27 | filtering forward + reverse entries filters each part in place |
| `OrfFinder.KeepLongTwice` | ORF_finder.py:27 | filtering at one length and then at a larger one is filtering at the larger one |
| `OrfFinder.ReverseEntry` | ORF_finder.py:20-24 | a reverse-strand match turned back is the reverse complement of an ORF and is the text of the sequence that the match covers |
| `OrfFinder.SliceBack` | ORF_finder.py:20-24 | an ORF found in the reverse complement turns back into a reverse ORF of the same length at the mirrored place of the sequence |
| `OrfFinder.TextBack` | ORF_finder.py:20-24 | any text found in the reverse complement turns back, without raising, into the text of the sequence at the mirrored place |
| `OrfFinder.ReverseStrand` | ORF_finder.py:20-24 | for a valid sequence, turning the reverse-strand matches back never raises; every entry is a reverse ORF found in the sequence |
| `OrfFinder.TurnBackOk` | ORF_finder.py:20-24 | for any reverse complement of the sequence, turning its matches back never raises |
| `OrfFinder.TurnBack` | ORF_finder.py:20-24 | for any reverse complement of the sequence, turning its matches back never raises, and every entry is a reverse ORF found in the sequence |
| `OrfFinder.FindOrfs` | ORF_finder.py:6-29 | `find_ORFs`: every entry returned is at least `min_length` long, and a KeyError names a character the table lacks; `FindOrfsForwardFirst` pins a successful result down to the entry, `FindOrfsFails` says when and with which key it raises, and `FindOrfsEntries` and `FindOrfsMonotone` state what every entry is and how `min_length` acts |
| `OrfFinder.FindOrfsFails` | ORF_finder.py:17-24 | find_ORFs raises iff the sequence has a character outside {A,C,G,T}, with the KeyError of reverse_complement(sequence) |
| `OrfFinder.FindOrfsEntries` | ORF_finder.py:6-29 | every entry returned is at least `min_length` long, occurs in the sequence, and is an ORF or the reverse complement of one |
| `OrfFinder.FindOrfsForwardFirst` | ORF_finder.py:17-27 | a successful result is exactly the kept forward matches in scan order followed by the kept turned-back reverse-strand matches in scan order, and every entry of the second part is a reverse ORF |
| `OrfFinder.FindOrfsMonotone` | ORF_finder.py:27 | raising `min_length` gives exactly the earlier result's entries that reach the new length, as a subsequence |
| `OrfFinder.FindOrfsNone` | ORF_finder.py:14-24 | a valid sequence with neither ATG nor CAT yields an empty list |
| `OrfFinder.NoStartNoMatch` | ORF_finder.py:14-17 | without ATG, findall reports nothing |
| `OrfFinder.NoReverseStrand` | ORF_finder.py:20-24 | when the reverse complement has no ATG, the reverse strand contributes nothing and nothing raises |
| `OrfFinder.ForwardOnly` | ORF_finder.py:6-29 | one forward ORF and a reverse complement without ATG give that ORF alone at `min_length` 0 |
| `OrfFinder.ReverseOnly` | ORF_finder.py:17-27 | a sequence without ATG whose reverse complement is one whole match gives the sequence itself, from the reverse strand |
| `OrfFinder.FindOrfsEmpty` | ORF_finder.py:6-29 | the empty sequence yields an empty list for every `min_length` |
| `OrfFinder.ScenarioOneCodon` | ORF_finder.py:6-29 | ATGAAATAG with `min_length` 0 yields exactly [ATGAAATAG] |
| `OrfFinder.ScenarioTooShort` | ORF_finder.py:27 | ATGAAATAG with `min_length` 10 yields [] |
| `OrfFinder.ScenarioDefaultLength` | ORF_finder.py:6 | the default `min_length` of 50 drops a 9-base ORF |
| `OrfFinder.ScenarioEmbedded` | ORF_finder.py:6-29 | GGGATGCCCTAAGGG yields [ATGCCCTAA] |
| `OrfFinder.ScenarioShortest` | ORF_finder.py:6-29 | ATGTAA, the shortest ORF, yields [ATGTAA] |
| `OrfFinder.ScenarioNested` | ORF_finder.py:14-17 | in ATGATGTAA the ATG at 3 starts a match, but only the outer ORF is reported |
| `OrfFinder.ScenarioReverseOnly` | ORF_finder.py:20-24 | TTACAT has no ATG yet yields [TTACAT] from the reverse strand |
| `OrfFinder.ScenarioInvalidBase` | ORF_finder.py:20 | ATGNTAA makes find_ORFs raise KeyError('N') |

## Left out

- `process_files` (ORF_finder.py:47-100) is not modelled. It is interactive
  I/O: prompts, the retry loop that forces `min_length >= 50`, opening and
  reading the FASTA file, the file-not-found message, and writing the output
  file.
- FASTA line accumulation (lines 71-84) and the output layout of triplets in
  45-column lines (lines 94-100) are not modelled. Both are interleaved with
  file handles.
- The module-level call `process_files()` (line 103) is not modelled.
- Python's `re` engine is not modelled as a backtracking matcher. Only the
  result it gives for this one pattern is modelled.
- `FindOrfs` calls the specification function `RevComp`, not the method
  `ReverseComplement`, because a function cannot call a method.
  `ReverseComplement` is proved to return exactly `RevComp`.
- Python strings are modelled as sequences of characters. No case folding or
  encoding is involved, since the source does none.
