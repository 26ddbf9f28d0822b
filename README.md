# wordIntegerIndexing in Dafny

This project models the integer indexing of CRISPR motifs in
`src/CSTB_core/engine/wordIntegerIndexing.py` and proves properties of the model.

A motif is a word over an ordered alphabet. The positional encoder `weightWord` maps
it to the number `Σ rank(letter) * base^i`, where `i` counts positions from the right.
`decode` rebuilds a word of a given length from such a number, and `project` strips
high-order digits. `pow2encoderWrapper` and `pow2decoderWrapper` apply the encoder and
decoder to the alphabet `"ATCG"`.

The index builder works on a motif collection. Each motif maps to nested occurrence
data, whose leaves `occWeight` counts. `indexAndOccurence` encodes every motif and sorts
the `(code, weight)` pairs by code. `indexPickle` sorts the bare codes. `writeIndexes`
writes a count line followed by one space-separated line per entry. `reverse` skips the
count line, decodes the first field of each later line, and stops at the first code it
cannot decode.

Modules:

- `Results` (`results.dfy`): the `Option` and `Result` types used for error paths.
- `Numeral` (`numeral.dfy`): the base-N codec.
  - `Value` is the code of a word.
  - `Encode` and the loop `WeightWord` model `weightWord` with its two `ValueError`s.
  - `Decoded` and the loop `Decode` model `decode` with its failing assertion.
  - `Projected` and the loop `Project` model `project`.
  - `Pow2Encode` and `Pow2Decode` are the `"ATCG"` wrappers.
- `Occurrence` (`occurrence.dfy`): `occWeight`, as nested loops over the occurrence
  data. `Leaves` is the sum the loops compute and `Elements` lists the leaves they count.
- `Sorting` (`sorting.dfy`): Python's `sorted(xs, key=k)` on integer keys, as an
  insertion sort.
- `Indexing` (`indexing.dfy`): `indexAndOccurence` and the sorted code list of
  `indexPickle`. A Python dict is modelled as its insertion-ordered `(key, value)` entries.
- `IndexFile` (`indexfile.dfy`): the index text and the `reverse` loop.
  - The writer is `Decimal` (`str`), `Join` (`' '.join`) and `WriteIndexes`.
  - The reader is `Split` (`str.split()`) and `ParseNat` (`int`).
  - The reader is used to prove that a written index reads back as its rows.
- `Pipeline` (`pipeline.dfy`): the index builder, the writer, the reader and `reverse`
  composed end to end.

Integers are unbounded, as in Python. Python's `dict` iteration order is insertion
order, so each level of a dict is a sequence of entries.

The global encoder and decoder switched by `toggleEncoding` are replaced:
- the index builder uses `pow2encoderWrapper`;
- `reverse` takes its decoder as a function parameter.

## Model

| member | source | states |
|---|---|---|
| Numeral.IndexOf | src/CSTB_core/engine/wordIntegerIndexing.py:81 | `alphabet.index(letter)`: a position holding the letter, with no earlier position holding it (the first occurrence) |
| Numeral.LastUnknown | src/CSTB_core/engine/wordIntegerIndexing.py:80-81 | none exactly when every letter is in the alphabet; otherwise a letter of the word that is missing from the alphabet |
| Numeral.LastUnknownFound | src/CSTB_core/engine/wordIntegerIndexing.py:80-81 | the reported letter stands at a position whose right-hand letters are all in the alphabet, i.e. it is the first missing letter the reversed scan meets |
| Numeral.LastUnknownAt | src/CSTB_core/engine/wordIntegerIndexing.py:80-81 | a missing letter whose right-hand letters are all present is the one reported |
| Numeral.Encode | src/CSTB_core/engine/wordIntegerIndexing.py:71-84 | succeeds exactly when the length check passes (a falsy length, `None` or `0`, is never checked) and every letter is in the alphabet; the result is then the word's code `Value`, below base^len(word); a failed length check gives the length error with the actual and expected lengths; any other failure names a letter of the word that is not in the alphabet |
| Numeral.WeightWord | src/CSTB_core/engine/wordIntegerIndexing.py:71-84 | the loop over the reversed word returns exactly the code or the error that `Encode` specifies |
| Numeral.EncodeBound | src/CSTB_core/engine/wordIntegerIndexing.py:80-84 | the code of an n-letter word over b symbols is below b^n |
| Numeral.ValueConcat | src/CSTB_core/engine/wordIntegerIndexing.py:80-84 | the code of u + v is the code of u shifted by base^len(v), plus the code of v |
| Numeral.CodesDistinct | src/CSTB_core/engine/wordIntegerIndexing.py:71-84 | over a duplicate-free alphabet, distinct words of one length get distinct codes |
| Numeral.Decoded | src/CSTB_core/engine/wordIntegerIndexing.py:100-111 | a successful decode has exactly max(0, length) symbols, all from the alphabet |
| Numeral.Decode | src/CSTB_core/engine/wordIntegerIndexing.py:100-111 | the loop returns exactly what `Decoded` specifies; it succeeds exactly when length ≤ 0 or rank < base^length; success yields max(0, length) symbols from the alphabet; over a duplicate-free alphabet those symbols encode back to the rank (0 for length ≤ 0) |
| Numeral.DecodedMeaning | src/CSTB_core/engine/wordIntegerIndexing.py:100-111 | decoding succeeds exactly when length ≤ 0 or rank < base^length, yields max(0, length) symbols from the alphabet, and over a duplicate-free alphabet those symbols encode back to the rank (0 for length ≤ 0) |
| Numeral.DecodedFails | src/CSTB_core/engine/wordIntegerIndexing.py:106-110 | the assertion fails exactly when length ≥ 1 and rank ≥ base^length, and then at the first, most significant digit, with digit rank / base^(length - 1) |
| Numeral.DecodedValue | src/CSTB_core/engine/wordIntegerIndexing.py:104-111 | over a duplicate-free alphabet, the decoded word's code is the rank (0 for length ≤ 0) |
| Numeral.RoundTrip | src/CSTB_core/engine/wordIntegerIndexing.py:71-111 | decoding the code of a word with the word's own length gives the word back |
| Numeral.Project | src/CSTB_core/engine/wordIntegerIndexing.py:86-95 | the loop over positions lenFrom down to lenTo returns what `Projected` specifies for the value |
| Numeral.ProjectedValue | src/CSTB_core/engine/wordIntegerIndexing.py:90-95 | for lenTo ≤ lenFrom the projection is value mod base^lenTo; for lenTo > lenFrom the range is empty and it is the value itself |
| Numeral.ProjectSuffix | src/CSTB_core/engine/wordIntegerIndexing.py:86-95 | the code of u + v modulo base^len(v) is the code of the suffix v |
| Numeral.ProjectWord | src/CSTB_core/engine/wordIntegerIndexing.py:86-95 | projecting the code of u + v from any lenFrom ≥ len(v) down to len(v) gives the code of v |
| Numeral.Pow2Encode | src/CSTB_core/engine/wordIntegerIndexing.py:68-69 | succeeds exactly on words over `"ATCG"` (the length check always passes); the code is the word's code and is below 4^len(word); a failure names a letter that is not in `"ATCG"` |
| Numeral.Pow2Decode | src/CSTB_core/engine/wordIntegerIndexing.py:97-98 | succeeds exactly when wLen ≤ 0 or code < 4^wLen, with max(0, wLen) symbols from `"ATCG"` |
| Numeral.Pow2RoundTrip | src/CSTB_core/engine/wordIntegerIndexing.py:68-98 | the two wrappers are inverse on words over `"ATCG"` |
| Occurrence.OccWeight | src/CSTB_core/engine/wordIntegerIndexing.py:22-29 | the nested loops return the sum of the leaf-list lengths over all first- and second-level keys, which is the number of leaf elements; the motif key is ignored; empty data weigh 0 |
| Occurrence.InnerLeavesCountsElements | src/CSTB_core/engine/wordIntegerIndexing.py:26-27 | summing the lengths of the leaf lists of one second-level mapping counts its leaves |
| Occurrence.LeavesCountsElements | src/CSTB_core/engine/wordIntegerIndexing.py:25-27 | the two-level sum counts every leaf two levels below the motif |
| Occurrence.WeightExample | src/CSTB_core/engine/wordIntegerIndexing.py:22-29 | a motif seen under two sub-keys with 3 and 5 occurrences weighs 8 |
| Sorting.InsertBy | src/CSTB_core/engine/wordIntegerIndexing.py:50 | inserting adds exactly that element: the multiset grows by it and the length by one |
| Sorting.InsertSorted | src/CSTB_core/engine/wordIntegerIndexing.py:50 | inserting into a key-sorted sequence keeps it sorted |
| Sorting.InsertStrictlySorted | src/CSTB_core/engine/wordIntegerIndexing.py:50 | inserting a new key into a strictly sorted sequence keeps it strictly sorted |
| Sorting.SortBy | src/CSTB_core/engine/wordIntegerIndexing.py:50 | the sorted sequence is a permutation of the input; SortSorted and SortStable prove it ordered and stable |
| Sorting.SortStable | src/CSTB_core/engine/wordIntegerIndexing.py:50 | the sort is stable, as Python's `sorted` is: for every key, the elements carrying it appear in the output in their input order (so two words sharing a code, such as `A` and `AA`, keep their collection order) |
| Sorting.SortSorted | src/CSTB_core/engine/wordIntegerIndexing.py:50 | the sorted sequence is in non-decreasing key order, and strictly increasing when no two inputs share a key |
| Sorting.KeysOfInsert | src/CSTB_core/engine/wordIntegerIndexing.py:50 | the keys after inserting a record are its key inserted into the keys |
| Sorting.KeysOfSort | src/CSTB_core/engine/wordIntegerIndexing.py:50-60 | sorting records by key and then keeping the keys is sorting the keys alone |
| Indexing.EncodeEntries | src/CSTB_core/engine/wordIntegerIndexing.py:50 | the comprehension succeeds exactly when every word is over `"ATCG"`; its i-th pair is (code, weight) of the i-th word; otherwise it fails with the error of the first word the encoder rejects |
| Indexing.IndexAndOccurrence | src/CSTB_core/engine/wordIntegerIndexing.py:48-51 | succeeds exactly when every word is over `"ATCG"`, with one entry per word; a failure is the comprehension's |
| Indexing.EncodeWords | src/CSTB_core/engine/wordIntegerIndexing.py:60 | the code list succeeds exactly on `"ATCG"` words; its i-th element is the code of the i-th word |
| Indexing.IndexCodes | src/CSTB_core/engine/wordIntegerIndexing.py:60 | the sorted code list of `indexPickle` exists exactly when every word is over `"ATCG"` |
| Indexing.IndexEntries | src/CSTB_core/engine/wordIntegerIndexing.py:48-51 | the index has one entry per word, is sorted by code, and is a permutation of the comprehension; every word's (code, weight) pair is in it, and every entry is some word's pair |
| Indexing.WordEntry | src/CSTB_core/engine/wordIntegerIndexing.py:48-51 | the pair of each word is in the index |
| Indexing.EntryOrigin | src/CSTB_core/engine/wordIntegerIndexing.py:48-51 | each index entry is the pair of some word |
| Indexing.IndexStrictlyAscending | src/CSTB_core/engine/wordIntegerIndexing.py:48-51 | for distinct words of one length, codes strictly ascend along the index |
| Indexing.IndexCodesAgree | src/CSTB_core/engine/wordIntegerIndexing.py:48-60 | `indexPickle` and `indexAndOccurence` fail together; the code column of the weighted index is the sorted code list, so weights never influence the order of codes |
| IndexFile.Decimal | src/CSTB_core/engine/wordIntegerIndexing.py:117 | `str(n)` is a non-empty string of digits with no leading zero |
| IndexFile.DecimalRoundTrip | src/CSTB_core/engine/wordIntegerIndexing.py:117-127 | `int` of `str(n)` is n |
| IndexFile.WriteIndexes | src/CSTB_core/engine/wordIntegerIndexing.py:113-117 | the first line is the entry count, and line i + 1 is the i-th entry's fields in decimal, joined by single spaces, in list order |
| IndexFile.CodeLines | src/CSTB_core/engine/wordIntegerIndexing.py:61-64 | the file `indexPickle` writes (the count, then one code per line) is what `writeIndexes` writes for one-field rows |
| IndexFile.SplitJoin | src/CSTB_core/engine/wordIntegerIndexing.py:117-125 | `str.split()` of fields joined by single spaces gives the fields back when they are non-empty and contain no separator |
| IndexFile.ReadFormattedLine | src/CSTB_core/engine/wordIntegerIndexing.py:117-127 | splitting an entry line and parsing its fields gives back the entry's numbers |
| IndexFile.ReadWritten | src/CSTB_core/engine/wordIntegerIndexing.py:113-127 | reading a written index line by line gives the one-field count line followed by every row, unchanged and in order |
| IndexFile.Reverse | src/CSTB_core/engine/wordIntegerIndexing.py:119-131 | the loop (skip the first line, decode each first field, stop at the first failure) returns exactly the printed words and the ending that `Reversed` specifies |
| IndexFile.ReversedPrefix | src/CSTB_core/engine/wordIntegerIndexing.py:121-131 | decodable lines all print their words, in order, and reading then continues with the lines after them |
| IndexFile.ReverseReadsAll | src/CSTB_core/engine/wordIntegerIndexing.py:119-131 | when every line after the header decodes, `reverse` prints one word per line, in order, and finishes |
| IndexFile.ReverseStopsAt | src/CSTB_core/engine/wordIntegerIndexing.py:126-130 | at the first line after the header that has no field or an undecodable code, `reverse` stops: the earlier lines' words are printed, none after, and the ending names the code (or the missing field) |
| IndexFile.ReverseIgnoresOtherFields | src/CSTB_core/engine/wordIntegerIndexing.py:122-127 | only the first field of each line after the header matters: weight fields and the header line's content never change the output |
| Pipeline.EntriesDecode | src/CSTB_core/engine/wordIntegerIndexing.py:48-51 | every entry code of the index of equal-length `"ATCG"` words decodes to a word of the collection that encodes to it |
| Pipeline.EntryRowsDecodable | src/CSTB_core/engine/wordIntegerIndexing.py:113-131 | every entry line of such an index has a first field that decodes |
| Pipeline.EncodedWords | src/CSTB_core/engine/wordIntegerIndexing.py:119-131 | the decoded first fields are the collection's words in entry order, each encoding to its entry's code, and every word of the collection is among them |
| Pipeline.IndexThenReverse | src/CSTB_core/engine/wordIntegerIndexing.py:48-131 | for distinct `"ATCG"` words of length n, the written index reads back, and `reverse` with motif length n finishes; it prints one word per entry, in strictly ascending code order, and those are exactly the collection's words |

## Left out

- File and console I/O: `pickle.load` and the `open`, `write` and `print` calls of
  `indexPickle`, `indexAndOccurencePickle`, `writeIndexes` and `reverse`.
  - A file is a sequence of lines.
  - `indexPickle` and `indexAndOccurencePickle` are modelled as their data plus
    `WriteIndexes`.
  - `reverse` returns the words it would print, and how it ended, instead of printing.
- The "Encoding what seems like ..." message of `indexAndOccurencePickle`. It is a
  `print`, so the `IndexError` it raises on an empty dictionary is not modelled either.
- `twobits.encode` and `twobits.decode`: the `twobits` module is not part of this model.
  The global `ENCODER`/`DECODER` swap of `toggleEncoding` is replaced instead:
  - the index builder always uses `pow2encoderWrapper`;
  - `reverse` takes its decoder as a parameter.
- The `__main__` block, docopt argument parsing and output-file naming. These are
  command-line plumbing.
- Numeral.Decode: `math.trunc(rank / pow(base, i))` divides in floating point; the model
  uses exact integer division. The two agree while numbers stay below 2^53. Past that,
  Python's rounding is not modelled.
- Numeral.Project: the division is idealised in the same way. `lenTo` is a natural
  number, because a negative `lenTo` makes `pow(base, i)` a float.
- Numeral.Decode: requires a non-empty alphabet, and so do `Decoded` and `Project`.
  With an empty alphabet Python behaves as follows, and none of it is modelled:
  - `decode` returns `""` for length <= 0, because its loop is empty;
  - `decode` fails the assertion for length 1, because `pow(0, 0)` is 1 and any rank is
    at least 0;
  - `decode` raises `ZeroDivisionError` for length >= 2, because `pow(0, length - 1)` is 0;
  - `project` raises `ZeroDivisionError` only when its range `lenFrom` down to `lenTo`
    holds a position >= 1. It returns `value` when `lenFrom < lenTo`, and 0 when
    `lenFrom == lenTo == 0`.
  The precondition therefore also excludes the empty-alphabet inputs on which Python
  returns normally. Every call in the file passes `"ATCG"`.
- Negative ranks and values: codes are natural numbers.
- `decode`'s default `length=20` is not modelled. Every caller in the file passes a
  length.
- `project`'s default `alphabet="ATCG"` is not modelled. `Project` always takes the
  alphabet as an argument.
- Alphabets with repeated symbols:
  - `alphabet.index` finds the first occurrence, and `IndexOf` models that;
  - the round trip, distinct codes and strict ordering are stated only for
    duplicate-free alphabets, where they hold.
- `int(_[0])` on a token that is not a decimal number raises `ValueError` in `reverse`.
  The `reverse` loop works on lines already parsed into integer fields, and the text
  reader `ReadLines` parses every field of every line, the header included. Python's
  `reverse` parses only the first field of the lines after the header, and only up to
  the first code it cannot decode. So it still prints words when the header or a weight
  field is not numeric, or when a malformed line follows the first undecodable one.
  `ReadLines` rejects such a file, so the model does not cover these files; the
  read-back theorem `ReadWritten` covers only files that `writeIndexes` wrote.
  `ReverseIgnoresOtherFields` shows that, on parsed lines, the header and weight
  fields never change the output. `ParseNat` accepts only plain ASCII digit strings.
  It rejects the signs, digit-group underscores and non-ASCII Unicode decimal digits
  that `int` also accepts.
- On a blank line, `_[0]` raises an `IndexError` that `reverse` does not catch. The
  model ends the reading there with the outcome `MissingField`; the exception itself is
  not modelled.
- `str.split()` also splits on the ASCII separators `\x1c` to `\x1f` and on Unicode
  whitespace. `IsSpace` covers only space and `\t` to `\r`.
- The error messages' text is not modelled. Only the errors' kind is kept, plus some
  data:
  - the two lengths of a length mismatch, which the source's message also names;
  - the model adds data the source's errors do not carry. `UnknownSymbol` records the
    letter where the scan stopped, but `alphabet.index` raises `ValueError("substring
    not found")`, which names no letter. `DigitOutOfRange` records the digit, but the
    bare `assert` at line 108 carries none.
- Numeral.Project: the loop at line 90 runs from `lenFrom` down to `lenTo`, so the
  digit at position `lenFrom` is stripped as well. The model follows that loop. For
  `lenTo <= lenFrom` the result is value mod base^lenTo, as `ProjectedValue` proves.
