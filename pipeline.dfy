/** The indexing and reverse pipelines together: an index built from a motif
    collection, written as text, read back and reversed with the words'
    length, yields the collection's words in ascending code order. */
module Pipeline {
  import opened Results
  import opened Numeral
  import opened Occurrence
  import opened Sorting
  import opened Indexing
  import opened IndexFile

  /** Every entry of the index of a collection of "ATCG" words of length n
      decodes, with length n, to a word of the collection that encodes to it. */
  lemma EntriesDecode<K1, K2, L>(data: Collection<Datum<K1, K2, L>>, n: nat)
    requires DnaWords(data) && WordsOfLength(data, n)
    ensures IndexAndOccurrence(data).Ok?
    ensures var entries := IndexAndOccurrence(data).value;
      forall j :: 0 <= j < |entries| ==> exists i :: (
        && 0 <= i < |data|
        && Pow2Encode(data[i].0) == Ok(entries[j].0)
        && Pow2Decode(entries[j].0, n) == Ok(data[i].0))
  {
    var entries := IndexAndOccurrence(data).value;
    forall j | 0 <= j < |entries|
      ensures exists i :: (
        && 0 <= i < |data|
        && Pow2Encode(data[i].0) == Ok(entries[j].0)
        && Pow2Decode(entries[j].0, n) == Ok(data[i].0))
    {
      EntryOrigin(data, j);
      var i :| 0 <= i < |data| && entries[j] == (Value(data[i].0, DnaAlphabet), Leaves(data[i].1));
      WordCodec(data[i].0, n);
    }
  }

  /** A word of length n over "ATCG" encodes to its code, which decodes back to it. */
  lemma WordCodec(word: string, n: nat)
    requires AllIn(word, DnaAlphabet) && |word| == n
    ensures Pow2Encode(word) == Ok(Value(word, DnaAlphabet))
    ensures Pow2Decode(Value(word, DnaAlphabet), n) == Ok(word)
  {
    Pow2RoundTrip(word);
  }

  /** Every entry line of such an index has a first field that decodes with length n. */
  lemma EntryRowsDecodable<K1, K2, L>(data: Collection<Datum<K1, K2, L>>, n: nat)
    requires DnaWords(data) && WordsOfLength(data, n)
    ensures IndexAndOccurrence(data).Ok?
    ensures Decodable(EntryRows(IndexAndOccurrence(data).value), n, Pow2Decode)
  {
    EntriesDecode(data, n);
    var entries := IndexAndOccurrence(data).value;
    var rows := EntryRows(entries);
    forall j | 0 <= j < |rows| ensures rows[j] != [] && Pow2Decode(rows[j][0], n).Ok? {
      var i :| 0 <= i < |data| && Pow2Encode(data[i].0) == Ok(entries[j].0) && Pow2Decode(entries[j].0, n) == Ok(data[i].0);
    }
  }

  /** Reversing the written index of a collection of distinct "ATCG" words of
      length n, with motif length n, prints every word once, the j-th being
      the word whose code is on the j-th entry line, and finishes. */
  lemma IndexThenReverse<K1, K2, L>(data: Collection<Datum<K1, K2, L>>, n: nat)
    requires DnaWords(data) && DistinctWords(data) && WordsOfLength(data, n)
    ensures IndexAndOccurrence(data).Ok?
    ensures var entries := IndexAndOccurrence(data).value;
      var lines := WriteIndexes(EntryRows(entries));
      && StrictlySortedBy(entries, Code)
      && ReadLines(lines).Some?
      && var result := Reversed(ReadLines(lines).value, n, true, Pow2Decode);
      && result.1 == Finished
      && |result.0| == |data|
      && (forall j :: 0 <= j < |result.0| ==> Pow2Encode(result.0[j]) == Ok(entries[j].0))
      && (forall i :: 0 <= i < |data| ==> data[i].0 in result.0)
      && (forall j :: 0 <= j < |result.0| ==> exists i :: 0 <= i < |data| && result.0[j] == data[i].0)
  {
    IndexStrictlyAscending(data, n);
    var entries := IndexAndOccurrence(data).value;
    var rows := EntryRows(entries);
    ReadWritten(rows);
    var lines := [[|rows|]] + rows;
    assert lines[1..] == rows;
    EntryRowsDecodable(data, n);
    ReverseReadsAll(lines, n, Pow2Decode);
    var words := FirstFieldWords(rows, n, Pow2Decode);
    EncodedWords(data, n, entries, words);
  }

  /** The decoded first fields of the entry lines are the collection's words,
      in entry order, and every word of the collection is among them. */
  lemma EncodedWords<K1, K2, L>(data: Collection<Datum<K1, K2, L>>, n: nat, entries: seq<Entry>, words: seq<string>)
    requires DnaWords(data) && WordsOfLength(data, n)
    requires IndexAndOccurrence(data).Ok? && entries == IndexAndOccurrence(data).value
    requires |words| == |entries| && forall j :: 0 <= j < |entries| ==> Pow2Decode(entries[j].0, n) == Ok(words[j])
    ensures forall j :: 0 <= j < |words| ==> Pow2Encode(words[j]) == Ok(entries[j].0)
    ensures forall i :: 0 <= i < |data| ==> data[i].0 in words
    ensures forall j :: 0 <= j < |words| ==> exists i :: 0 <= i < |data| && words[j] == data[i].0
  {
    EntriesDecode(data, n);
    forall j | 0 <= j < |words| ensures Pow2Encode(words[j]) == Ok(entries[j].0) && exists i :: 0 <= i < |data| && words[j] == data[i].0 {
      var i :| 0 <= i < |data| && Pow2Encode(data[i].0) == Ok(entries[j].0) && Pow2Decode(entries[j].0, n) == Ok(data[i].0);
    }
    forall i | 0 <= i < |data| ensures data[i].0 in words {
      WordEntry(data, i);
      var j :| 0 <= j < |entries| && entries[j] == (Value(data[i].0, DnaAlphabet), Leaves(data[i].1));
      WordCodec(data[i].0, n);
      assert words[j] == data[i].0;
    }
  }
}
