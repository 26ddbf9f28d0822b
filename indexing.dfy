/** Index construction (indexAndOccurence, and the sorted code list of
    indexPickle): every word of a motif collection is coded with the "ATCG"
    positional encoder and the results are sorted by code. A collection is a
    Python dict, modelled as its insertion-ordered (word, data) entries. */
module Indexing {
  import opened Results
  import opened Numeral
  import opened Occurrence
  import opened Sorting

  /** A motif collection: word -> occurrence data, in key order. */
  type Collection<D> = seq<(string, D)>

  /** An index entry (code, occurrence weight). */
  type Entry = (nat, nat)

  /** Dictionary keys are unique. */
  predicate DistinctWords<D>(data: Collection<D>)
  {
    forall i, j :: 0 <= i < j < |data| ==> data[i].0 != data[j].0
  }

  /** Every word of the collection is spelt over "ATCG". */
  predicate DnaWords<D>(data: Collection<D>)
  {
    forall i :: 0 <= i < |data| ==> AllIn(data[i].0, DnaAlphabet)
  }

  /** Every word of the collection has length n. */
  predicate WordsOfLength<D>(data: Collection<D>, n: nat)
  {
    forall i :: 0 <= i < |data| ==> |data[i].0| == n
  }

  /** The sort key of an entry: its code (the weight is never a key). */
  function Code(e: Entry): nat
  {
    e.0
  }

  /** [(ENCODER(w), occWeight((w, data[w]))) for w in word_list]: the
      comprehension raises at the first word the encoder rejects. */
  function EncodeEntries<K1, K2, L>(data: Collection<Datum<K1, K2, L>>): (r: Result<seq<Entry>, EncodeError>)
    ensures r.Ok? <==> DnaWords(data)
    ensures r.Ok? ==> (
      && |r.value| == |data|
      && forall i :: 0 <= i < |data| ==> r.value[i] == (Value(data[i].0, DnaAlphabet), Leaves(data[i].1)))
    ensures r.Err? ==> (
      exists i :: (
        && 0 <= i < |data|
        && Pow2Encode(data[i].0) == Err(r.error)
        && forall j :: 0 <= j < i ==> AllIn(data[j].0, DnaAlphabet)))
  {
    if data == [] then Ok([])
    else match Pow2Encode(data[0].0)
      case Err(e) => Err(e)
      case Ok(c) =>
        var rest := EncodeEntries(data[1..]);
        assert forall i :: 1 <= i < |data| ==> data[i] == data[1..][i - 1];
        match rest
        case Err(e) => Err(e)
        case Ok(es) => Ok([(c, Leaves(data[0].1))] + es)
  }

  /** indexAndOccurence(data): the entries sorted by code. */
  function IndexAndOccurrence<K1, K2, L>(data: Collection<Datum<K1, K2, L>>): (r: Result<seq<Entry>, EncodeError>)
    ensures r.Ok? <==> DnaWords(data)
    ensures r.Err? ==> r == EncodeEntries(data)
    ensures r.Ok? ==> |r.value| == |data|
  {
    match EncodeEntries(data)
    case Err(e) => Err(e)
    case Ok(es) => Ok(SortBy(es, Code))
  }

  /** [ENCODER(w) for w in word_list] of indexPickle. */
  function EncodeWords<D>(data: Collection<D>): (r: Result<seq<nat>, EncodeError>)
    ensures r.Ok? <==> DnaWords(data)
    ensures r.Ok? ==> (
      && |r.value| == |data|
      && forall i :: 0 <= i < |data| ==> r.value[i] == Value(data[i].0, DnaAlphabet))
  {
    if data == [] then Ok([])
    else match Pow2Encode(data[0].0)
      case Err(e) => Err(e)
      case Ok(c) =>
        var rest := EncodeWords(data[1..]);
        assert forall i :: 1 <= i < |data| ==> data[i] == data[1..][i - 1];
        match rest
        case Err(e) => Err(e)
        case Ok(cs) => Ok([c] + cs)
  }

  /** sorted([ENCODER(w) for w in word_list]): the code list indexPickle writes. */
  function IndexCodes<D>(data: Collection<D>): (r: Result<seq<nat>, EncodeError>)
    ensures r.Ok? <==> DnaWords(data)
  {
    match EncodeWords(data)
    case Err(e) => Err(e)
    case Ok(cs) => Ok(SortBy(cs, Id))
  }

  /** The index holds exactly one (code, weight) pair per word, sorted by code. */
  lemma IndexEntries<K1, K2, L>(data: Collection<Datum<K1, K2, L>>)
    requires DnaWords(data)
    ensures IndexAndOccurrence(data).Ok?
    ensures var r := IndexAndOccurrence(data).value;
      && |r| == |data|
      && SortedBy(r, Code)
      && multiset(r) == multiset(EncodeEntries(data).value)
      && (forall i :: 0 <= i < |data| ==> (Value(data[i].0, DnaAlphabet), Leaves(data[i].1)) in r)
      && (forall e :: e in r ==> exists i :: 0 <= i < |data| && e == (Value(data[i].0, DnaAlphabet), Leaves(data[i].1)))
  {
    var r := IndexAndOccurrence(data).value;
    SortSorted(EncodeEntries(data).value, Code);
    forall i | 0 <= i < |data| ensures (Value(data[i].0, DnaAlphabet), Leaves(data[i].1)) in r {
      WordEntry(data, i);
    }
    forall e | e in r ensures exists i :: 0 <= i < |data| && e == (Value(data[i].0, DnaAlphabet), Leaves(data[i].1)) {
      var j :| 0 <= j < |r| && r[j] == e;
      EntryOrigin(data, j);
    }
  }

  /** The (code, weight) pair of the i-th word is in the index. */
  lemma WordEntry<K1, K2, L>(data: Collection<Datum<K1, K2, L>>, i: nat)
    requires DnaWords(data) && i < |data|
    ensures IndexAndOccurrence(data).Ok?
    ensures (Value(data[i].0, DnaAlphabet), Leaves(data[i].1)) in IndexAndOccurrence(data).value
  {
    var es := EncodeEntries(data).value;
    assert es[i] in multiset(es);
  }

  /** The j-th index entry is the (code, weight) pair of some word of the collection. */
  lemma EntryOrigin<K1, K2, L>(data: Collection<Datum<K1, K2, L>>, j: nat)
    requires DnaWords(data) && j < |data|
    ensures IndexAndOccurrence(data).Ok?
    ensures exists i :: 0 <= i < |data| && IndexAndOccurrence(data).value[j] == (Value(data[i].0, DnaAlphabet), Leaves(data[i].1))
  {
    var r, es := IndexAndOccurrence(data).value, EncodeEntries(data).value;
    assert r[j] in multiset(es);
    var i :| 0 <= i < |es| && es[i] == r[j];
  }

  /** With distinct words of one length, codes in the index strictly ascend. */
  lemma IndexStrictlyAscending<K1, K2, L>(data: Collection<Datum<K1, K2, L>>, n: nat)
    requires DnaWords(data) && DistinctWords(data) && WordsOfLength(data, n)
    ensures IndexAndOccurrence(data).Ok?
    ensures StrictlySortedBy(IndexAndOccurrence(data).value, Code)
  {
    var es := EncodeEntries(data).value;
    DnaAlphabetDistinct();
    forall i, j | 0 <= i < j < |es| ensures Code(es[i]) != Code(es[j]) {
      CodesDistinct(data[i].0, data[j].0, DnaAlphabet);
    }
    SortSorted(es, Code);
  }

  /** indexPickle and indexAndOccurence agree on codes and order: the code
      column of the weighted index is the bare code list. */
  lemma IndexCodesAgree<K1, K2, L>(data: Collection<Datum<K1, K2, L>>)
    ensures IndexCodes(data).Ok? <==> IndexAndOccurrence(data).Ok?
    ensures IndexCodes(data).Ok? ==> IndexCodes(data).value == Keys(IndexAndOccurrence(data).value, Code)
  {
    if DnaWords(data) {
      var es := EncodeEntries(data).value;
      assert Keys(es, Code) == EncodeWords(data).value;
      KeysOfSort(es, Code);
    }
  }
}
