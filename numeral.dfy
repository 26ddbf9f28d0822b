/** The positional base-N codec of wordIntegerIndexing.py: a word over an
    ordered alphabet is read as a numeral whose digits are the letters' ranks
    (weightWord), and a code is turned back into a word of a given length
    (decode). The base is the size of the alphabet. */
module Numeral {
  import opened Results

  /** Python's pow(base, e) for a non-negative exponent. */
  function Pow(base: nat, e: nat): (r: nat)
    ensures base > 0 ==> r > 0
  {
    if e == 0 then 1 else base * Pow(base, e - 1)
  }

  /** Every letter of word occurs in alphabet. */
  predicate AllIn(word: string, alphabet: string)
  {
    forall i :: 0 <= i < |word| ==> word[i] in alphabet
  }

  /** The alphabet has no repeated symbol. */
  predicate Distinct(alphabet: string)
  {
    forall i, j :: 0 <= i < j < |alphabet| ==> alphabet[i] != alphabet[j]
  }

  /** alphabet.index(c): the position of the first occurrence of c. */
  function IndexOf(alphabet: string, c: char): (r: nat)
    requires c in alphabet
    ensures r < |alphabet| && alphabet[r] == c
    ensures forall j :: 0 <= j < r ==> alphabet[j] != c
  {
    if alphabet[0] == c then 0 else 1 + IndexOf(alphabet[1..], c)
  }

  lemma IndexOfDistinct(alphabet: string, k: nat)
    requires Distinct(alphabet) && k < |alphabet|
    ensures IndexOf(alphabet, alphabet[k]) == k
  {
  }

  /** The number a word denotes: the sum of rank(letter) * base^i, where i
      counts letter positions from the right end of the word. */
  function Value(word: string, alphabet: string): nat
    requires AllIn(word, alphabet)
  {
    if word == [] then 0
    else IndexOf(alphabet, word[0]) * Pow(|alphabet|, |word| - 1) + Value(word[1..], alphabet)
  }

  // ---------------------------------------------------------------------
  // Arithmetic helpers

  lemma MulMonotone(a: nat, b: nat, c: nat)
    requires a <= b
    ensures a * c <= b * c
  {
  }

  /** Euclidean division of q * p + x by p, when x is a remainder. */
  lemma DivModUnique(q: nat, x: nat, p: nat)
    requires x < p
    ensures (q * p + x) / p == q && (q * p + x) % p == x
  {
    var n := q * p + x;
    var q', x' := n / p, n % p;
    assert n == q' * p + x';
    if q' > q {
      MulMonotone(q + 1, q', p);
      assert false;
    } else if q' < q {
      MulMonotone(q' + 1, q, p);
      assert false;
    }
  }

  /** The quotient n / p is below b exactly when n is below b * p. */
  lemma DivBound(n: nat, p: nat, b: nat)
    requires p > 0
    ensures n / p < b <==> n < b * p
  {
    assert n == (n / p) * p + n % p;
    if n / p < b {
      MulMonotone(n / p + 1, b, p);
    } else {
      MulMonotone(b, n / p, p);
    }
  }

  lemma DivMod(n: nat, p: nat)
    requires p > 0
    ensures n == (n / p) * p + n % p
  {
  }

  /** A digit below b followed by lower digits worth less than p stays below b * p. */
  lemma DigitBound(d: nat, x: nat, b: nat, p: nat)
    requires d < b && x < p
    ensures d * p + x < b * p
  {
    MulMonotone(d + 1, b, p);
  }

  lemma Regroup(d: nat, pu: nat, pv: nat, x: nat, y: nat)
    ensures d * (pu * pv) + (x * pv + y) == (d * pu + x) * pv + y
  {
    assert d * (pu * pv) == (d * pu) * pv;
    assert (d * pu) * pv + x * pv == (d * pu + x) * pv;
  }

  lemma PowAdd(b: nat, m: nat, n: nat)
    ensures Pow(b, m + n) == Pow(b, m) * Pow(b, n)
  {
    if m > 0 {
      PowAdd(b, m - 1, n);
      assert Pow(b, m + n) == b * Pow(b, m - 1 + n);
      MulAssoc(b, Pow(b, m - 1), Pow(b, n));
    }
  }

  lemma MulComm(x: nat, y: nat)
    ensures x * y == y * x
  {
  }

  lemma MulAssoc(a: nat, x: nat, y: nat)
    ensures a * (x * y) == (a * x) * y
  {
  }

  /** Reducing modulo m * k and then modulo m is reducing modulo m. */
  lemma ModMod(x: nat, m: nat, k: nat)
    requires m > 0 && k > 0
    ensures (x % (m * k)) % m == x % m
  {
    var a, r := x / (m * k), x % (m * k);
    DivMod(x, m * k);
    DivMod(r, m);
    var c, d := r / m, r % m;
    Regroup(a, k, m, c, d);
    MulComm(k, m);
    DivModUnique(a * k + c, d, m);
  }

  // ---------------------------------------------------------------------
  // Encoding: weightWord

  /** The errors weightWord raises. */
  datatype EncodeError =
    | LengthMismatch(actual: nat, expected: int)  // "Irregular word length ..." ValueError
    | UnknownSymbol(symbol: char)                  // alphabet.index(letter) ValueError

  /** The length check of weightWord passes: Python only checks a truthy
      declared length, so None and 0 are never checked. */
  predicate LengthAccepted(word: string, length: Option<int>)
  {
    length.None? || length.value == 0 || length.value == |word|
  }

  /** The rightmost letter of word that is missing from alphabet: weightWord
      scans the word from the right and raises on this one first. */
  function LastUnknown(word: string, alphabet: string): (r: Option<char>)
    ensures r.None? <==> AllIn(word, alphabet)
    ensures r.Some? ==> r.value in word && r.value !in alphabet
  {
    if word == [] then None
    else if word[|word| - 1] !in alphabet then Some(word[|word| - 1])
    else
      assert word == word[..|word| - 1] + [word[|word| - 1]];
      LastUnknown(word[..|word| - 1], alphabet)
  }

  /** Position k holds a letter missing from alphabet and every letter to its right is in it. */
  predicate UnknownFromRight(word: string, alphabet: string, k: int)
  {
    0 <= k < |word| && word[k] !in alphabet && AllIn(word[k + 1..], alphabet)
  }

  /** The reported letter is the one at a position with every letter to its right in the alphabet. */
  lemma {:induction false} LastUnknownFound(word: string, alphabet: string)
    ensures var r := LastUnknown(word, alphabet);
      r.Some? ==> exists k :: UnknownFromRight(word, alphabet, k) && word[k] == r.value
  {
    if word != [] {
      var n := |word| - 1;
      var prefix := word[..n];
      if word[n] !in alphabet {
        assert UnknownFromRight(word, alphabet, n);
      } else if LastUnknown(prefix, alphabet).Some? {
        LastUnknownFound(prefix, alphabet);
        var k :| UnknownFromRight(prefix, alphabet, k) && prefix[k] == LastUnknown(prefix, alphabet).value;
        UnknownExtends(prefix, word[n], alphabet, k);
        assert prefix + [word[n]] == word;
      }
    }
  }

  /** Appending a letter of the alphabet keeps an unknown letter's position valid. */
  lemma UnknownExtends(prefix: string, last: char, alphabet: string, k: int)
    requires last in alphabet && UnknownFromRight(prefix, alphabet, k)
    ensures UnknownFromRight(prefix + [last], alphabet, k) && (prefix + [last])[k] == prefix[k]
  {
    assert (prefix + [last])[k + 1..] == prefix[k + 1..] + [last];
  }

  /** weightWord(word, alphabet, length): the code of word, or the error it raises.
      Some(0) and None both stand for a falsy declared length. */
  function Encode(word: string, alphabet: string, length: Option<int>): (r: Result<nat, EncodeError>)
    ensures r.Ok? <==> LengthAccepted(word, length) && AllIn(word, alphabet)
    ensures r.Ok? ==> r.value == Value(word, alphabet) && r.value < Pow(|alphabet|, |word|)
    ensures !LengthAccepted(word, length) ==> r == Err(LengthMismatch(|word|, length.value))
    ensures LengthAccepted(word, length) && r.Err? ==>
      r.error.UnknownSymbol? && r.error.symbol in word && r.error.symbol !in alphabet
  {
    if !LengthAccepted(word, length) then Err(LengthMismatch(|word|, length.value))
    else match LastUnknown(word, alphabet)
      case Some(c) => Err(UnknownSymbol(c))
      case None =>
        EncodeBound(word, alphabet);
        Ok(Value(word, alphabet))
  }

  /** Encode bound: a word of n letters over an alphabet of size b gets a code below b^n. */
  lemma {:induction false} EncodeBound(word: string, alphabet: string)
    requires AllIn(word, alphabet)
    ensures Value(word, alphabet) < Pow(|alphabet|, |word|)
  {
    if word != [] {
      EncodeBound(word[1..], alphabet);
      DigitBound(IndexOf(alphabet, word[0]), Value(word[1..], alphabet), |alphabet|, Pow(|alphabet|, |word| - 1));
    }
  }

  lemma {:induction false} LastUnknownAt(word: string, alphabet: string, k: nat)
    requires k < |word| && word[k] !in alphabet && AllIn(word[k + 1..], alphabet)
    ensures LastUnknown(word, alphabet) == Some(word[k])
    decreases |word|
  {
    if k < |word| - 1 {
      assert word[|word| - 1] == word[k + 1..][|word| - 2 - k];
      assert word[..|word| - 1][k + 1..] == word[k + 1..|word| - 1];
      LastUnknownAt(word[..|word| - 1], alphabet, k);
    }
  }

  /** weightWord: accumulate rank(letter) * base^i over the reversed word. */
  method WeightWord(word: string, alphabet: string, length: Option<int>) returns (r: Result<nat, EncodeError>)
    ensures r == Encode(word, alphabet, length)
  {
    if length.Some? && length.value != 0 && length.value != |word| {
      return Err(LengthMismatch(|word|, length.value));
    }
    var rank := 0;
    var i := 0;
    while i < |word|
      invariant 0 <= i <= |word|
      invariant AllIn(word[|word| - i..], alphabet)
      invariant rank == Value(word[|word| - i..], alphabet)
    {
      var letter := word[|word| - 1 - i];
      if letter !in alphabet {
        LastUnknownAt(word, alphabet, |word| - 1 - i);
        return Err(UnknownSymbol(letter));
      }
      var wei := IndexOf(alphabet, letter);
      var base := |alphabet|;
      assert word[|word| - 1 - i..][1..] == word[|word| - i..];
      rank := rank + wei * Pow(base, i);
      i := i + 1;
    }
    assert word[|word| - i..] == word;
    r := Ok(rank);
  }

  /** Distinct words of one length over a duplicate-free alphabet get distinct codes. */
  lemma CodesDistinct(w1: string, w2: string, alphabet: string)
    requires Distinct(alphabet) && |alphabet| >= 1
    requires AllIn(w1, alphabet) && AllIn(w2, alphabet) && |w1| == |w2| && w1 != w2
    ensures Value(w1, alphabet) != Value(w2, alphabet)
  {
    RoundTrip(w1, alphabet);
    RoundTrip(w2, alphabet);
  }

  /** Coding respects concatenation: the letters of v are the low |v| digits. */
  lemma {:induction false} ValueConcat(u: string, v: string, alphabet: string)
    requires AllIn(u, alphabet) && AllIn(v, alphabet)
    ensures AllIn(u + v, alphabet)
    ensures Value(u + v, alphabet) == Value(u, alphabet) * Pow(|alphabet|, |v|) + Value(v, alphabet)
  {
    if u == [] {
      assert u + v == v;
    } else {
      var b := |alphabet|;
      var r0 := IndexOf(alphabet, u[0]);
      assert (u + v)[0] == u[0] && (u + v)[1..] == u[1..] + v;
      assert |u + v| - 1 == |u| - 1 + |v|;
      ValueConcat(u[1..], v, alphabet);
      PowAdd(b, |u| - 1, |v|);
      Regroup(r0, Pow(b, |u| - 1), Pow(b, |v|), Value(u[1..], alphabet), Value(v, alphabet));
    }
  }

  // ---------------------------------------------------------------------
  // Decoding: decode

  /** The failed `assert index < len(alphabet)` of decode, with the digit that failed it. */
  datatype DecodeError = DigitOutOfRange(digit: nat)

  /** decode(rank, alphabet, length): length symbols, most significant first,
      the digit at position i being rank / base^i, after which rank is reduced
      modulo base^i. */
  function Decoded(rank: nat, alphabet: string, length: int): (r: Result<string, DecodeError>)
    requires |alphabet| >= 1
    ensures r.Ok? ==> |r.value| == (if length <= 0 then 0 else length) && AllIn(r.value, alphabet)
    decreases length
  {
    if length <= 0 then Ok([])
    else
      var p := Pow(|alphabet|, length - 1);
      var index := rank / p;
      if index >= |alphabet| then Err(DigitOutOfRange(index))
      else match Decoded(rank % p, alphabet, length - 1)
        case Err(e) => Err(e)
        case Ok(rest) => Ok([alphabet[index]] + rest)
  }

  /** Prefixes the symbols already emitted to the outcome of the remaining digits. */
  function Prepend(word: string, r: Result<string, DecodeError>): Result<string, DecodeError>
  {
    match r
    case Ok(rest) => Ok(word + rest)
    case Err(e) => Err(e)
  }

  /** One iteration of decode's loop, with i digits left: the digit at
      position i - 1 is emitted, or fails. */
  lemma DecodeStep(word: string, rest: nat, alphabet: string, i: nat)
    requires |alphabet| >= 1 && i >= 1
    ensures var p := Pow(|alphabet|, i - 1);
      Prepend(word, Decoded(rest, alphabet, i)) ==
        if rest / p >= |alphabet| then Err(DigitOutOfRange(rest / p))
        else Prepend(word + [alphabet[rest / p]], Decoded(rest % p, alphabet, i - 1))
  {
    var p := Pow(|alphabet|, i - 1);
    if rest / p < |alphabet| {
      match Decoded(rest % p, alphabet, i - 1)
      case Err(e) =>
      case Ok(tail) =>
        assert word + ([alphabet[rest / p]] + tail) == (word + [alphabet[rest / p]]) + tail;
    }
  }

  /** decode: the loop over i = length - 1 down to 0. */
  method Decode(rank: nat, alphabet: string, length: int) returns (r: Result<string, DecodeError>)
    requires |alphabet| >= 1
    ensures r == Decoded(rank, alphabet, length)
    ensures r.Ok? <==> length <= 0 || rank < Pow(|alphabet|, length)
    ensures r.Ok? ==> |r.value| == (if length <= 0 then 0 else length) && AllIn(r.value, alphabet)
    ensures Distinct(alphabet) && r.Ok? ==> Value(r.value, alphabet) == (if length <= 0 then 0 else rank)
  {
    var word := "";
    var base := |alphabet|;
    var rest := rank;
    var i := if length > 0 then length else 0;
    assert Decoded(rest, alphabet, i) == Decoded(rank, alphabet, length);
    assert forall x: string :: "" + x == x;
    while i > 0
      invariant 0 <= i
      invariant Decoded(rank, alphabet, length) == Prepend(word, Decoded(rest, alphabet, i))
    {
      var p := Pow(base, i - 1);
      var index := rest / p;
      DecodeStep(word, rest, alphabet, i);
      if index >= |alphabet| {
        r := Err(DigitOutOfRange(index));
        DecodedMeaning(rank, alphabet, length);
        return;
      }
      word := word + [alphabet[index]];
      rest := rest % p;
      i := i - 1;
    }
    assert Decoded(rest, alphabet, 0) == Ok([]) && word + [] == word;
    r := Ok(word);
    DecodedMeaning(rank, alphabet, length);
  }

  /** What decode's outcome means: success exactly on codes that fit in length
      digits, with length symbols that, over a duplicate-free alphabet, spell
      the code. */
  lemma DecodedMeaning(rank: nat, alphabet: string, length: int)
    requires |alphabet| >= 1
    ensures var r := Decoded(rank, alphabet, length);
      && (r.Ok? <==> length <= 0 || rank < Pow(|alphabet|, length))
      && (r.Ok? ==> |r.value| == (if length <= 0 then 0 else length) && AllIn(r.value, alphabet))
      && (Distinct(alphabet) && r.Ok? ==> Value(r.value, alphabet) == (if length <= 0 then 0 else rank))
  {
    DecodedFails(rank, alphabet, length);
    if Distinct(alphabet) {
      DecodedValue(rank, alphabet, length);
    }
  }

  /** decode fails exactly on codes that do not fit in length digits, and then
      only at the first, most significant digit. */
  lemma {:induction false} DecodedFails(rank: nat, alphabet: string, length: int)
    requires |alphabet| >= 1
    ensures Decoded(rank, alphabet, length).Err? <==> length >= 1 && rank >= Pow(|alphabet|, length)
    ensures Decoded(rank, alphabet, length).Err? ==>
      length >= 1 && Decoded(rank, alphabet, length) == Err(DigitOutOfRange(rank / Pow(|alphabet|, length - 1)))
    decreases length
  {
    if length > 0 {
      var b, p := |alphabet|, Pow(|alphabet|, length - 1);
      DivBound(rank, p, b);
      if rank / p < b {
        DecodedFails(rank % p, alphabet, length - 1);
      }
    }
  }

  /** The symbols decode yields spell out the code (a large code is never
      decoded, so for a positive length the value is the code itself). */
  lemma {:induction false} DecodedValue(rank: nat, alphabet: string, length: int)
    requires |alphabet| >= 1 && Distinct(alphabet)
    ensures Decoded(rank, alphabet, length).Ok? ==>
      Value(Decoded(rank, alphabet, length).value, alphabet) == (if length <= 0 then 0 else rank)
    decreases length
  {
    var r := Decoded(rank, alphabet, length);
    if length > 0 && r.Ok? {
      var p := Pow(|alphabet|, length - 1);
      var index := rank / p;
      var rest := Decoded(rank % p, alphabet, length - 1);
      assert index < |alphabet| && rest.Ok? && r.value == [alphabet[index]] + rest.value;
      DecodedValue(rank % p, alphabet, length - 1);
      IndexOfDistinct(alphabet, index);
      ValueCons(alphabet[index], rest.value, alphabet);
      DivMod(rank, p);
    }
  }

  /** The code of a word whose first letter is c. */
  lemma ValueCons(c: char, tail: string, alphabet: string)
    requires c in alphabet && AllIn(tail, alphabet)
    ensures AllIn([c] + tail, alphabet)
    ensures Value([c] + tail, alphabet) == IndexOf(alphabet, c) * Pow(|alphabet|, |tail|) + Value(tail, alphabet)
  {
    assert ([c] + tail)[1..] == tail;
  }

  /** Round trip: decoding the code of a word with its own length gives the word back. */
  lemma {:induction false} RoundTrip(word: string, alphabet: string)
    requires Distinct(alphabet) && |alphabet| >= 1 && AllIn(word, alphabet)
    ensures Decoded(Value(word, alphabet), alphabet, |word|) == Ok(word)
  {
    if word != [] {
      var b, p := |alphabet|, Pow(|alphabet|, |word| - 1);
      var r0 := IndexOf(alphabet, word[0]);
      var tail := word[1..];
      EncodeBound(tail, alphabet);
      DivModUnique(r0, Value(tail, alphabet), p);
      RoundTrip(tail, alphabet);
      assert [word[0]] + tail == word;
    }
  }

  // ---------------------------------------------------------------------
  // Projection: project

  /** What project's loop leaves of v after subtracting the digits at
      positions i down to lenTo: each step reduces v modulo base^i. */
  function Projected(v: nat, i: int, lenTo: nat, base: nat): nat
    requires base >= 1
    decreases i - lenTo + 1
  {
    if i < lenTo then v else Projected(v % Pow(base, i), i - 1, lenTo, base)
  }

  /** project(value, lenFrom, lenTo, alphabet): subtract the positional value of
      every digit at positions lenFrom down to lenTo. The result is what the
      loop leaves of value, which ProjectedValue shows to be the code of the
      lenTo lowest digits (value itself when the range is empty). */
  method Project(value: nat, lenFrom: int, lenTo: nat, alphabet: string) returns (r: int)
    requires |alphabet| >= 1
    ensures r == Projected(value, lenFrom, lenTo, |alphabet|)
  {
    var base := |alphabet|;
    var v := value;
    var offset := 0;
    var i := lenFrom;
    while i >= lenTo
      invariant offset + v == value
      invariant Projected(v, i, lenTo, base) == Projected(value, lenFrom, lenTo, base)
      decreases i - lenTo + 1
    {
      var p := Pow(base, i);
      var w := v / p;
      ProjectStep(value, v, offset, base, i, lenTo);
      offset := offset + w * p;
      v := v % p;
      i := i - 1;
    }
    r := value - offset;
  }

  /** One iteration of project's loop at position i keeps offset + value
      constant and what the remaining iterations leave unchanged. */
  lemma ProjectStep(value: nat, v: nat, offset: int, base: nat, i: nat, lenTo: nat)
    requires base >= 1 && i >= lenTo && offset + v == value
    ensures offset + v / Pow(base, i) * Pow(base, i) + v % Pow(base, i) == value
    ensures Projected(v % Pow(base, i), i - 1, lenTo, base) == Projected(v, i, lenTo, base)
  {
    DivMod(v, Pow(base, i));
  }

  /** Reducing modulo base^i for i = from down to lenTo is reducing modulo
      base^lenTo, the smallest of them. */
  lemma {:induction false} ProjectedValue(v: nat, from: int, lenTo: nat, base: nat)
    requires base >= 1
    ensures lenTo <= from ==> Projected(v, from, lenTo, base) == v % Pow(base, lenTo)
    ensures lenTo > from ==> Projected(v, from, lenTo, base) == v
    decreases from - lenTo + 1
  {
    if lenTo < from {
      ProjectedValue(v % Pow(base, from), from - 1, lenTo, base);
      PowAdd(base, lenTo, from - lenTo);
      ModMod(v, Pow(base, lenTo), Pow(base, from - lenTo));
    }
  }

  /** The code of a word u + v modulo base^|v| is the code of its suffix v:
      projecting the code of a word from its length down to |v| codes v. */
  lemma ProjectSuffix(u: string, v: string, alphabet: string)
    requires |alphabet| >= 1 && AllIn(u, alphabet) && AllIn(v, alphabet)
    ensures AllIn(u + v, alphabet)
    ensures Value(u + v, alphabet) % Pow(|alphabet|, |v|) == Value(v, alphabet)
  {
    ValueConcat(u, v, alphabet);
    EncodeBound(v, alphabet);
    LowDigits(Value(u + v, alphabet), Value(u, alphabet), Value(v, alphabet), Pow(|alphabet|, |v|));
  }

  /** Projecting the code of u + v from any position at or above |v| down to
      |v| gives the code of the suffix v. */
  lemma ProjectWord(u: string, v: string, alphabet: string, lenFrom: int)
    requires |alphabet| >= 1 && AllIn(u, alphabet) && AllIn(v, alphabet) && lenFrom >= |v|
    ensures AllIn(u + v, alphabet)
    ensures Projected(Value(u + v, alphabet), lenFrom, |v|, |alphabet|) == Value(v, alphabet)
  {
    ProjectSuffix(u, v, alphabet);
    ProjectedValue(Value(u + v, alphabet), lenFrom, |v|, |alphabet|);
  }

  lemma LowDigits(n: nat, x: nat, y: nat, p: nat)
    requires n == x * p + y && y < p
    ensures n % p == y
  {
    DivModUnique(x, y, p);
  }

  // ---------------------------------------------------------------------
  // The "ATCG" wrappers

  const DnaAlphabet: string := "ATCG"

  lemma DnaAlphabetDistinct()
    ensures Distinct(DnaAlphabet) && |DnaAlphabet| == 4
  {
  }

  /** pow2encoderWrapper(word): weightWord over "ATCG" with the word's own length. */
  function Pow2Encode(word: string): (r: Result<nat, EncodeError>)
    ensures r.Ok? <==> AllIn(word, DnaAlphabet)
    ensures r.Ok? ==> r.value == Value(word, DnaAlphabet) && r.value < Pow(4, |word|)
    ensures r.Err? ==> r.error.UnknownSymbol? && r.error.symbol in word && r.error.symbol !in DnaAlphabet
  {
    Encode(word, DnaAlphabet, Some(|word|))
  }

  /** pow2decoderWrapper(code, wLen): decode over "ATCG". */
  function Pow2Decode(code: nat, wordLength: int): (r: Result<string, DecodeError>)
    ensures r.Ok? <==> wordLength <= 0 || code < Pow(4, wordLength)
    ensures r.Ok? ==> |r.value| == (if wordLength <= 0 then 0 else wordLength) && AllIn(r.value, DnaAlphabet)
  {
    DecodedFails(code, DnaAlphabet, wordLength);
    Decoded(code, DnaAlphabet, wordLength)
  }

  /** The two wrappers are mutual inverses on words over "ATCG". */
  lemma Pow2RoundTrip(word: string)
    requires AllIn(word, DnaAlphabet)
    ensures Pow2Encode(word).Ok? && Pow2Decode(Pow2Encode(word).value, |word|) == Ok(word)
  {
    DnaAlphabetDistinct();
    RoundTrip(word, DnaAlphabet);
  }
}
