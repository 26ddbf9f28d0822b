/** The index text (writeIndexes, and the file indexPickle and
    indexAndOccurencePickle write) and its reverse reading (reverse). A file
    is modelled as its sequence of lines without the newline terminators. */
module IndexFile {
  import opened Results
  import opened Numeral

  // ---------------------------------------------------------------------
  // Decimal text

  predicate IsDigit(c: char)
  {
    '0' <= c <= '9'
  }

  /** The separators of str.split() modelled here: space and \t to \r. */
  predicate IsSpace(c: char)
  {
    c == ' ' || '\t' <= c <= '\r'
  }

  predicate AllDigits(s: string)
  {
    forall i :: 0 <= i < |s| ==> IsDigit(s[i])
  }

  function DigitChar(d: nat): (c: char)
    requires d < 10
    ensures IsDigit(c) && c as int - '0' as int == d
  {
    ('0' as int + d) as char
  }

  /** str(n) for a non-negative integer: its decimal digits, no leading zero. */
  function Decimal(n: nat): (s: string)
    ensures |s| >= 1 && AllDigits(s)
    ensures |s| > 1 ==> s[0] != '0'
  {
    if n < 10 then [DigitChar(n)] else Decimal(n / 10) + [DigitChar(n % 10)]
  }

  /** The number a string of decimal digits denotes. */
  function DigitsValue(s: string): nat
    requires AllDigits(s)
  {
    if s == [] then 0
    else DigitsValue(s[..|s| - 1]) * 10 + (s[|s| - 1] as int - '0' as int)
  }

  /** int(token) for a token of decimal digits; None for any other token. */
  function ParseNat(token: string): Option<nat>
  {
    if token != [] && AllDigits(token) then Some(DigitsValue(token)) else None
  }

  /** Reading a number's decimal text gives the number back. */
  lemma {:induction false} DecimalRoundTrip(n: nat)
    ensures ParseNat(Decimal(n)) == Some(n)
  {
    if n >= 10 {
      DecimalRoundTrip(n / 10);
      var s := Decimal(n);
      assert s[..|s| - 1] == Decimal(n / 10);
      assert DigitsValue(s) == DigitsValue(Decimal(n / 10)) * 10 + n % 10;
    }
  }

  // ---------------------------------------------------------------------
  // Writing

  /** ' '.join(fields). */
  function Join(fields: seq<string>): string
  {
    if |fields| == 0 then ""
    else if |fields| == 1 then fields[0]
    else fields[0] + " " + Join(fields[1..])
  }

  /** [str(d) for d in datum]. */
  function DecimalFields(row: seq<nat>): (r: seq<string>)
    ensures |r| == |row| && forall i :: 0 <= i < |row| ==> r[i] == Decimal(row[i])
  {
    if row == [] then [] else [Decimal(row[0])] + DecimalFields(row[1..])
  }

  /** One entry line: the entry's fields in decimal, separated by single spaces. */
  function FormatLine(row: seq<nat>): string
  {
    Join(DecimalFields(row))
  }

  /** writeIndexes(indexData): the entry count, then one line per entry, in list order. */
  function WriteIndexes(rows: seq<seq<nat>>): (lines: seq<string>)
    ensures |lines| == |rows| + 1 && lines[0] == Decimal(|rows|)
    ensures forall i :: 0 <= i < |rows| ==> lines[i + 1] == FormatLine(rows[i])
  {
    [Decimal(|rows|)] + seq(|rows|, i requires 0 <= i < |rows| => FormatLine(rows[i]))
  }

  /** The rows of the weighted index: each (code, weight) entry as two fields. */
  function EntryRows(entries: seq<(nat, nat)>): (rows: seq<seq<nat>>)
    ensures |rows| == |entries| && forall i :: 0 <= i < |entries| ==> rows[i] == [entries[i].0, entries[i].1]
  {
    seq(|entries|, i requires 0 <= i < |entries| => [entries[i].0, entries[i].1])
  }

  /** The rows of indexPickle's file: each code alone on its line. */
  function CodeRows(codes: seq<nat>): (rows: seq<seq<nat>>)
    ensures |rows| == |codes| && forall i :: 0 <= i < |codes| ==> rows[i] == [codes[i]]
  {
    seq(|codes|, i requires 0 <= i < |codes| => [codes[i]])
  }

  /** The file indexPickle writes (the count, then each code alone on its
      line) is what writeIndexes writes for one-field rows. */
  lemma CodeLines(codes: seq<nat>)
    ensures var lines := WriteIndexes(CodeRows(codes));
      && |lines| == |codes| + 1
      && lines[0] == Decimal(|codes|)
      && forall i :: 0 <= i < |codes| ==> lines[i + 1] == Decimal(codes[i])
  {
    forall i | 0 <= i < |codes| ensures FormatLine(CodeRows(codes)[i]) == Decimal(codes[i]) {
      assert DecimalFields([codes[i]]) == [Decimal(codes[i])];
    }
  }

  // ---------------------------------------------------------------------
  // Reading back

  /** str.split() with no argument, from position 0 of s with the token cur
      under construction: the maximal runs of non-separator characters. */
  function SplitFrom(s: string, cur: string): seq<string>
    decreases |s|
  {
    if s == [] then (if cur == [] then [] else [cur])
    else if IsSpace(s[0]) then (if cur == [] then [] else [cur]) + SplitFrom(s[1..], [])
    else SplitFrom(s[1..], cur + [s[0]])
  }

  /** line.split(). */
  function Split(line: string): seq<string>
  {
    SplitFrom(line, [])
  }

  /** int() of every field, or None if one is not a decimal number. */
  function ParseFields(tokens: seq<string>): (r: Option<seq<nat>>)
    ensures r.Some? ==> |r.value| == |tokens|
  {
    if tokens == [] then Some([])
    else match (ParseNat(tokens[0]), ParseFields(tokens[1..]))
      case (Some(n), Some(ns)) => Some([n] + ns)
      case _ => None
  }

  /** A line of the index as its integer fields. */
  function ReadLine(line: string): Option<seq<nat>>
  {
    ParseFields(Split(line))
  }

  /** Every line of a file as integer fields, or None if one line is not. */
  function ReadLines(lines: seq<string>): (r: Option<seq<seq<nat>>>)
    ensures r.Some? ==> |r.value| == |lines|
  {
    if lines == [] then Some([])
    else match (ReadLine(lines[0]), ReadLines(lines[1..]))
      case (Some(row), Some(rows)) => Some([row] + rows)
      case _ => None
  }

  predicate NoSpace(s: string)
  {
    forall i :: 0 <= i < |s| ==> !IsSpace(s[i])
  }

  lemma {:induction false} SplitToken(token: string, rest: string, cur: string)
    requires NoSpace(token)
    ensures SplitFrom(token + rest, cur) == SplitFrom(rest, cur + token)
  {
    if token != [] {
      assert (token + rest)[1..] == token[1..] + rest;
      SplitToken(token[1..], rest, cur + [token[0]]);
      assert cur + [token[0]] + token[1..] == cur + token;
    } else {
      assert token + rest == rest && cur + token == cur;
    }
  }

  lemma {:induction false} SplitJoin(tokens: seq<string>, cur: string)
    requires |tokens| >= 1 && forall i :: 0 <= i < |tokens| ==> tokens[i] != [] && NoSpace(tokens[i])
    ensures SplitFrom(Join(tokens), cur) == [cur + tokens[0]] + tokens[1..]
    decreases |tokens|
  {
    if |tokens| == 1 {
      SplitToken(tokens[0], [], cur);
      assert tokens[0] + [] == tokens[0];
    } else {
      var rest := Join(tokens[1..]);
      assert Join(tokens) == tokens[0] + (" " + rest);
      SplitToken(tokens[0], " " + rest, cur);
      assert (" " + rest)[1..] == rest;
      SplitJoin(tokens[1..], []);
      assert [] + tokens[1..][0] == tokens[1];
      assert [tokens[1]] + tokens[1..][1..] == tokens[1..];
    }
  }

  lemma {:induction false} ParseDecimalFields(row: seq<nat>)
    ensures ParseFields(DecimalFields(row)) == Some(row)
  {
    if row != [] {
      DecimalRoundTrip(row[0]);
      ParseDecimalFields(row[1..]);
      assert DecimalFields(row)[1..] == DecimalFields(row[1..]);
      assert [row[0]] + row[1..] == row;
    }
  }

  /** Splitting and parsing an entry line gives back the entry's fields. */
  lemma ReadFormattedLine(row: seq<nat>)
    ensures ReadLine(FormatLine(row)) == Some(row)
  {
    var fields := DecimalFields(row);
    if row != [] {
      forall i | 0 <= i < |fields| ensures fields[i] != [] && NoSpace(fields[i]) {
        var d := Decimal(row[i]);
        assert forall k :: 0 <= k < |d| ==> IsDigit(d[k]);
      }
      SplitJoin(fields, []);
      assert [] + fields[0] == fields[0];
      assert [fields[0]] + fields[1..] == fields;
    }
    ParseDecimalFields(row);
  }

  /** Reading a written index gives back its header count and its rows. */
  lemma {:induction false} ReadWritten(rows: seq<seq<nat>>)
    ensures ReadLines(WriteIndexes(rows)) == Some([[|rows|]] + rows)
  {
    var lines := WriteIndexes(rows);
    ReadFormattedLine([|rows|]);
    assert FormatLine([|rows|]) == Decimal(|rows|);
    ReadBody(rows, lines[1..]);
    assert lines == [lines[0]] + lines[1..];
  }

  lemma {:induction false} ReadBody(rows: seq<seq<nat>>, lines: seq<string>)
    requires |lines| == |rows| && forall i :: 0 <= i < |rows| ==> lines[i] == FormatLine(rows[i])
    ensures ReadLines(lines) == Some(rows)
  {
    if rows != [] {
      ReadFormattedLine(rows[0]);
      ReadBody(rows[1..], lines[1..]);
      assert [rows[0]] + rows[1..] == rows;
    }
  }

  // ---------------------------------------------------------------------
  // Reverse reading

  /** How reverse ends: after the last line; after printing "Can't decode" for
      a code the decoder rejects (its AssertionError); or with the IndexError
      that a line without any field raises at _[0], which reverse does not catch. */
  datatype Stop = Finished | CannotDecode(code: nat) | MissingField

  /** The decoder reverse calls: code and motif length to word, or the failed assertion. */
  type Decoder = (nat, int) -> Result<string, DecodeError>

  /** Prefixes words to the outcome of the remaining lines. */
  function Then(words: seq<string>, rest: (seq<string>, Stop)): (seq<string>, Stop)
  {
    (words + rest.0, rest.1)
  }

  /** What reverse prints, and how it ends, for tokenised lines. */
  function Reversed(lines: seq<seq<nat>>, motifLength: int, skipFirst: bool, decoder: Decoder): (seq<string>, Stop)
    decreases |lines|
  {
    if lines == [] then ([], Finished)
    else if skipFirst then Reversed(lines[1..], motifLength, false, decoder)
    else if lines[0] == [] then ([], MissingField)
    else match decoder(lines[0][0], motifLength)
      case Err(_) => ([], CannotDecode(lines[0][0]))
      case Ok(w) => Then([w], Reversed(lines[1..], motifLength, false, decoder))
  }

  /** reverse(indexFile, motifLength, skipFirst): the loop over the lines. */
  method Reverse(lines: seq<seq<nat>>, motifLength: int, skipFirst: bool, decoder: Decoder)
    returns (words: seq<string>, stop: Stop)
    ensures (words, stop) == Reversed(lines, motifLength, skipFirst, decoder)
  {
    words, stop := [], Finished;
    var skip := skipFirst;
    var i := 0;
    assert lines[i..] == lines;
    assert [] + Reversed(lines, motifLength, skipFirst, decoder).0 == Reversed(lines, motifLength, skipFirst, decoder).0;
    while i < |lines|
      invariant 0 <= i <= |lines|
      invariant Reversed(lines, motifLength, skipFirst, decoder) == Then(words, Reversed(lines[i..], motifLength, skip, decoder))
    {
      assert lines[i..][1..] == lines[i + 1..];
      if skip {
        skip := false;
        i := i + 1;
        continue;
      }
      var fields := lines[i];
      if fields == [] {
        stop := MissingField;
        assert words + [] == words;
        return;
      }
      match decoder(fields[0], motifLength) {
        case Err(_) =>
          stop := CannotDecode(fields[0]);
          assert words + [] == words;
          return;
        case Ok(s) =>
          assert words + ([s] + Reversed(lines[i + 1..], motifLength, false, decoder).0)
              == (words + [s]) + Reversed(lines[i + 1..], motifLength, false, decoder).0;
          words := words + [s];
      }
      i := i + 1;
    }
    assert words + [] == words;
  }

  /** Every line has a first field the decoder accepts. */
  predicate Decodable(rows: seq<seq<nat>>, motifLength: int, decoder: Decoder)
  {
    forall j :: 0 <= j < |rows| ==> rows[j] != [] && decoder(rows[j][0], motifLength).Ok?
  }

  /** The words of decodable lines' first fields, in line order. */
  function FirstFieldWords(rows: seq<seq<nat>>, motifLength: int, decoder: Decoder): (words: seq<string>)
    requires Decodable(rows, motifLength, decoder)
    ensures |words| == |rows|
    ensures forall j :: 0 <= j < |rows| ==> decoder(rows[j][0], motifLength) == Ok(words[j])
  {
    seq(|rows|, j requires 0 <= j < |rows| && Decodable(rows, motifLength, decoder) => decoder(rows[j][0], motifLength).value)
  }

  /** Decodable lines all print, and reading continues with what follows them. */
  lemma {:induction false} ReversedPrefix(good: seq<seq<nat>>, rest: seq<seq<nat>>, motifLength: int, decoder: Decoder)
    requires Decodable(good, motifLength, decoder)
    ensures Reversed(good + rest, motifLength, false, decoder)
      == Then(FirstFieldWords(good, motifLength, decoder), Reversed(rest, motifLength, false, decoder))
    decreases |good|
  {
    if good == [] {
      assert good + rest == rest;
      var r := Reversed(rest, motifLength, false, decoder);
      assert FirstFieldWords(good, motifLength, decoder) + r.0 == r.0;
    } else {
      assert (good + rest)[0] == good[0] && (good + rest)[1..] == good[1..] + rest;
      ReversedPrefix(good[1..], rest, motifLength, decoder);
      var ws := FirstFieldWords(good, motifLength, decoder);
      var ws' := FirstFieldWords(good[1..], motifLength, decoder);
      assert ws == [ws[0]] + ws' by {
        forall j | 0 <= j < |ws'| ensures ws[j + 1] == ws'[j] {
          assert good[1..][j] == good[j + 1];
        }
      }
      var r := Reversed(rest, motifLength, false, decoder);
      assert [ws[0]] + (ws' + r.0) == ws + r.0;
    }
  }

  /** After the header, reverse prints the word of every line, in order, when all decode. */
  lemma ReverseReadsAll(lines: seq<seq<nat>>, motifLength: int, decoder: Decoder)
    requires |lines| >= 1 && Decodable(lines[1..], motifLength, decoder)
    ensures Reversed(lines, motifLength, true, decoder) == (FirstFieldWords(lines[1..], motifLength, decoder), Finished)
  {
    ReversedPrefix(lines[1..], [], motifLength, decoder);
    assert lines[1..] + [] == lines[1..];
    var words := FirstFieldWords(lines[1..], motifLength, decoder);
    assert words + [] == words;
  }

  /** Fail-fast: at the first line after the header that has no field or the
      decoder rejects, reverse stops; the earlier lines' words are printed and
      none after. */
  lemma ReverseStopsAt(lines: seq<seq<nat>>, motifLength: int, decoder: Decoder, k: nat)
    requires 1 <= k < |lines| && Decodable(lines[1..k], motifLength, decoder)
    requires lines[k] == [] || decoder(lines[k][0], motifLength).Err?
    ensures Reversed(lines, motifLength, true, decoder) ==
      (FirstFieldWords(lines[1..k], motifLength, decoder), if lines[k] == [] then MissingField else CannotDecode(lines[k][0]))
  {
    ReversedPrefix(lines[1..k], lines[k..], motifLength, decoder);
    assert lines[1..] == lines[1..k] + lines[k..];
    var words := FirstFieldWords(lines[1..k], motifLength, decoder);
    assert words + [] == words;
  }

  /** Two lines agree on whether they have a field and on the first one. */
  predicate SameFirstField(a: seq<nat>, b: seq<nat>)
  {
    (a == [] <==> b == []) && (a != [] ==> a[0] == b[0])
  }

  /** reverse reads only the first field of each line after the header: any
      weight field, and the header line itself, are ignored. */
  lemma {:induction false} ReverseIgnoresOtherFields(lines: seq<seq<nat>>, lines': seq<seq<nat>>, motifLength: int, skipFirst: bool, decoder: Decoder)
    requires |lines| == |lines'|
    requires forall j :: (if skipFirst then 1 else 0) <= j < |lines| ==> SameFirstField(lines[j], lines'[j])
    ensures Reversed(lines, motifLength, skipFirst, decoder) == Reversed(lines', motifLength, skipFirst, decoder)
    decreases |lines|
  {
    if lines != [] {
      forall j | 0 <= j < |lines| - 1 ensures SameFirstField(lines[1..][j], lines'[1..][j]) {
        assert SameFirstField(lines[j + 1], lines'[j + 1]);
      }
      ReverseIgnoresOtherFields(lines[1..], lines'[1..], motifLength, false, decoder);
      if !skipFirst {
        assert SameFirstField(lines[0], lines'[0]);
      }
    }
  }
}
