/**
  Greedy CTC decoding of the recognition network's output
  (OCR_CRNNDetect.Postprocess(Mat scores)).

  The score matrix is taken after its reshape to one row per timestep; each
  row holds one score per class, class 0 being the CTC blank. A row's class is
  its first maximal index (the tie-break of OpenCV's MinMaxLoc, assumed here).
  Class 0 becomes the blank marker '_', class i > 0 the alphabet character
  i - 1; a class past the end of the alphabet is an index error in the source
  and an Err here. The raw symbols are then collapsed: a symbol is kept when it
  is not '_' and differs from the raw symbol just before it.
*/
module SequenceDecoder {
  import opened Results

  /** The marker the source stores for a blank timestep. */
  const Blank: char := '_'

  datatype RecognitionError =
    /** Row `row` has its maximum at class `classIndex`, but the alphabet has
        fewer than `classIndex` characters. */
    AlphabetIndexOutOfRange(row: nat, classIndex: nat)

  /** Every timestep row holds at least one class score. */
  predicate WellFormed(scores: seq<seq<real>>) {
    forall i :: 0 <= i < |scores| ==> |scores[i]| > 0
  }

  // ---------------------------------------------------------------------------
  // Per-row class selection and symbol mapping
  // ---------------------------------------------------------------------------

  /** The first index of a maximal element of `row`. */
  function ArgMax(row: seq<real>): (k: nat)
    requires |row| > 0
    ensures k < |row|
    ensures forall j :: 0 <= j < |row| ==> row[j] <= row[k]
    ensures forall j :: 0 <= j < k ==> row[j] < row[k]
  {
    if |row| == 1 then 0
    else
      var k := ArgMax(row[..|row| - 1]);
      if row[|row| - 1] > row[k] then |row| - 1 else k
  }

  /** The two properties of ArgMax determine it. */
  lemma ArgMaxUnique(row: seq<real>, k: nat)
    requires |row| > 0 && k < |row|
    ensures (forall j :: 0 <= j < |row| ==> row[j] <= row[k]) &&
            (forall j :: 0 <= j < k ==> row[j] < row[k])
            <==> k == ArgMax(row)
  {
  }

  /** True when the class chosen for a row has a symbol. */
  predicate InAlphabet(classIndex: nat, alphabet: string) {
    classIndex <= |alphabet|
  }

  /** The raw symbol of a class: blank for 0, else the alphabet character. */
  function ClassSymbol(classIndex: nat, alphabet: string): char
    requires InAlphabet(classIndex, alphabet)
  {
    if classIndex > 0 then alphabet[classIndex - 1] else Blank
  }

  /** The raw symbol of every row, or the error for the first row whose class
      lies past the end of the alphabet (rows are taken in order, as the source
      fills its element list). */
  function RawSymbols(scores: seq<seq<real>>, alphabet: string): Result<seq<char>, RecognitionError>
    requires WellFormed(scores)
  {
    if |scores| == 0 then Ok([])
    else
      var last := |scores| - 1;
      match RawSymbols(scores[..last], alphabet)
      case Err(e) => Err(e)
      case Ok(prefix) =>
        var k := ArgMax(scores[last]);
        if InAlphabet(k, alphabet) then Ok(prefix + [ClassSymbol(k, alphabet)])
        else Err(AlphabetIndexOutOfRange(last, k))
  }

  /** Row i's raw symbol is the blank for class 0 and alphabet character
      class - 1 otherwise; the decoding fails exactly when some row's class has
      no character. */
  lemma {:induction false} RawSymbolsPerRow(scores: seq<seq<real>>, alphabet: string)
    requires WellFormed(scores)
    ensures var r := RawSymbols(scores, alphabet);
            && (r.Ok? <==> forall i :: 0 <= i < |scores| ==> InAlphabet(ArgMax(scores[i]), alphabet))
            && (r.Ok? ==> |r.value| == |scores| &&
                          forall i :: 0 <= i < |scores| ==> r.value[i] == ClassSymbol(ArgMax(scores[i]), alphabet))
  {
    if |scores| > 0 {
      var last := |scores| - 1;
      var init := scores[..last];
      RawSymbolsPerRow(init, alphabet);
      assert forall i :: 0 <= i < last ==> init[i] == scores[i];
    }
  }

  /** A failed decoding names the first row whose class has no character. */
  lemma {:induction false} RawSymbolsFirstError(scores: seq<seq<real>>, alphabet: string)
    requires WellFormed(scores)
    ensures var r := RawSymbols(scores, alphabet);
            r.Err? ==> && r.error.row < |scores|
                       && r.error.classIndex == ArgMax(scores[r.error.row])
                       && !InAlphabet(r.error.classIndex, alphabet)
                       && forall i :: 0 <= i < r.error.row ==> InAlphabet(ArgMax(scores[i]), alphabet)
  {
    if |scores| > 0 {
      var last := |scores| - 1;
      var init := scores[..last];
      RawSymbolsFirstError(init, alphabet);
      RawSymbolsPerRow(init, alphabet);
      assert forall i :: 0 <= i < last ==> init[i] == scores[i];
    }
  }

  /** Once a prefix of the rows fails, the whole matrix fails with the same error. */
  lemma {:induction false} RawSymbolsPrefixError(scores: seq<seq<real>>, n: nat, alphabet: string)
    requires WellFormed(scores) && n <= |scores|
    requires RawSymbols(scores[..n], alphabet).Err?
    ensures RawSymbols(scores, alphabet) == RawSymbols(scores[..n], alphabet)
    decreases |scores| - n
  {
    if n < |scores| {
      assert scores[..n + 1][..n] == scores[..n];
      RawSymbolsPrefixError(scores, n + 1, alphabet);
    } else {
      assert scores[..n] == scores;
    }
  }

  // ---------------------------------------------------------------------------
  // Collapse of the raw symbols
  // ---------------------------------------------------------------------------

  /** Raw symbol `j` is emitted: it is not blank and differs from its raw predecessor. */
  predicate Emitted(raw: seq<char>, j: nat)
    requires j < |raw|
  {
    raw[j] != Blank && (j == 0 || raw[j - 1] != raw[j])
  }

  /** The emitted raw symbols, in timestep order. */
  function Collapse(raw: seq<char>): (text: string)
    ensures |text| <= |raw|
    ensures forall i :: 0 <= i < |text| ==> text[i] != Blank
  {
    if |raw| == 0 then ""
    else
      var last := |raw| - 1;
      Collapse(raw[..last]) + (if Emitted(raw, last) then [raw[last]] else "")
  }

  /** Reference definition, part one: merge each run of equal symbols into one. */
  function MergeRepeats(s: seq<char>): seq<char> {
    if |s| == 0 then []
    else if |s| > 1 && s[|s| - 2] == s[|s| - 1] then MergeRepeats(s[..|s| - 1])
    else MergeRepeats(s[..|s| - 1]) + [s[|s| - 1]]
  }

  /** Reference definition, part two: drop every blank. */
  function RemoveBlanks(s: seq<char>): string {
    if |s| == 0 then ""
    else RemoveBlanks(s[..|s| - 1]) + (if s[|s| - 1] == Blank then "" else [s[|s| - 1]])
  }

  lemma {:induction false} RemoveBlanksAppend(a: seq<char>, c: char)
    ensures RemoveBlanks(a + [c]) == RemoveBlanks(a) + (if c == Blank then "" else [c])
  {
    assert (a + [c])[..|a|] == a;
  }

  /** The source's collapse is the textbook CTC rule: merge repeats, then drop blanks. */
  lemma {:induction false} CollapseIsMergeThenRemoveBlanks(raw: seq<char>)
    ensures Collapse(raw) == RemoveBlanks(MergeRepeats(raw))
  {
    if |raw| > 0 {
      var last := |raw| - 1;
      var init := raw[..last];
      CollapseIsMergeThenRemoveBlanks(init);
      if last > 0 && raw[last - 1] == raw[last] {
        assert MergeRepeats(raw) == MergeRepeats(init);
      } else {
        assert MergeRepeats(raw) == MergeRepeats(init) + [raw[last]];
        RemoveBlanksAppend(MergeRepeats(init), raw[last]);
      }
    }
  }

  lemma {:induction false} CollapseAppend(a: seq<char>, c: char)
    ensures Collapse(a + [c]) ==
            Collapse(a) + (if c != Blank && (|a| == 0 || a[|a| - 1] != c) then [c] else "")
  {
    assert (a + [c])[..|a|] == a;
  }

  /** The text is empty exactly when every raw symbol is blank. */
  lemma {:induction false} CollapseEmptyIffAllBlank(raw: seq<char>)
    ensures Collapse(raw) == "" <==> forall i :: 0 <= i < |raw| ==> raw[i] == Blank
  {
    if |raw| > 0 {
      var last := |raw| - 1;
      CollapseEmptyIffAllBlank(raw[..last]);
    }
  }

  function Repeat(c: char, n: nat): (s: seq<char>)
    ensures |s| == n && forall i :: 0 <= i < n ==> s[i] == c
  {
    if n == 0 then [] else Repeat(c, n - 1) + [c]
  }

  /** A run of equal raw symbols yields at most one character. */
  lemma {:induction false} CollapseRun(prefix: seq<char>, c: char, n: nat)
    ensures Collapse(prefix + Repeat(c, n + 1)) == Collapse(prefix + [c])
  {
    if n > 0 {
      CollapseRun(prefix, c, n - 1);
      var s := prefix + Repeat(c, n);
      assert prefix + Repeat(c, n + 1) == s + [c];
      CollapseAppend(s, c);
      assert s[|s| - 1] == c;
    }
  }

  /** A blank separates the text: what comes before it and what comes after it
      are collapsed independently. */
  lemma {:induction false} CollapseSplitsAtBlank(a: seq<char>, b: seq<char>)
    ensures Collapse(a + [Blank] + b) == Collapse(a) + Collapse(b)
  {
    if |b| == 0 {
      assert a + [Blank] + b == a + [Blank];
      CollapseAppend(a, Blank);
    } else {
      var last := |b| - 1;
      var init, c := b[..last], b[last];
      var s := a + [Blank] + init;
      CollapseSplitsAtBlank(a, init);
      assert a + [Blank] + b == s + [c];
      assert b == init + [c];
      CollapseAppend(s, c);
      CollapseAppend(init, c);
      assert s[|s| - 1] == if |init| == 0 then Blank else init[|init| - 1];
    }
  }

  // Examples of the collapse rule, for any symbol `a`.

  /** "_aa_a" gives "aa": the first run collapses, the blank lets the last `a` through. */
  lemma CollapseExampleBlankSeparated(a: char)
    requires a != Blank
    ensures Collapse([Blank, a, a, Blank, a]) == [a, a]
  {
    var s1, s2, s3, s4, s5 := [Blank], [Blank, a], [Blank, a, a], [Blank, a, a, Blank], [Blank, a, a, Blank, a];
    assert s1 == [] + [Blank] && s2 == s1 + [a] && s3 == s2 + [a] && s4 == s3 + [Blank] && s5 == s4 + [a];
    CollapseAppend([], Blank);
    assert Collapse(s1) == [];
    CollapseAppend(s1, a);
    assert Collapse(s2) == [a];
    CollapseAppend(s2, a);
    assert Collapse(s3) == [a];
    CollapseAppend(s3, Blank);
    assert Collapse(s4) == [a];
    CollapseAppend(s4, a);
  }

  /** "aaa" gives "a" and "a_a" gives "aa". */
  lemma CollapseExampleRuns(a: char)
    requires a != Blank
    ensures Collapse([a, a, a]) == [a]
    ensures Collapse([a, Blank, a]) == [a, a]
  {
    CollapseAppend([], a);
    assert [] + [a] == [a];
    CollapseAppend([a], a);
    assert [a] + [a] == [a, a];
    CollapseAppend([a, a], a);
    assert [a, a] + [a] == [a, a, a];
    CollapseAppend([a], Blank);
    assert [a] + [Blank] == [a, Blank];
    CollapseAppend([a, Blank], a);
    assert [a, Blank] + [a] == [a, Blank, a];
  }

  // ---------------------------------------------------------------------------
  // The whole decoder
  // ---------------------------------------------------------------------------

  /** Specification of Postprocess(Mat scores). */
  function CtcDecode(scores: seq<seq<real>>, alphabet: string): (r: Result<string, RecognitionError>)
    requires WellFormed(scores)
    ensures r.Ok? <==> forall i :: 0 <= i < |scores| ==> ArgMax(scores[i]) <= |alphabet|
    ensures r.Ok? ==> |r.value| <= |scores| && forall i :: 0 <= i < |r.value| ==> r.value[i] != Blank
  {
    RawSymbolsPerRow(scores, alphabet);
    match RawSymbols(scores, alphabet)
    case Ok(raw) => Ok(Collapse(raw))
    case Err(e) => Err(e)
  }

  /** Zero rows, or rows whose maximum is always the blank class, give "". */
  lemma {:induction false} AllBlankRowsDecodeEmpty(scores: seq<seq<real>>, alphabet: string)
    requires WellFormed(scores)
    requires forall i :: 0 <= i < |scores| ==> ArgMax(scores[i]) == 0
    ensures CtcDecode(scores, alphabet) == Ok("")
  {
    RawSymbolsPerRow(scores, alphabet);
    var raw := RawSymbols(scores, alphabet).value;
    CollapseEmptyIffAllBlank(raw);
  }

  /** An alphabet with one character per non-blank class never fails. */
  lemma AlphabetCoveringClassesDecodes(scores: seq<seq<real>>, alphabet: string)
    requires WellFormed(scores)
    requires forall i :: 0 <= i < |scores| ==> |scores[i]| <= |alphabet| + 1
    ensures CtcDecode(scores, alphabet).Ok?
  {
  }

  /** Postprocess(Mat scores): build the raw symbols row by row, then collapse them. */
  method RecognitionPostprocess(scores: seq<seq<real>>, alphabet: string)
    returns (r: Result<string, RecognitionError>)
    requires WellFormed(scores)
    ensures r == CtcDecode(scores, alphabet)
  {
    var elements: seq<char> := [];
    var i := 0;
    while i < |scores|
      invariant 0 <= i <= |scores|
      invariant RawSymbols(scores[..i], alphabet) == Ok(elements)
    {
      assert scores[..i + 1][..i] == scores[..i];
      var max := ArgMax(scores[i]);
      if max > 0 {
        if max - 1 >= |alphabet| {
          RawSymbolsPrefixError(scores, i + 1, alphabet);
          return Err(AlphabetIndexOutOfRange(i, max));
        }
        elements := elements + [alphabet[max - 1]];
      } else {
        elements := elements + [Blank];
      }
      i := i + 1;
    }
    assert scores[..i] == scores;

    var text := CollapseElements(elements);
    return Ok(text);
  }

  /** The second half of Postprocess(Mat scores): the emitted symbols of `elements`. */
  method CollapseElements(elements: seq<char>) returns (text: string)
    ensures text == Collapse(elements)
  {
    text := "";
    if |elements| > 0 && elements[0] != Blank {
      text := text + [elements[0]];
    }
    if |elements| > 0 {
      assert elements[..1] == [] + [elements[0]];
      CollapseAppend([], elements[0]);
    }
    var j := 1;
    while j < |elements|
      invariant |elements| == 0 ==> text == ""
      invariant |elements| > 0 ==> 1 <= j <= |elements| && text == Collapse(elements[..j])
    {
      assert elements[..j + 1] == elements[..j] + [elements[j]];
      CollapseAppend(elements[..j], elements[j]);
      if j > 0 && elements[j] != Blank && elements[j - 1] != elements[j] {
        text := text + [elements[j]];
      }
      j := j + 1;
    }
    assert |elements| > 0 ==> elements[..j] == elements;
  }
}
