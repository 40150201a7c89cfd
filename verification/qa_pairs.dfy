/**
 Question/answer extraction (`extract_qa_pairs`) and the question/answer block that
 `analyze_with_gemini` places in its prompt.
 */
module QaPairs {
  import opened Text
  import opened Results

  /** One table row as seen through the two chosen columns; `None` is a missing (NaN) cell,
      `Some(s)` is `str()` of the cell value. */
  datatype Row = Row(question: Option<string>, answer: Option<string>)

  /** One extracted pair; `id` is the 1-based position of its row in the table. */
  datatype QaPair = QaPair(id: nat, question: string, answer: string)

  /** The text of a cell: its string form, or "" when the cell is missing. */
  function CellText(cell: Option<string>): string {
    if cell.Some? then cell.value else ""
  }

  /** Both cells have a non-whitespace character. */
  predicate Answered(row: Row) {
    !AllSpace(CellText(row.question)) && !AllSpace(CellText(row.answer))
  }

  /** `p` is the pair made from the answered row at position `p.id - 1`. */
  predicate Describes(rows: seq<Row>, p: QaPair) {
    && 1 <= p.id <= |rows|
    && Answered(rows[p.id - 1])
    && p.question == Strip(CellText(rows[p.id - 1].question))
    && p.answer == Strip(CellText(rows[p.id - 1].answer))
    && p.question != "" && p.answer != ""
  }

  predicate IdsIncrease(pairs: seq<QaPair>) {
    forall k, l :: 0 <= k < l < |pairs| ==> pairs[k].id < pairs[l].id
  }

  /** Some pair carries the number of the row at position `i`. */
  predicate HasPairFor(pairs: seq<QaPair>, i: nat) {
    exists k :: 0 <= k < |pairs| && pairs[k].id == i + 1
  }

  /** A row is answered exactly when some pair carries its number. */
  predicate CoversAnswered(rows: seq<Row>, pairs: seq<QaPair>) {
    forall i: nat {:trigger HasPairFor(pairs, i)} :: i < |rows| ==> (Answered(rows[i]) <==> HasPairFor(pairs, i))
  }

  /**
   `extract_qa_pairs`: keeps, in table order, the rows whose question and answer are both
   non-blank, stripping both and numbering each by its row position plus one. Numbers of
   dropped rows are skipped, not reused.
   */
  function ExtractQaPairs(rows: seq<Row>): (pairs: seq<QaPair>)
    ensures forall k :: 0 <= k < |pairs| ==> Describes(rows, pairs[k])
    ensures IdsIncrease(pairs)
    ensures CoversAnswered(rows, pairs)
  {
    if rows == [] then []
    else
      var earlier := ExtractQaPairs(rows[..|rows| - 1]);
      ExtractStep(rows, earlier);
      StepPairs(rows, earlier)
  }

  /** The pairs the extraction produces for `rows`, given those for all rows but the last. */
  function StepPairs(rows: seq<Row>, earlier: seq<QaPair>): seq<QaPair>
    requires rows != []
  {
    var row := rows[|rows| - 1];
    var question := CellText(row.question);
    var answer := CellText(row.answer);
    if question != "" && answer != "" && Strip(question) != "" && Strip(answer) != "" then
      earlier + [QaPair(|rows|, Strip(question), Strip(answer))]
    else
      earlier
  }

  /** One more row keeps the three properties of the extraction. */
  lemma ExtractStep(rows: seq<Row>, earlier: seq<QaPair>)
    requires rows != []
    requires forall k :: 0 <= k < |earlier| ==> Describes(rows[..|rows| - 1], earlier[k])
    requires IdsIncrease(earlier)
    requires CoversAnswered(rows[..|rows| - 1], earlier)
    ensures forall k :: 0 <= k < |StepPairs(rows, earlier)| ==> Describes(rows, StepPairs(rows, earlier)[k])
    ensures IdsIncrease(StepPairs(rows, earlier))
    ensures CoversAnswered(rows, StepPairs(rows, earlier))
  {
    var n := |rows|;
    var row := rows[n - 1];
    StripEmptyIffAllSpace(CellText(row.question));
    StripEmptyIffAllSpace(CellText(row.answer));
    EarlierStillDescribe(rows, earlier);
    StepDescribes(rows, earlier);
    StepCovers(rows, earlier);
  }

  lemma EarlierStillDescribe(rows: seq<Row>, earlier: seq<QaPair>)
    requires rows != []
    requires forall k :: 0 <= k < |earlier| ==> Describes(rows[..|rows| - 1], earlier[k])
    ensures forall k :: 0 <= k < |earlier| ==> Describes(rows, earlier[k]) && earlier[k].id < |rows|
  {
    forall k | 0 <= k < |earlier| ensures Describes(rows, earlier[k]) && earlier[k].id < |rows| {
      assert Describes(rows[..|rows| - 1], earlier[k]);
      assert rows[..|rows| - 1][earlier[k].id - 1] == rows[earlier[k].id - 1];
    }
  }

  lemma StepDescribes(rows: seq<Row>, earlier: seq<QaPair>)
    requires rows != []
    requires forall k :: 0 <= k < |earlier| ==> Describes(rows, earlier[k]) && earlier[k].id < |rows|
    requires IdsIncrease(earlier)
    ensures forall k :: 0 <= k < |StepPairs(rows, earlier)| ==> Describes(rows, StepPairs(rows, earlier)[k])
    ensures IdsIncrease(StepPairs(rows, earlier))
  {
    var row := rows[|rows| - 1];
    var question := CellText(row.question);
    var answer := CellText(row.answer);
    var pairs := StepPairs(rows, earlier);
    if question != "" && answer != "" && Strip(question) != "" && Strip(answer) != "" {
      var x := QaPair(|rows|, Strip(question), Strip(answer));
      assert pairs == earlier + [x];
      StripEmptyIffAllSpace(question);
      StripEmptyIffAllSpace(answer);
      assert Describes(rows, x);
      forall k | 0 <= k < |pairs| ensures Describes(rows, pairs[k]) {
        if k < |earlier| { assert pairs[k] == earlier[k]; }
      }
      forall k, l | 0 <= k < l < |pairs| ensures pairs[k].id < pairs[l].id {
        assert pairs[k] == earlier[k];
        if l < |earlier| { assert pairs[l] == earlier[l]; }
      }
    } else {
      assert pairs == earlier;
    }
  }

  lemma StepCovers(rows: seq<Row>, earlier: seq<QaPair>)
    requires rows != []
    requires forall k :: 0 <= k < |earlier| ==> earlier[k].id < |rows|
    requires CoversAnswered(rows[..|rows| - 1], earlier)
    ensures CoversAnswered(rows, StepPairs(rows, earlier))
  {
    var n := |rows|;
    var row := rows[n - 1];
    StripEmptyIffAllSpace(CellText(row.question));
    StripEmptyIffAllSpace(CellText(row.answer));
    var pairs := StepPairs(rows, earlier);
    if Answered(row) {
      var x := QaPair(n, Strip(CellText(row.question)), Strip(CellText(row.answer)));
      assert pairs == earlier + [x];
      forall i: nat | i < n ensures Answered(rows[i]) <==> HasPairFor(pairs, i) {
        if i < n - 1 {
          CoverEarlierRow(rows, earlier, i);
          HasPairForSnoc(earlier, x, i);
        } else {
          assert pairs[|earlier|].id == n;
        }
      }
    } else {
      assert pairs == earlier;
      forall i: nat | i < n ensures Answered(rows[i]) <==> HasPairFor(pairs, i) {
        if i < n - 1 {
          CoverEarlierRow(rows, earlier, i);
        } else {
          assert !HasPairFor(earlier, i);
        }
      }
    }
  }

  /** A row before the last is covered as it was before the last row came. */
  lemma CoverEarlierRow(rows: seq<Row>, earlier: seq<QaPair>, i: nat)
    requires rows != [] && i < |rows| - 1
    requires CoversAnswered(rows[..|rows| - 1], earlier)
    ensures Answered(rows[i]) <==> HasPairFor(earlier, i)
  {
    assert rows[..|rows| - 1][i] == rows[i];
    assert Answered(rows[..|rows| - 1][i]) <==> HasPairFor(earlier, i);
  }

  /** A pair numbered for another row does not change whether row `i` has one. */
  lemma HasPairForSnoc(earlier: seq<QaPair>, x: QaPair, i: nat)
    requires x.id != i + 1
    ensures HasPairFor(earlier + [x], i) <==> HasPairFor(earlier, i)
  {
    var pairs := earlier + [x];
    if HasPairFor(pairs, i) {
      var k :| 0 <= k < |pairs| && pairs[k].id == i + 1;
      assert k < |earlier| && pairs[k] == earlier[k];
    }
    if HasPairFor(earlier, i) {
      var k :| 0 <= k < |earlier| && earlier[k].id == i + 1;
      assert pairs[k] == earlier[k];
    }
  }

  /** The positions of the rows that yield a pair. */
  function AnsweredRows(rows: seq<Row>): set<nat> {
    set i: nat | i < |rows| && Answered(rows[i])
  }

  /** One more row adds a pair exactly when it is answered. */
  lemma StepPairsLength(rows: seq<Row>, earlier: seq<QaPair>)
    requires rows != []
    ensures |StepPairs(rows, earlier)| == |earlier| + if Answered(rows[|rows| - 1]) then 1 else 0
  {
    StripEmptyIffAllSpace(CellText(rows[|rows| - 1].question));
    StripEmptyIffAllSpace(CellText(rows[|rows| - 1].answer));
  }

  lemma AnsweredRowsStep(rows: seq<Row>)
    requires rows != []
    ensures AnsweredRows(rows) == AnsweredRows(rows[..|rows| - 1]) + if Answered(rows[|rows| - 1]) then {|rows| - 1} else {}
  {
    var prefix := rows[..|rows| - 1];
    forall i: nat | i < |rows| - 1 ensures prefix[i] == rows[i] {}
  }

  /** There is exactly one pair per answered row. */
  lemma {:induction false} ExtractQaPairsCount(rows: seq<Row>)
    ensures |ExtractQaPairs(rows)| == |AnsweredRows(rows)|
  {
    if rows != [] {
      var prefix := rows[..|rows| - 1];
      ExtractQaPairsCount(prefix);
      StepPairsLength(rows, ExtractQaPairs(prefix));
      AnsweredRowsStep(rows);
      assert |rows| - 1 !in AnsweredRows(prefix);
    }
  }

  /** The sample from the questionnaire: a header on line 0 and two answered rows. */
  lemma BakeryExample()
    ensures ExtractQaPairs([Row(Some("What is your business?"), Some("A bakery")),
                            Row(Some("Do you sell online?"), Some("Yes"))])
         == [QaPair(1, "What is your business?", "A bakery"), QaPair(2, "Do you sell online?", "Yes")]
  {
    var rows := [Row(Some("What is your business?"), Some("A bakery")),
                 Row(Some("Do you sell online?"), Some("Yes"))];
    var first := [rows[0]];
    assert rows[..1] == first;
    assert first[..0] == [];
    StripKeeps("What is your business?");
    StripKeeps("A bakery");
    assert ExtractQaPairs(first) == [QaPair(1, "What is your business?", "A bakery")];
    StripKeeps("Do you sell online?");
    StripKeeps("Yes");
  }

  /** At most this many pairs are written out in full in the prompt. */
  const MaxPromptPairs: nat := 50

  /** The block of one pair: a question line with the id, then an answer line. */
  function FormatPair(p: QaPair): string {
    "Question " + NatToString(p.id) + ": " + p.question + "\nAnswer: " + p.answer
  }

  function FormatPairs(pairs: seq<QaPair>): (blocks: seq<string>)
    ensures |blocks| == |pairs|
    ensures forall k :: 0 <= k < |pairs| ==> blocks[k] == FormatPair(pairs[k])
  {
    if pairs == [] then [] else [FormatPair(pairs[0])] + FormatPairs(pairs[1..])
  }

  /** The line appended when pairs were left out. */
  function OmittedNote(omitted: nat): string {
    "\n\n... and " + NatToString(omitted) + " more question-answer pairs."
  }

  /** The first `MaxPromptPairs` pairs (all of them when there are fewer). */
  function Shown(pairs: seq<QaPair>): (shown: seq<QaPair>)
    ensures |shown| <= MaxPromptPairs && shown <= pairs
    ensures |pairs| <= MaxPromptPairs ==> shown == pairs
    ensures |pairs| > MaxPromptPairs ==> |shown| == MaxPromptPairs
  {
    if |pairs| <= MaxPromptPairs then pairs else pairs[..MaxPromptPairs]
  }

  /**
   The question/answer block of the prompt: the formatted first fifty pairs separated by
   blank lines, then, only when pairs were left out, a note with how many.
   */
  function QaText(pairs: seq<QaPair>): (text: string)
    ensures pairs == [] ==> text == ""
    ensures pairs != [] ==> FormatPair(pairs[0]) <= text
  {
    var body := Join(FormatPairs(Shown(pairs)), "\n\n");
    assert pairs != [] ==> FormatPair(pairs[0]) <= body by {
      if pairs != [] {
        var blocks := FormatPairs(Shown(pairs));
        assert blocks[0] == FormatPair(pairs[0]);
        if |blocks| > 1 { JoinCons(blocks[0], blocks[1..], "\n\n"); assert blocks == [blocks[0]] + blocks[1..]; }
      }
    }
    if |pairs| > MaxPromptPairs then body + OmittedNote(|pairs| - MaxPromptPairs) else body
  }

  /** Up to fifty pairs, each further pair adds a blank line and its block; with none before,
      the block alone. */
  lemma QaTextSnoc(pairs: seq<QaPair>, p: QaPair)
    requires |pairs| < MaxPromptPairs
    ensures QaText(pairs + [p]) == if pairs == [] then FormatPair(p) else QaText(pairs) + "\n\n" + FormatPair(p)
  {
    var blocks := FormatPairs(pairs);
    assert FormatPairs(pairs + [p]) == blocks + [FormatPair(p)];
    if pairs != [] {
      JoinSnoc(blocks, FormatPair(p), "\n\n");
    } else {
      assert FormatPairs(pairs + [p]) == [FormatPair(p)];
    }
  }

  /** Beyond fifty pairs the text is the text of the first fifty plus the note, so the
      further pairs contribute only their number. */
  lemma {:induction false} QaTextTruncates(pairs: seq<QaPair>)
    requires |pairs| > MaxPromptPairs
    ensures QaText(pairs) == QaText(pairs[..MaxPromptPairs]) + OmittedNote(|pairs| - MaxPromptPairs)
  {
    assert Shown(pairs[..MaxPromptPairs]) == Shown(pairs);
  }

  /** Every shown pair's block appears in the text. */
  lemma {:induction false} QaTextContainsShownBlocks(pairs: seq<QaPair>, k: nat)
    requires k < |pairs| && k < MaxPromptPairs
    ensures Contains(QaText(pairs), FormatPair(pairs[k]))
  {
    var blocks := FormatPairs(Shown(pairs));
    assert blocks[k] == FormatPair(pairs[k]);
    var i := JoinedPartAt(blocks, k, "\n\n");
    var body := Join(blocks, "\n\n");
    var text := QaText(pairs);
    assert text[..|body|] == body;
    assert text[i..i + |blocks[k]|] == body[i..i + |blocks[k]|];
    assert HasAt(text, i, FormatPair(pairs[k]));
  }

  /** Where part `k` sits in a join. */
  lemma {:induction false} JoinedPartAt(parts: seq<string>, k: nat, sep: string) returns (i: nat)
    requires k < |parts|
    ensures HasAt(Join(parts, sep), i, parts[k])
  {
    if |parts| == 1 {
      i := 0;
    } else if k == 0 {
      JoinCons(parts[0], parts[1..], sep);
      assert parts == [parts[0]] + parts[1..];
      i := 0;
    } else {
      var j := JoinedPartAt(parts[1..], k - 1, sep);
      var rest := Join(parts[1..], sep);
      assert Join(parts, sep) == (parts[0] + sep) + rest by {
        JoinCons(parts[0], parts[1..], sep);
        assert parts == [parts[0]] + parts[1..];
      }
      assert parts[1..][k - 1] == parts[k];
      i := |parts[0] + sep| + j;
      HasAtAfter(parts[0] + sep, rest, j, parts[k]);
    }
  }

  /** An occurrence in `b` is an occurrence in `a + b`, shifted by `|a|`. */
  lemma HasAtAfter(a: string, b: string, j: nat, sub: string)
    requires HasAt(b, j, sub)
    ensures HasAt(a + b, |a| + j, sub)
  {
    assert (a + b)[|a| + j..|a| + j + |sub|] == b[j..j + |sub|];
  }

  /** The number in a block's header reads back as the pair's id. */
  lemma FormatPairIdRoundTrip(p: QaPair)
    ensures var block := FormatPair(p);
            var digits := NatToString(p.id);
            && block[..9] == "Question "
            && block[9..9 + |digits|] == digits
            && DigitsValue(digits) == p.id
            && block[9 + |digits|..11 + |digits|] == ": "
  {
    var digits := NatToString(p.id);
    var head := "Question " + digits;
    var block := FormatPair(p);
    assert block == head + (": " + p.question + "\nAnswer: " + p.answer);
    assert block[..|head|] == head;
    assert head[..9] == "Question " && head[9..] == digits;
    assert block[|head|..|head| + 2] == ": ";
    NatToStringRoundTrip(p.id);
  }

  /** The number in the closing note reads back as the count of pairs left out. */
  lemma OmittedNoteRoundTrip(omitted: nat)
    ensures var note := OmittedNote(omitted);
            var digits := NatToString(omitted);
            && note[..10] == "\n\n... and "
            && note[10..10 + |digits|] == digits
            && DigitsValue(digits) == omitted
            && note[10 + |digits|..] == " more question-answer pairs."
  {
    var digits := NatToString(omitted);
    var head := "\n\n... and " + digits;
    var note := OmittedNote(omitted);
    assert note == head + " more question-answer pairs.";
    assert note[..|head|] == head;
    assert head[..10] == "\n\n... and " && head[10..] == digits;
    NatToStringRoundTrip(omitted);
  }
}
