/**
 The free functions around the game: checking a move list (`validateMoves`),
 mapping a menu number to a move (`getUserMove`), and the part of `runGame`
 that reads the number of moves and the move labels.  Terminal input is a
 parameter: an already parsed integer, or the list of raw lines typed.
 */
module Input {
  import opened Php

  /** Labels are cut to this many characters. */
  const MaxLabelLength: nat := 10

  /** `validateMoves` either returns normally or exits with one of two
      messages. */
  datatype Validation = Valid | BadCount | NotUnique

  /** `validateMoves`: the count check comes first, then the duplicate check
      through `count(array_unique(...))`. */
  function ValidateMoves(moves: seq<string>): (v: Validation)
    ensures v == Valid <==> |moves| % 2 == 1 && |moves| >= 3 && Distinct(moves)
    ensures v == BadCount <==> |moves| % 2 == 0 || |moves| < 3
    ensures v == NotUnique <==> |moves| % 2 == 1 && |moves| >= 3 && !Distinct(moves)
  {
    UniqueKeepsLengthIffDistinct(moves);
    if |moves| % 2 == 0 || |moves| < 3 then BadCount
    else if |Unique(moves)| != |moves| then NotUnique
    else Valid
  }

  /** `getUserMove`: the menu shows move `k` at number `k + 1`; any number
      that is not a key of the list yields `false`. */
  function GetUserMove(moves: seq<string>, input: int): (r: Option<string>)
    ensures r.Some? <==> 1 <= input <= |moves|
    ensures r.Some? ==> r.value == moves[input - 1]
    ensures input <= 0 ==> r == None
  {
    var index := input - 1;
    if 0 <= index < |moves| then Some(moves[index]) else None
  }

  /** Choosing the number the menu prints next to a move selects that move,
      and in a list without duplicates it is the only number that does. */
  lemma MenuRoundTrip(moves: seq<string>, m: string, input: int)
    requires Distinct(moves)
    requires m in moves
    ensures GetUserMove(moves, ArrayKey(Search(moves, m)) + 1) == Some(m)
    ensures GetUserMove(moves, input) == Some(m) <==> input == ArrayKey(Search(moves, m)) + 1
  {
  }

  /** The loop condition on the number of moves, with PHP's `%`. */
  function MovesCountAccepted(n: int): (ok: bool)
    ensures ok <==> n >= 3 && n % 2 == 1
  {
    !(n < 2 || Rem(n, 2) == 0)
  }

  /** A line as the move loop cleans it: spaces removed, then cut to
      `MaxLabelLength` characters. */
  function Sanitise(raw: string): (text: string)
    ensures ' ' !in text
    ensures |text| <= MaxLabelLength
    ensures forall c :: c != ' ' ==> multiset(text)[c] <= multiset(raw)[c]
    ensures |StripSpaces(raw)| <= MaxLabelLength ==> text == StripSpaces(raw)
    ensures |StripSpaces(raw)| > MaxLabelLength ==> |text| == MaxLabelLength
    ensures text == StripSpaces(raw)[..|text|]
  {
    var stripped := StripSpaces(raw);
    var text := Prefix(stripped, MaxLabelLength);
    assert stripped == text + stripped[|text|..];
    text
  }

  /** Cleaning a line twice changes nothing more. */
  lemma SanitiseIdempotent(raw: string)
    ensures Sanitise(Sanitise(raw)) == Sanitise(raw)
  {
  }

  /** A text the move loop keeps. */
  predicate WellFormedLabel(text: string) {
    ' ' !in text && 0 < |text| <= MaxLabelLength && !Empty(text)
  }

  /** The labels that the given lines clean to, line by line. */
  function Cleaned(lines: seq<string>): (labels: seq<string>)
    ensures |labels| == |lines|
    ensures forall j | 0 <= j < |lines| :: labels[j] == Sanitise(lines[j])
  {
    seq(|lines|, j requires 0 <= j < |lines| => Sanitise(lines[j]))
  }

  /** What the move loop does with one line. */
  datatype Admission = Accepted(text: string) | EmptyLabel | DuplicateLabel(text: string)

  /** One pass of the move loop: clean the line, refuse an empty text,
      refuse a text already entered, otherwise keep it. */
  function Admit(moves: seq<string>, raw: string): (d: Admission)
    ensures d.Accepted? ==> d.text == Sanitise(raw) && WellFormedLabel(d.text) && d.text !in moves
    ensures d.EmptyLabel? <==> Empty(Sanitise(raw))
    ensures d.DuplicateLabel? ==> d.text == Sanitise(raw) && d.text in moves
  {
    var text := Sanitise(raw);
    if Empty(text) then EmptyLabel
    else if text in moves then DuplicateLabel(text)
    else Accepted(text)
  }

  /** The labels the move loop keeps from a run of cleaned labels when it
      reads all of them: a label is kept when it is not empty and was not
      kept before. */
  function Select(labels: seq<string>): seq<string> {
    if |labels| == 0 then []
    else
      var before := Select(labels[..|labels| - 1]);
      var y := labels[|labels| - 1];
      if Empty(y) || y in before then before else before + [y]
  }

  /** Reading one more label: `Select` keeps what it had and adds the label
      only when it is new and not empty. */
  lemma SelectStep(labels: seq<string>, y: string)
    ensures var before := Select(labels);
      Select(labels + [y]) == if Empty(y) || y in before then before else before + [y]
  {
    assert (labels + [y])[..|labels|] == labels;
  }

  /** `Admit` accepts a line exactly when `Select` keeps its cleaned form. */
  lemma AdmitSelects(moves: seq<string>, raw: string)
    ensures Admit(moves, raw).Accepted? <==> !(Empty(Sanitise(raw)) || Sanitise(raw) in moves)
    ensures Admit(moves, raw).Accepted? ==> Admit(moves, raw).text == Sanitise(raw)
  {
  }

  /** The cleaned form of one more line is appended to the cleaned lines. */
  lemma CleanedPrefix(inputs: seq<string>, i: nat)
    requires i < |inputs|
    ensures Cleaned(inputs[..i + 1]) == Cleaned(inputs[..i]) + [Sanitise(inputs[i])]
  {
  }

  /** The kept labels are distinct, non-empty, and each one of the labels read. */
  lemma {:induction false} SelectFacts(labels: seq<string>)
    ensures |Select(labels)| <= |labels|
    ensures Distinct(Select(labels))
    ensures forall k | 0 <= k < |Select(labels)| :: !Empty(Select(labels)[k]) && Select(labels)[k] in labels
  {
    if |labels| > 0 {
      var p, y := labels[..|labels| - 1], labels[|labels| - 1];
      SelectFacts(p);
      assert labels == p + [y];
      SelectStep(p, y);
      if !(Empty(y) || y in Select(p)) {
        DistinctAppend(Select(p), y);
      }
    }
  }

  /** Every non-empty label read is among the kept labels. */
  lemma {:induction false} SelectCovers(labels: seq<string>)
    ensures forall j | 0 <= j < |labels| :: !Empty(labels[j]) ==> labels[j] in Select(labels)
  {
    if |labels| > 0 {
      var p, y := labels[..|labels| - 1], labels[|labels| - 1];
      SelectCovers(p);
      assert labels == p + [y];
      SelectStep(p, y);
      assert forall j | 0 <= j < |p| :: labels[j] == p[j];
    }
  }

  /** Each kept label was first read before every label kept after it. */
  predicate InOrderRead(moves: seq<string>, labels: seq<string>) {
    forall k, l | 0 <= k < l < |moves| ::
      ArrayKey(Search(labels, moves[k])) < ArrayKey(Search(labels, moves[l]))
  }

  /** Reading a new label keeps the kept labels in the order read. */
  lemma InOrderStep(before: seq<string>, labels: seq<string>, y: string)
    requires InOrderRead(before, labels)
    requires forall k | 0 <= k < |before| :: before[k] in labels
    requires y !in labels
    ensures InOrderRead(before + [y], labels + [y])
  {
    var kept := before + [y];
    forall m | m in labels
      ensures Search(labels + [y], m) == Search(labels, m)
      ensures ArrayKey(Search(labels, m)) < |labels|
    {
      SearchAppend(labels, y, m);
    }
    SearchAppend(labels, y, y);
    forall k, l | 0 <= k < l < |kept|
      ensures ArrayKey(Search(labels + [y], kept[k])) < ArrayKey(Search(labels + [y], kept[l]))
    {
      assert kept[k] == before[k] && kept[k] in labels;
      if l < |before| {
        assert kept[l] == before[l] && kept[l] in labels;
      }
    }
  }

  /** Reading a refused label changes neither the list nor the order. */
  lemma InOrderSkip(before: seq<string>, labels: seq<string>, y: string)
    requires InOrderRead(before, labels)
    requires forall k | 0 <= k < |before| :: before[k] in labels
    ensures InOrderRead(before, labels + [y])
  {
    forall m | m in labels
      ensures Search(labels + [y], m) == Search(labels, m)
    {
      SearchAppend(labels, y, m);
    }
    forall k, l | 0 <= k < l < |before|
      ensures ArrayKey(Search(labels + [y], before[k])) < ArrayKey(Search(labels + [y], before[l]))
    {
      assert before[k] in labels && before[l] in labels;
    }
  }

  /** The kept labels are in the order they were first read. */
  lemma {:induction false} SelectInOrder(labels: seq<string>)
    ensures InOrderRead(Select(labels), labels)
  {
    if |labels| > 0 {
      var p, y := labels[..|labels| - 1], labels[|labels| - 1];
      SelectInOrder(p);
      SelectFacts(p);
      SelectCovers(p);
      assert labels == p + [y];
      SelectStep(p, y);
      if Empty(y) || y in Select(p) {
        InOrderSkip(Select(p), p, y);
      } else {
        InOrderStep(Select(p), p, y);
      }
    }
  }

  /** One pass of the move loop: admitting the next line against the labels
      kept so far yields the labels kept from one more line. */
  lemma CollectStep(inputs: seq<string>, i: nat, moves: seq<string>)
    requires i < |inputs|
    requires moves == Select(Cleaned(inputs[..i]))
    ensures var d := Admit(moves, inputs[i]);
      Select(Cleaned(inputs[..i + 1])) == if d.Accepted? then moves + [d.text] else moves
  {
    CleanedPrefix(inputs, i);
    SelectStep(Cleaned(inputs[..i]), Sanitise(inputs[i]));
    AdmitSelects(moves, inputs[i]);
  }

  /** The facts about `Select` for the cleaned form of the first `n` lines. */
  lemma CollectedFacts(inputs: seq<string>, n: nat)
    requires n <= |inputs|
    ensures var moves := Select(Cleaned(inputs[..n]));
      && Distinct(moves)
      && (forall k | 0 <= k < |moves| :: WellFormedLabel(moves[k]))
      && (forall k | 0 <= k < |moves| :: moves[k] in Cleaned(inputs[..n]))
      && (forall j | 0 <= j < n :: !Empty(Sanitise(inputs[j])) ==> Sanitise(inputs[j]) in moves)
      && InOrderRead(moves, Cleaned(inputs[..n]))
  {
    var labels := Cleaned(inputs[..n]);
    SelectFacts(labels);
    SelectCovers(labels);
    SelectInOrder(labels);
    var moves := Select(labels);
    forall k | 0 <= k < |moves| ensures WellFormedLabel(moves[k]) {
      var j :| 0 <= j < |labels| && labels[j] == moves[k];
      assert moves[k] == Sanitise(inputs[..n][j]);
    }
    forall j | 0 <= j < n ensures !Empty(Sanitise(inputs[j])) ==> Sanitise(inputs[j]) in moves {
      assert labels[j] == Sanitise(inputs[j]);
    }
  }

  /** The move loop of `runGame`: read lines until `count` labels are kept.
      A refused line does not advance the count.  `consumed` is the number
      of lines read; reading stops as soon as the list is full. */
  method CollectMoves(count: nat, inputs: seq<string>) returns (moves: seq<string>, consumed: nat)
    ensures consumed <= |inputs|
    ensures |moves| <= count
    ensures |moves| < count ==> consumed == |inputs|
    ensures forall j | 0 <= j < consumed :: |Select(Cleaned(inputs[..j]))| < count
    ensures moves == Select(Cleaned(inputs[..consumed]))
    ensures Distinct(moves)
    ensures forall k | 0 <= k < |moves| :: WellFormedLabel(moves[k])
    ensures forall k | 0 <= k < |moves| :: moves[k] in Cleaned(inputs[..consumed])
    ensures forall j | 0 <= j < consumed :: !Empty(Sanitise(inputs[j])) ==> Sanitise(inputs[j]) in moves
    ensures InOrderRead(moves, Cleaned(inputs[..consumed]))
    ensures |moves| == count && MovesCountAccepted(count) ==> ValidateMoves(moves) == Valid
  {
    moves := [];
    consumed := 0;
    assert Cleaned(inputs[..0]) == [];
    while |moves| < count && consumed < |inputs|
      invariant consumed <= |inputs|
      invariant |moves| <= count
      invariant moves == Select(Cleaned(inputs[..consumed]))
      invariant forall j | 0 <= j < consumed :: |Select(Cleaned(inputs[..j]))| < count
      decreases |inputs| - consumed
    {
      CollectStep(inputs, consumed, moves);
      forall j | 0 <= j < consumed + 1
        ensures |Select(Cleaned(inputs[..j]))| < count
      {
        if j == consumed {
          assert |moves| < count;
        }
      }
      var d := Admit(moves, inputs[consumed]);
      if d.Accepted? {
        moves := moves + [d.text];
      }
      consumed := consumed + 1;
    }
    CollectedFacts(inputs, consumed);
  }
}
