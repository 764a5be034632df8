/** The staged inputs of a backtest, and the two queries that choose among their vintages. */
module Vintages {
  import opened Options
  import opened Ordering

  type Instant = int

  /** One row of the staging table. Values are the exact text of a decimal. */
  datatype Staged = Staged(
    cutoffAt: Instant, issuer: string, key: string, period: Option<string>,
    value: string, confidence: string, knowableAt: Instant, recordedAt: Instant)

  datatype InputRow = InputRow(
    issuer: string, key: string, value: string, confidence: string, period: Option<string>, knowableAt: Instant)

  // ---------------------------------------------------------------- the winners

  predicate SameInput(a: Staged, b: Staged) {
    a.issuer == b.issuer && a.key == b.key && a.period == b.period
  }

  /** Knowable later, or recorded later at the same knowable instant. */
  predicate Newer(a: Staged, b: Staged) {
    a.knowableAt > b.knowableAt || (a.knowableAt == b.knowableAt && a.recordedAt > b.recordedAt)
  }

  predicate Eligible(table: seq<Staged>, cutoff: Instant, row: Staged) {
    row in table && row.cutoffAt == cutoff
  }

  ghost predicate Unbeaten(table: seq<Staged>, cutoff: Instant, row: Staged) {
    forall other :: Eligible(table, cutoff, other) && SameInput(other, row) ==> !Newer(other, row)
  }

  ghost predicate Chosen(table: seq<Staged>, cutoff: Instant, w: Staged) {
    Eligible(table, cutoff, w) && Unbeaten(table, cutoff, w)
  }

  ghost predicate HasWinner(winners: seq<Staged>, row: Staged) {
    exists w :: w in winners && SameInput(w, row)
  }

  /** What a row is about, and the order in which the query returns its rows: by issuer, by key, by
      period, rows without a period last. */
  datatype Input = Input(issuer: string, key: string, period: Option<string>)

  function InputOf(row: Staged): Input {
    Input(row.issuer, row.key, row.period)
  }

  function Inputs(rows: seq<Staged>): (inputs: seq<Input>)
    ensures |inputs| == |rows|
  {
    seq(|rows|, i requires 0 <= i < |rows| => InputOf(rows[i]))
  }

  predicate PeriodLess(a: Option<string>, b: Option<string>) {
    a.Some? && (b.None? || TextLess(a.value, b.value))
  }

  predicate InputLess(a: Input, b: Input) {
    TextLess(a.issuer, b.issuer)
    || (a.issuer == b.issuer
        && (TextLess(a.key, b.key) || (a.key == b.key && PeriodLess(a.period, b.period))))
  }

  lemma InputOrder()
    ensures StrictTotal(InputLess)
  {
    TextOrder();
  }

  /** An answer the winner query may give: one row for each input that has any, and none newer, in
      order. Which of two rows that tie on both instants is returned is left open. */
  ghost predicate IsWinners(table: seq<Staged>, cutoff: Instant, winners: seq<Staged>) {
    && (forall w :: w in winners ==> Chosen(table, cutoff, w))
    && (forall row :: Eligible(table, cutoff, row) ==> HasWinner(winners, row))
    && Ascending(InputLess, Inputs(winners))
  }

  lemma OneWinnerEach(table: seq<Staged>, cutoff: Instant, winners: seq<Staged>, i: nat, j: nat)
    requires IsWinners(table, cutoff, winners) && i < |winners| && j < |winners|
    requires SameInput(winners[i], winners[j])
    ensures i == j
  {
    InputOrder();
    assert Inputs(winners)[i] == Inputs(winners)[j];
  }

  // ---------------------------------------------------------------- the query, in plain words

  /** No row of the same input is knowable later, and of those knowable at the same instant none is recorded
      later. */
  ghost predicate NewestOfInput(table: seq<Staged>, cutoff: Instant, w: Staged) {
    && w in table && w.cutoffAt == cutoff
    && forall row :: row in table && row.cutoffAt == cutoff
                     && row.issuer == w.issuer && row.key == w.key && row.period == w.period
         ==> row.knowableAt < w.knowableAt || (row.knowableAt == w.knowableAt && row.recordedAt <= w.recordedAt)
  }

  ghost predicate Answered(winners: seq<Staged>, row: Staged) {
    exists w :: w in winners && w.issuer == row.issuer && w.key == row.key && w.period == row.period
  }

  /** By issuer, by key and by period, the row without a period last, and no two rows of one input. */
  ghost predicate InQueryOrder(winners: seq<Staged>) {
    forall i, j :: 0 <= i < j < |winners| ==>
      var a, b := winners[i], winners[j];
      || TextLess(a.issuer, b.issuer)
      || (a.issuer == b.issuer && TextLess(a.key, b.key))
      || (a.issuer == b.issuer && a.key == b.key && a.period.Some?
          && (b.period.None? || TextLess(a.period.value, b.period.value)))
  }

  lemma QueryOrderMeaning(winners: seq<Staged>)
    ensures Ascending(InputLess, Inputs(winners)) <==> InQueryOrder(winners)
  {
    var inputs := Inputs(winners);
    assert forall i :: 0 <= i < |winners| ==> inputs[i] == InputOf(winners[i]);
  }

  lemma ChosenMeaning(table: seq<Staged>, cutoff: Instant, w: Staged)
    ensures Chosen(table, cutoff, w) <==> NewestOfInput(table, cutoff, w)
  {
    if Chosen(table, cutoff, w) {
      forall row | row in table && row.cutoffAt == cutoff
                   && row.issuer == w.issuer && row.key == w.key && row.period == w.period
        ensures row.knowableAt < w.knowableAt || (row.knowableAt == w.knowableAt && row.recordedAt <= w.recordedAt)
      {
        assert Eligible(table, cutoff, row) && SameInput(row, w);
      }
    }
  }

  /** The answers of the query: rows of the cutoff that are newest of their input, one for each input that has
      rows, in order. */
  lemma WinnersExactlyWhen(table: seq<Staged>, cutoff: Instant, winners: seq<Staged>)
    ensures IsWinners(table, cutoff, winners) <==>
            && (forall w :: w in winners ==> NewestOfInput(table, cutoff, w))
            && (forall row :: row in table && row.cutoffAt == cutoff ==> Answered(winners, row))
            && InQueryOrder(winners)
  {
    QueryOrderMeaning(winners);
    forall w
      ensures Chosen(table, cutoff, w) <==> NewestOfInput(table, cutoff, w)
    {
      ChosenMeaning(table, cutoff, w);
    }
    forall row
      ensures Answered(winners, row) <==> HasWinner(winners, row)
    {
      if HasWinner(winners, row) {
        var w :| w in winners && SameInput(w, row);
      }
      if Answered(winners, row) {
        var w :| w in winners && w.issuer == row.issuer && w.key == row.key && w.period == row.period;
        assert SameInput(w, row);
      }
    }
  }

  ghost predicate HasInput(table: seq<Staged>, cutoff: Instant, x: Input) {
    exists row :: Eligible(table, cutoff, row) && InputOf(row) == x
  }

  lemma {:induction false} NewestExists(table: seq<Staged>, cutoff: Instant, x: Input) returns (w: Staged)
    requires HasInput(table, cutoff, x)
    ensures Chosen(table, cutoff, w) && InputOf(w) == x
  {
    var init, last := table[..|table| - 1], table[|table| - 1];
    assert table == init + [last];
    if HasInput(init, cutoff, x) {
      w := NewestExists(init, cutoff, x);
      assert Unbeaten(init, cutoff, w);
      if last.cutoffAt == cutoff && InputOf(last) == x && Newer(last, w) {
        forall other | Eligible(table, cutoff, other) && SameInput(other, last)
          ensures !Newer(other, last)
        {
          assert other == last || Eligible(init, cutoff, other);
        }
        w := last;
      } else {
        forall other | Eligible(table, cutoff, other) && SameInput(other, w)
          ensures !Newer(other, w)
        {
          assert other == last || Eligible(init, cutoff, other);
        }
      }
    } else {
      w := last;
      forall other | Eligible(table, cutoff, other) && SameInput(other, w)
        ensures !Newer(other, w)
      {
        assert other == last || Eligible(init, cutoff, other);
      }
    }
  }

  /** The winners of the inputs listed. */
  lemma {:induction false} WinnersOf(table: seq<Staged>, cutoff: Instant, inputs: seq<Input>)
      returns (winners: seq<Staged>)
    requires forall x :: x in inputs ==> HasInput(table, cutoff, x)
    ensures Inputs(winners) == inputs && forall w :: w in winners ==> Chosen(table, cutoff, w)
  {
    if inputs == [] {
      winners := [];
    } else {
      var init, last := inputs[..|inputs| - 1], inputs[|inputs| - 1];
      assert inputs == init + [last];
      var rest := WinnersOf(table, cutoff, init);
      var w := NewestExists(table, cutoff, last);
      winners := rest + [w];
      assert Inputs(winners) == Inputs(rest) + [last];
    }
  }

  /** The query always has an answer. */
  lemma WinnersExist(table: seq<Staged>, cutoff: Instant) returns (winners: seq<Staged>)
    ensures IsWinners(table, cutoff, winners)
  {
    var asked := set row | row in table && Eligible(table, cutoff, row) :: InputOf(row);
    InputOrder();
    var inputs := ArrangementExists(InputLess, asked);
    forall x | x in inputs
      ensures HasInput(table, cutoff, x)
    {
      assert x in Elements(inputs);
    }
    winners := WinnersOf(table, cutoff, inputs);
    forall row | Eligible(table, cutoff, row)
      ensures HasWinner(winners, row)
    {
      assert InputOf(row) in Elements(inputs);
      var i :| 0 <= i < |inputs| && inputs[i] == InputOf(row);
      assert Inputs(winners)[i] == InputOf(winners[i]) && winners[i] in winners;
      assert SameInput(winners[i], row);
    }
  }

  /** The table's unique index. */
  ghost predicate Indexed(table: seq<Staged>) {
    forall a, b :: a in table && b in table && SameIndex(a, b) ==> a == b
  }

  predicate SameIndex(a: Staged, b: Staged) {
    a.cutoffAt == b.cutoffAt && SameInput(a, b) && a.recordedAt == b.recordedAt
  }

  /** Under the unique index the query has one answer. */
  lemma WinnersAreDetermined(table: seq<Staged>, cutoff: Instant, a: seq<Staged>, b: seq<Staged>)
    requires Indexed(table) && IsWinners(table, cutoff, a) && IsWinners(table, cutoff, b)
    ensures a == b
  {
    InputsAreShared(table, cutoff, a, b);
    InputOrderDetermines(Inputs(a), Inputs(b));
    forall i | 0 <= i < |a|
      ensures a[i] == b[i]
    {
      WinnerAt(table, cutoff, a, b, i);
    }
  }

  lemma InputOrderDetermines(x: seq<Input>, y: seq<Input>)
    requires Ascending(InputLess, x) && Ascending(InputLess, y) && Elements(x) == Elements(y)
    ensures x == y
  {
    InputOrder();
    AscendingUnique(InputLess, x, y);
  }

  lemma InputsAreShared(table: seq<Staged>, cutoff: Instant, a: seq<Staged>, b: seq<Staged>)
    requires IsWinners(table, cutoff, a) && IsWinners(table, cutoff, b)
    ensures Elements(Inputs(a)) == Elements(Inputs(b))
  {
    forall x
      ensures x in Inputs(a) <==> x in Inputs(b)
    {
      if x in Inputs(a) {
        InputIsShared(table, cutoff, a, b, x);
      } else if x in Inputs(b) {
        InputIsShared(table, cutoff, b, a, x);
      }
    }
  }

  lemma WinnerAt(table: seq<Staged>, cutoff: Instant, a: seq<Staged>, b: seq<Staged>, i: nat)
    requires Indexed(table) && IsWinners(table, cutoff, a) && IsWinners(table, cutoff, b)
    requires i < |a| && Inputs(a) == Inputs(b)
    ensures i < |b| && a[i] == b[i]
  {
    assert |Inputs(a)| == |Inputs(b)| && Inputs(a)[i] == Inputs(b)[i];
    assert Chosen(table, cutoff, a[i]) && Chosen(table, cutoff, b[i]);
    ChosenIsUnique(table, cutoff, a[i], b[i]);
  }

  lemma InputIsShared(table: seq<Staged>, cutoff: Instant, a: seq<Staged>, b: seq<Staged>, x: Input)
    requires IsWinners(table, cutoff, a) && IsWinners(table, cutoff, b) && x in Inputs(a)
    ensures x in Inputs(b)
  {
    var i :| 0 <= i < |a| && Inputs(a)[i] == x;
    assert Chosen(table, cutoff, a[i]);
    assert HasWinner(b, a[i]);
    var w :| w in b && SameInput(w, a[i]);
    var j :| 0 <= j < |b| && b[j] == w;
    assert Inputs(b)[j] == x;
  }

  lemma ChosenIsUnique(table: seq<Staged>, cutoff: Instant, v: Staged, w: Staged)
    requires Indexed(table) && Chosen(table, cutoff, v) && Chosen(table, cutoff, w) && SameInput(v, w)
    ensures v == w
  {
    assert !Newer(v, w) && !Newer(w, v);
  }

  // ---------------------------------------------------------------- the grouped maximum

  const SHARES := "shares_outstanding"
  const CLOSE := "last_close"

  /** The rows the aggregate query ranges over. */
  predicate InScope(row: Staged, cutoff: Instant) {
    row.cutoffAt == cutoff && row.period.None? && row.key in {SHARES, CLOSE}
  }

  /** `max(knowable_at) filter (where input_key = key)` over one issuer's group; null over no row. */
  function MaxKnowable(table: seq<Staged>, cutoff: Instant, issuer: string, key: string): Option<Instant> {
    if table == [] then None
    else
      var best, row := MaxKnowable(table[..|table| - 1], cutoff, issuer, key), table[|table| - 1];
      if !InScope(row, cutoff) || row.issuer != issuer || row.key != key then best
      else if best.None? || best.value < row.knowableAt then Some(row.knowableAt)
      else best
  }

  function KeysOf(table: seq<Staged>, cutoff: Instant, issuer: string): set<string> {
    set row | row in table && InScope(row, cutoff) && row.issuer == issuer :: row.key
  }

  /** The group of one issuer, kept only when it has two distinct keys. */
  function VintageOf(table: seq<Staged>, cutoff: Instant, issuer: string): Option<(Option<Instant>, Option<Instant>)> {
    if |KeysOf(table, cutoff, issuer)| == 2
    then Some((MaxKnowable(table, cutoff, issuer, SHARES), MaxKnowable(table, cutoff, issuer, CLOSE)))
    else None
  }

  lemma {:induction false} MaxKnowableIsMaximum(table: seq<Staged>, cutoff: Instant, issuer: string, key: string,
                                                m: Instant)
    requires key in {SHARES, CLOSE}
    ensures MaxKnowable(table, cutoff, issuer, key) == Some(m) <==>
            && (exists row :: Eligible(table, cutoff, row) && IsInput(row, issuer, key) && row.knowableAt == m)
            && (forall row :: Eligible(table, cutoff, row) && IsInput(row, issuer, key) ==> row.knowableAt <= m)
  {
    if table != [] {
      var init, last := table[..|table| - 1], table[|table| - 1];
      assert table == init + [last];
      assert forall row :: Eligible(table, cutoff, row) <==>
                           Eligible(init, cutoff, row) || (row == last && row.cutoffAt == cutoff);
      MaxKnowableIsMaximum(init, cutoff, issuer, key, m);
      var best := MaxKnowable(init, cutoff, issuer, key);
      if best.Some? {
        MaxKnowableIsMaximum(init, cutoff, issuer, key, best.value);
      } else {
        NothingKnowable(init, cutoff, issuer, key);
      }
    }
  }

  lemma {:induction false} NothingKnowable(table: seq<Staged>, cutoff: Instant, issuer: string, key: string)
    requires key in {SHARES, CLOSE} && MaxKnowable(table, cutoff, issuer, key).None?
    ensures forall row :: Eligible(table, cutoff, row) ==> !IsInput(row, issuer, key)
  {
    if table != [] {
      assert table == table[..|table| - 1] + [table[|table| - 1]];
      NothingKnowable(table[..|table| - 1], cutoff, issuer, key);
    }
  }

  /** An observation of that input that is not about a fiscal period. */
  predicate IsInput(row: Staged, issuer: string, key: string) {
    row.issuer == issuer && row.key == key && row.period.None?
  }

  ghost predicate Wins(winners: seq<Staged>, w: Staged, issuer: string, key: string) {
    w in winners && IsInput(w, issuer, key)
  }

  ghost predicate HasWin(winners: seq<Staged>, issuer: string, key: string) {
    exists w :: Wins(winners, w, issuer, key)
  }

  lemma KeyHasWinner(table: seq<Staged>, cutoff: Instant, winners: seq<Staged>, issuer: string, key: string)
    requires IsWinners(table, cutoff, winners) && key in KeysOf(table, cutoff, issuer)
    ensures HasWin(winners, issuer, key)
  {
    var row :| row in table && InScope(row, cutoff) && row.issuer == issuer && row.key == key;
    assert Eligible(table, cutoff, row);
    assert HasWinner(winners, row);
    var w :| w in winners && SameInput(w, row);
    assert Wins(winners, w, issuer, key);
  }

  lemma ChosenHasMaximum(table: seq<Staged>, cutoff: Instant, w: Staged)
    requires Chosen(table, cutoff, w) && w.period.None? && w.key in {SHARES, CLOSE}
    ensures w.key in KeysOf(table, cutoff, w.issuer)
    ensures MaxKnowable(table, cutoff, w.issuer, w.key) == Some(w.knowableAt)
  {
    assert InScope(w, cutoff);
    forall row | Eligible(table, cutoff, row) && IsInput(row, w.issuer, w.key)
      ensures row.knowableAt <= w.knowableAt
    {
      assert SameInput(row, w) && !Newer(row, w);
    }
    MaxKnowableIsMaximum(table, cutoff, w.issuer, w.key, w.knowableAt);
  }

  /** The winner of an input has the maximal instant of its rows, and there is one exactly when there
      are rows. */
  lemma WinnerHasMaximum(table: seq<Staged>, cutoff: Instant, winners: seq<Staged>, issuer: string, key: string)
    requires IsWinners(table, cutoff, winners) && key in {SHARES, CLOSE}
    ensures key in KeysOf(table, cutoff, issuer) <==> HasWin(winners, issuer, key)
    ensures forall w :: Wins(winners, w, issuer, key) ==>
                          MaxKnowable(table, cutoff, issuer, key) == Some(w.knowableAt)
  {
    if key in KeysOf(table, cutoff, issuer) {
      KeyHasWinner(table, cutoff, winners, issuer, key);
    }
    forall w | Wins(winners, w, issuer, key)
      ensures key in KeysOf(table, cutoff, issuer)
      ensures MaxKnowable(table, cutoff, issuer, key) == Some(w.knowableAt)
    {
      assert Chosen(table, cutoff, w);
      ChosenHasMaximum(table, cutoff, w);
    }
  }

  lemma TwoKeys(keys: set<string>)
    requires keys <= {SHARES, CLOSE}
    ensures |keys| == 2 <==> SHARES in keys && CLOSE in keys
  {
    var both := {SHARES, CLOSE};
    assert SHARES[0] != CLOSE[0];
    assert |both| == 2;
    SubsetSize(keys, both);
    assert SHARES in keys && CLOSE in keys ==> keys == both;
  }

  /** The grouped maximum refines the winner query: an issuer is listed exactly when both of its inputs
      have a winner, and then with the instants of those winners, however ties were broken. */
  lemma VintagesAgreeWithWinners(table: seq<Staged>, cutoff: Instant, winners: seq<Staged>, issuer: string)
    requires IsWinners(table, cutoff, winners)
    ensures VintageOf(table, cutoff, issuer).Some? <==>
            HasWin(winners, issuer, "shares_outstanding") && HasWin(winners, issuer, "last_close")
    ensures forall s, c ::
              Wins(winners, s, issuer, "shares_outstanding") && Wins(winners, c, issuer, "last_close") ==>
              VintageOf(table, cutoff, issuer) == Some((Some(s.knowableAt), Some(c.knowableAt)))
  {
    WinnerHasMaximum(table, cutoff, winners, issuer, SHARES);
    WinnerHasMaximum(table, cutoff, winners, issuer, CLOSE);
    TwoKeys(KeysOf(table, cutoff, issuer));
  }
}
