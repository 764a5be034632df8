/** The fold of one cutoff's rows into evaluator inputs, and the content identity of those rows. */
module StrategyInputs {
  import opened FiscalPeriod
  import opened Identity
  import opened Options
  import opened Ordering
  import opened Vintages

  datatype Observed = Observed(value: string, confidence: string, knowableAt: Instant)

  datatype IssuerInput = IssuerInput(
    issuer: string, answers: map<string, Observed>, periodic: map<string, map<string, Observed>>)

  datatype Outcome = LookAhead(row: InputRow) | Inputs(inputs: seq<IssuerInput>)

  function Obs(row: InputRow): Observed {
    Observed(row.value, row.confidence, row.knowableAt)
  }

  predicate About(row: InputRow, issuer: string, key: string) {
    row.issuer == issuer && row.key == key
  }

  // ---------------------------------------------------------------- the latest period

  /** The order of period tags by their comparison key. */
  function TagOrder(lib: Library): (string, string) -> bool {
    (a, b) => TagBefore(lib, a, b)
  }

  lemma TagOrderIsTotal(lib: Library)
    ensures StrictTotal(TagOrder(lib))
  {
    forall x, y, z
      ensures !TagOrder(lib)(x, x)
      ensures x != y ==> TagOrder(lib)(x, y) || TagOrder(lib)(y, x)
      ensures TagOrder(lib)(x, y) && TagOrder(lib)(y, z) ==> TagOrder(lib)(x, z)
      ensures TagOrder(lib)(x, z) ==> TagOrder(lib)(x, y) || TagOrder(lib)(y, z)
    {
      TagsAreTotal(lib, x, y, z);
    }
  }

  /** Python's `max` of the tags by their key. */
  ghost function Latest(lib: Library, tags: set<string>): (tag: string)
    requires tags != {}
    ensures IsGreatest(TagOrder(lib), tags, tag)
  {
    TagOrderIsTotal(lib);
    Greatest(TagOrder(lib), tags)
  }

  method MaxTag(lib: Library, tags: set<string>) returns (tag: string)
    requires tags != {}
    ensures tag == Latest(lib, tags)
  {
    TagOrderIsTotal(lib);
    tag := Max(TagOrder(lib), tags);
    GreatestUnique(TagOrder(lib), tags, tag, Latest(lib, tags));
  }

  // ---------------------------------------------------------------- the fold, row by row

  /** The series of a key: what its periods say after the rows so far, the last row of a period winning. */
  ghost function Series(rows: seq<InputRow>, issuer: string, key: string): map<string, Observed> {
    if rows == [] then map[]
    else
      var before, row := Series(rows[..|rows| - 1], issuer, key), rows[|rows| - 1];
      if About(row, issuer, key) && row.period.Some? then before[row.period.value := Obs(row)] else before
  }

  /** The answer of a key: the last row, or the latest period of the series when that row has one. */
  ghost function Answer(lib: Library, rows: seq<InputRow>, issuer: string, key: string): Option<Observed> {
    if rows == [] then None
    else
      var row, series := rows[|rows| - 1], Series(rows, issuer, key);
      if !About(row, issuer, key) then Answer(lib, rows[..|rows| - 1], issuer, key)
      else if row.period.None? then Some(Obs(row))
      else
        assert row.period.value in series;
        Some(series[Latest(lib, series.Keys)])
  }

  // ---------------------------------------------------------------- the loop

  type Scalars = map<string, map<string, Observed>>
  type Periods = map<string, map<string, map<string, Observed>>>

  /** `m.get(k, {})`. */
  function Under<K, V>(m: map<string, map<K, V>>, k: string): map<K, V> {
    if k in m then m[k] else map[]
  }

  function Found(m: map<string, Observed>, key: string): Option<Observed> {
    if key in m then Some(m[key]) else None
  }

  ghost predicate HasIssuer(rows: seq<InputRow>, issuer: string) {
    exists row :: row in rows && row.issuer == issuer
  }

  ghost predicate AnswersFor(lib: Library, rows: seq<InputRow>, issuer: string, answers: map<string, Observed>) {
    forall key :: Found(answers, key) == Answer(lib, rows, issuer, key)
  }

  ghost predicate SeriesFor(rows: seq<InputRow>, issuer: string, periodic: map<string, map<string, Observed>>) {
    forall key :: Under(periodic, key) == Series(rows, issuer, key) && (key in periodic ==> periodic[key] != map[])
  }

  ghost predicate Tracks(lib: Library, rows: seq<InputRow>, scalars: Scalars, periods: Periods) {
    && (forall issuer :: issuer in scalars <==> HasIssuer(rows, issuer))
    && (forall issuer :: AnswersFor(lib, rows, issuer, Under(scalars, issuer)))
    && (forall issuer :: SeriesFor(rows, issuer, Under(periods, issuer)))
  }

  predicate Late(row: InputRow, cutoff: Option<Instant>) {
    cutoff.Some? && row.knowableAt > cutoff.value
  }

  /** The evaluator inputs of the rows: one per issuer, in order, each key with its answer and its series. */
  ghost predicate IsInputs(lib: Library, rows: seq<InputRow>, inputs: seq<IssuerInput>) {
    && (forall a, b :: 0 <= a < b < |inputs| ==> TextLess(inputs[a].issuer, inputs[b].issuer))
    && (forall issuer :: HasIssuer(rows, issuer) ==> exists n :: 0 <= n < |inputs| && inputs[n].issuer == issuer)
    && (forall n :: 0 <= n < |inputs| ==> HasIssuer(rows, inputs[n].issuer))
    && (forall n :: 0 <= n < |inputs| ==> AnswersFor(lib, rows, inputs[n].issuer, inputs[n].answers))
    && (forall n :: 0 <= n < |inputs| ==> SeriesFor(rows, inputs[n].issuer, inputs[n].periodic))
  }

  ghost predicate NoneLate(rows: seq<InputRow>, cutoff: Option<Instant>, k: nat)
    requires k <= |rows|
  {
    forall j :: 0 <= j < k ==> !Late(rows[j], cutoff)
  }

  method IssuerInputs(lib: Library, rows: seq<InputRow>, cutoff: Option<Instant>) returns (r: Outcome)
    ensures r.LookAhead? <==> cutoff.Some? && exists k :: 0 <= k < |rows| && rows[k].knowableAt > cutoff.value
    ensures r.LookAhead? ==> exists k :: 0 <= k < |rows| && rows[k] == r.row && rows[k].knowableAt > cutoff.value
                                         && forall j :: 0 <= j < k ==> rows[j].knowableAt <= cutoff.value
    ensures r.Inputs? ==> IsInputs(lib, rows, r.inputs)
  {
    var read, scalars, periods := Collect(lib, rows, cutoff);
    if read < |rows| {
      return LookAhead(rows[read]);
    }
    assert rows[..read] == rows;
    var inputs := Listed(lib, rows, scalars, periods);
    r := Inputs(inputs);
  }

  /** The loop: it reads rows until the first late one. */
  method Collect(lib: Library, rows: seq<InputRow>, cutoff: Option<Instant>)
    returns (read: nat, scalars: Scalars, periods: Periods)
    ensures read <= |rows| && NoneLate(rows, cutoff, read)
    ensures read < |rows| ==> Late(rows[read], cutoff)
    ensures Tracks(lib, rows[..read], scalars, periods)
  {
    read, scalars, periods := 0, map[], map[];
    TracksNothing(lib);
    assert rows[..0] == [];
    while read < |rows| && !Late(rows[read], cutoff)
      invariant read <= |rows| && NoneLate(rows, cutoff, read)
      invariant Tracks(lib, rows[..read], scalars, periods)
    {
      scalars, periods := ReadOne(lib, rows[..read], rows[read], scalars, periods);
      assert rows[..read + 1] == rows[..read] + [rows[read]];
      read := read + 1;
    }
  }

  method ReadOne(lib: Library, ghost before: seq<InputRow>, row: InputRow, was: Scalars, had: Periods)
    returns (scalars: Scalars, periods: Periods)
    requires Tracks(lib, before, was, had)
    ensures Tracks(lib, before + [row], scalars, periods)
  {
    scalars, periods := Fold(lib, row, was, had);
    TracksNext(lib, before, row, was, had, scalars, periods);
  }

  lemma TracksNothing(lib: Library)
    ensures Tracks(lib, [], map[], map[])
  {
  }

  /** One row entered in the dictionaries. */
  method Fold(lib: Library, row: InputRow, was: Scalars, had: Periods) returns (scalars: Scalars, periods: Periods)
    ensures Turn(lib, row, was, had, scalars, periods)
  {
    scalars, periods := was, had;
    var answers := Under(was, row.issuer);
    if row.period.None? {
      scalars := was[row.issuer := answers[row.key := Obs(row)]];
    } else {
      var ofIssuer := Under(had, row.issuer);
      var series := Under(ofIssuer, row.key)[row.period.value := Obs(row)];
      periods := had[row.issuer := ofIssuer[row.key := series]];
      assert row.period.value in series.Keys;
      var latest := MaxTag(lib, series.Keys);
      scalars := was[row.issuer := answers[row.key := series[latest]]];
    }
  }

  /** The issuers in order, each with its answers and series. */
  method Listed(lib: Library, ghost rows: seq<InputRow>, scalars: Scalars, periods: Periods)
    returns (inputs: seq<IssuerInput>)
    requires Tracks(lib, rows, scalars, periods)
    ensures IsInputs(lib, rows, inputs)
  {
    var issuers := SortedStrings(scalars.Keys);
    inputs := seq(|issuers|, n requires 0 <= n < |issuers| =>
      IssuerInput(issuers[n], Under(scalars, issuers[n]), Under(periods, issuers[n])));
    InputsFromTables(lib, rows, scalars, periods, issuers, inputs);
  }

  lemma InputsFromTables(lib: Library, rows: seq<InputRow>, scalars: Scalars, periods: Periods,
                         issuers: seq<string>, inputs: seq<IssuerInput>)
    requires Tracks(lib, rows, scalars, periods)
    requires Ascending(TextLess, issuers) && Elements(issuers) == scalars.Keys
    requires inputs == seq(|issuers|, n requires 0 <= n < |issuers| =>
               IssuerInput(issuers[n], Under(scalars, issuers[n]), Under(periods, issuers[n])))
    ensures IsInputs(lib, rows, inputs)
  {
    forall n | 0 <= n < |inputs|
      ensures inputs[n].issuer == issuers[n] && HasIssuer(rows, issuers[n])
      ensures AnswersFor(lib, rows, inputs[n].issuer, inputs[n].answers)
      ensures SeriesFor(rows, inputs[n].issuer, inputs[n].periodic)
    {
      assert issuers[n] in Elements(issuers);
    }
    forall issuer | HasIssuer(rows, issuer)
      ensures exists n :: 0 <= n < |inputs| && inputs[n].issuer == issuer
    {
      assert issuer in Elements(issuers);
      var n :| 0 <= n < |issuers| && issuers[n] == issuer;
      assert inputs[n].issuer == issuer;
    }
  }

  /** What one turn of the loop makes of the two dictionaries. */
  ghost predicate Turn(lib: Library, row: InputRow, was: Scalars, had: Periods, scalars: Scalars, periods: Periods) {
    if row.period.None? then
      periods == had && scalars == was[row.issuer := Under(was, row.issuer)[row.key := Obs(row)]]
    else
      var series := Under(Under(had, row.issuer), row.key)[row.period.value := Obs(row)];
      && row.period.value in series.Keys
      && periods == had[row.issuer := Under(had, row.issuer)[row.key := series]]
      && scalars == was[row.issuer := Under(was, row.issuer)[row.key := series[Latest(lib, series.Keys)]]]
  }

  lemma SeriesNext(rows: seq<InputRow>, row: InputRow, issuer: string, key: string)
    ensures Series(rows + [row], issuer, key) ==
            if About(row, issuer, key) && row.period.Some? then Series(rows, issuer, key)[row.period.value := Obs(row)]
            else Series(rows, issuer, key)
  {
    assert (rows + [row])[..|rows|] == rows;
  }

  lemma AnswerNext(lib: Library, rows: seq<InputRow>, row: InputRow, issuer: string, key: string)
    ensures !About(row, issuer, key) ==> Answer(lib, rows + [row], issuer, key) == Answer(lib, rows, issuer, key)
    ensures About(row, issuer, key) && row.period.None? ==> Answer(lib, rows + [row], issuer, key) == Some(Obs(row))
    ensures About(row, issuer, key) && row.period.Some? ==>
              var series := Series(rows, issuer, key)[row.period.value := Obs(row)];
              && row.period.value in series.Keys
              && Answer(lib, rows + [row], issuer, key) == Some(series[Latest(lib, series.Keys)])
  {
    assert (rows + [row])[..|rows|] == rows;
    SeriesNext(rows, row, issuer, key);
  }

  lemma TracksNext(lib: Library, rows: seq<InputRow>, row: InputRow,
                   was: Scalars, had: Periods, scalars: Scalars, periods: Periods)
    requires Tracks(lib, rows, was, had) && Turn(lib, row, was, had, scalars, periods)
    ensures Tracks(lib, rows + [row], scalars, periods)
  {
    forall issuer
      ensures issuer in scalars <==> HasIssuer(rows + [row], issuer)
    {
      IssuerNext(rows, row, issuer);
      TurnTouches(lib, row, was, had, scalars, periods);
    }
    forall issuer
      ensures SeriesFor(rows + [row], issuer, Under(periods, issuer))
      ensures AnswersFor(lib, rows + [row], issuer, Under(scalars, issuer))
    {
      assert SeriesFor(rows, issuer, Under(had, issuer)) && AnswersFor(lib, rows, issuer, Under(was, issuer));
      TurnAt(lib, row, was, had, scalars, periods, issuer);
      SeriesForNext(rows, row, issuer, Under(had, issuer), Under(periods, issuer));
      AnswersForNext(lib, rows, row, issuer, Under(was, issuer), Under(had, issuer), Under(scalars, issuer));
    }
  }

  lemma TurnTouches(lib: Library, row: InputRow, was: Scalars, had: Periods, scalars: Scalars, periods: Periods)
    requires Turn(lib, row, was, had, scalars, periods)
    ensures scalars.Keys == was.Keys + {row.issuer}
  {
  }

  ghost predicate SeriesTurn(row: InputRow, issuer: string,
                             had: map<string, map<string, Observed>>, has: map<string, map<string, Observed>>)
  {
    has == if row.issuer == issuer && row.period.Some?
           then had[row.key := Under(had, row.key)[row.period.value := Obs(row)]] else had
  }

  ghost predicate AnswersTurn(lib: Library, row: InputRow, issuer: string, was: map<string, Observed>,
                              had: map<string, map<string, Observed>>, now: map<string, Observed>)
  {
    if row.issuer != issuer then now == was
    else if row.period.None? then now == was[row.key := Obs(row)]
    else
      var series := Under(had, row.key)[row.period.value := Obs(row)];
      row.period.value in series.Keys && now == was[row.key := series[Latest(lib, series.Keys)]]
  }

  lemma TurnAt(lib: Library, row: InputRow, was: Scalars, had: Periods, scalars: Scalars, periods: Periods,
               issuer: string)
    requires Turn(lib, row, was, had, scalars, periods)
    ensures SeriesTurn(row, issuer, Under(had, issuer), Under(periods, issuer))
    ensures AnswersTurn(lib, row, issuer, Under(was, issuer), Under(had, issuer), Under(scalars, issuer))
  {
  }

  lemma IssuerNext(rows: seq<InputRow>, row: InputRow, issuer: string)
    ensures HasIssuer(rows + [row], issuer) <==> HasIssuer(rows, issuer) || row.issuer == issuer
  {
    if row.issuer == issuer {
      assert row in rows + [row];
    }
    if HasIssuer(rows, issuer) {
      var r :| r in rows && r.issuer == issuer;
      assert r in rows + [row];
    }
  }

  lemma SeriesForNext(rows: seq<InputRow>, row: InputRow, issuer: string,
                      had: map<string, map<string, Observed>>, has: map<string, map<string, Observed>>)
    requires SeriesFor(rows, issuer, had)
    requires SeriesTurn(row, issuer, had, has)
    ensures SeriesFor(rows + [row], issuer, has)
  {
    forall key
      ensures Under(has, key) == Series(rows + [row], issuer, key) && (key in has ==> has[key] != map[])
    {
      SeriesNext(rows, row, issuer, key);
      assert Under(had, key) == Series(rows, issuer, key);
      assert row.period.Some? ==> row.period.value in Under(had, row.key)[row.period.value := Obs(row)];
    }
  }

  lemma AnswersForNext(lib: Library, rows: seq<InputRow>, row: InputRow, issuer: string,
                       was: map<string, Observed>, had: map<string, map<string, Observed>>, now: map<string, Observed>)
    requires AnswersFor(lib, rows, issuer, was) && SeriesFor(rows, issuer, had)
    requires AnswersTurn(lib, row, issuer, was, had, now)
    ensures AnswersFor(lib, rows + [row], issuer, now)
  {
    forall key
      ensures Found(now, key) == Answer(lib, rows + [row], issuer, key)
    {
      AnswerNext(lib, rows, row, issuer, key);
      assert Found(was, key) == Answer(lib, rows, issuer, key);
      assert Under(had, key) == Series(rows, issuer, key);
    }
  }

  // ---------------------------------------------------------------- where answers come from

  predicate Cell(rows: seq<InputRow>, row: InputRow, issuer: string, key: string, period: Option<string>) {
    row in rows && About(row, issuer, key) && row.period == period
  }

  ghost predicate HasKey(rows: seq<InputRow>, issuer: string, key: string) {
    exists row :: row in rows && About(row, issuer, key)
  }

  /** A series has exactly the periods of the rows of its key, and says what one of those rows says. */
  lemma {:induction false} SeriesComesFromRows(rows: seq<InputRow>, issuer: string, key: string, tag: string)
    ensures tag in Series(rows, issuer, key) <==> exists row :: Cell(rows, row, issuer, key, Some(tag))
    ensures tag in Series(rows, issuer, key) ==>
              exists row :: Cell(rows, row, issuer, key, Some(tag)) && Obs(row) == Series(rows, issuer, key)[tag]
  {
    if rows != [] {
      var init, last := rows[..|rows| - 1], rows[|rows| - 1];
      assert rows == init + [last];
      SeriesNext(init, last, issuer, key);
      SeriesComesFromRows(init, issuer, key, tag);
      forall row | Cell(init, row, issuer, key, Some(tag))
        ensures Cell(rows, row, issuer, key, Some(tag))
      {
      }
      forall row | Cell(rows, row, issuer, key, Some(tag))
        ensures row == last || Cell(init, row, issuer, key, Some(tag))
      {
      }
      if About(last, issuer, key) && last.period == Some(tag) {
        assert Cell(rows, last, issuer, key, Some(tag));
      }
    }
  }

  /** The last row of a key decides how the key is answered. */
  lemma {:induction false} AnswerByLastRow(lib: Library, rows: seq<InputRow>, issuer: string, key: string)
    returns (n: nat)
    requires HasKey(rows, issuer, key)
    ensures n < |rows| && About(rows[n], issuer, key)
    ensures forall m :: n < m < |rows| ==> !About(rows[m], issuer, key)
    ensures rows[n].period.None? ==> Answer(lib, rows, issuer, key) == Some(Obs(rows[n]))
    ensures rows[n].period.Some? ==>
              && rows[n].period.value in Series(rows, issuer, key)
              && Answer(lib, rows, issuer, key) == Some(LatestOf(lib, Series(rows, issuer, key)))
  {
    var init, last := rows[..|rows| - 1], rows[|rows| - 1];
    assert rows == init + [last];
    AnswerNext(lib, init, last, issuer, key);
    SeriesNext(init, last, issuer, key);
    if About(last, issuer, key) {
      n := |rows| - 1;
    } else {
      n := AnswerByLastRow(lib, init, issuer, key);
      assert rows[n] == init[n];
      assert forall m :: n < m < |init| ==> rows[m] == init[m];
    }
  }

  ghost function LatestOf(lib: Library, series: map<string, Observed>): Observed
    requires series != map[]
  {
    series[Latest(lib, series.Keys)]
  }

  lemma {:induction false} NoAnswerWithoutRows(lib: Library, rows: seq<InputRow>, issuer: string, key: string)
    requires !HasKey(rows, issuer, key)
    ensures Answer(lib, rows, issuer, key) == None
  {
    if rows != [] {
      assert rows[|rows| - 1] in rows;
      NoAnswerWithoutRows(lib, rows[..|rows| - 1], issuer, key);
    }
  }

  /** A key is answered exactly when it has rows, and every answer is what one of its rows says. */
  lemma AnswerComesFromRows(lib: Library, rows: seq<InputRow>, issuer: string, key: string)
    ensures Answer(lib, rows, issuer, key).Some? <==> HasKey(rows, issuer, key)
    ensures Answer(lib, rows, issuer, key).Some? ==>
              exists row :: row in rows && About(row, issuer, key) && Answer(lib, rows, issuer, key) == Some(Obs(row))
  {
    if HasKey(rows, issuer, key) {
      var n := AnswerByLastRow(lib, rows, issuer, key);
      assert rows[n] in rows;
      if rows[n].period.Some? {
        SeriesComesFromRows(rows, issuer, key, Latest(lib, Series(rows, issuer, key).Keys));
      }
    } else {
      NoAnswerWithoutRows(lib, rows, issuer, key);
    }
  }

  /** The inputs in plain words: every answer has the value, the confidence and the instant of one row of its
      issuer and key, and every entry of a series those of one row of its period. */
  lemma InputsSayWhatRowsSay(lib: Library, rows: seq<InputRow>, inputs: seq<IssuerInput>, n: nat, key: string)
    requires IsInputs(lib, rows, inputs) && n < |inputs|
    ensures key in inputs[n].answers ==>
              exists row :: row in rows && row.issuer == inputs[n].issuer && row.key == key
                            && inputs[n].answers[key].value == row.value
                            && inputs[n].answers[key].confidence == row.confidence
                            && inputs[n].answers[key].knowableAt == row.knowableAt
    ensures key in inputs[n].periodic ==>
              forall tag :: tag in inputs[n].periodic[key] ==>
                exists row :: row in rows && row.issuer == inputs[n].issuer && row.key == key && row.period == Some(tag)
                              && inputs[n].periodic[key][tag].value == row.value
                              && inputs[n].periodic[key][tag].confidence == row.confidence
                              && inputs[n].periodic[key][tag].knowableAt == row.knowableAt
  {
    var x := inputs[n];
    assert AnswersFor(lib, rows, x.issuer, x.answers) && SeriesFor(rows, x.issuer, x.periodic);
    assert Found(x.answers, key) == Answer(lib, rows, x.issuer, key);
    assert Under(x.periodic, key) == Series(rows, x.issuer, key);
    AnswerComesFromRows(lib, rows, x.issuer, key);
    if key in x.periodic {
      forall tag | tag in x.periodic[key]
        ensures exists row :: row in rows && row.issuer == x.issuer && row.key == key && row.period == Some(tag)
                              && x.periodic[key][tag].value == row.value
                              && x.periodic[key][tag].confidence == row.confidence
                              && x.periodic[key][tag].knowableAt == row.knowableAt
      {
        SeriesComesFromRows(rows, x.issuer, key, tag);
        var row :| Cell(rows, row, x.issuer, key, Some(tag)) && Obs(row) == Series(rows, x.issuer, key)[tag];
      }
    }
  }

  /** And nothing is left out: every row's issuer has an input, with an answer for its key and an entry for its
      period. */
  lemma RowsAreInInputs(lib: Library, rows: seq<InputRow>, inputs: seq<IssuerInput>, row: InputRow)
    requires IsInputs(lib, rows, inputs) && row in rows
    ensures exists n :: 0 <= n < |inputs| && inputs[n].issuer == row.issuer && row.key in inputs[n].answers
                        && (row.period.Some? ==> row.key in inputs[n].periodic
                                                 && row.period.value in inputs[n].periodic[row.key])
  {
    assert HasIssuer(rows, row.issuer);
    var n :| 0 <= n < |inputs| && inputs[n].issuer == row.issuer;
    var x := inputs[n];
    assert AnswersFor(lib, rows, x.issuer, x.answers) && SeriesFor(rows, x.issuer, x.periodic);
    assert Found(x.answers, row.key) == Answer(lib, rows, x.issuer, row.key);
    assert Under(x.periodic, row.key) == Series(rows, x.issuer, row.key);
    assert About(row, row.issuer, row.key);
    AnswerComesFromRows(lib, rows, x.issuer, row.key);
    if row.period.Some? {
      assert Cell(rows, row, x.issuer, row.key, row.period);
      SeriesComesFromRows(rows, x.issuer, row.key, row.period.value);
    }
  }

  ghost predicate KnowableBy(inputs: seq<IssuerInput>, cutoff: Instant) {
    forall n :: 0 <= n < |inputs| ==>
      && (forall key :: key in inputs[n].answers ==> inputs[n].answers[key].knowableAt <= cutoff)
      && (forall key, tag :: key in inputs[n].periodic && tag in inputs[n].periodic[key] ==>
            inputs[n].periodic[key][tag].knowableAt <= cutoff)
  }

  /** When no row is late, nothing the inputs hold became knowable after the cutoff. */
  lemma NothingFromTheFuture(lib: Library, rows: seq<InputRow>, cutoff: Instant, inputs: seq<IssuerInput>)
    requires IsInputs(lib, rows, inputs)
    requires forall row :: row in rows ==> !Late(row, Some(cutoff))
    ensures KnowableBy(inputs, cutoff)
  {
    forall n, key | 0 <= n < |inputs| && key in inputs[n].answers
      ensures inputs[n].answers[key].knowableAt <= cutoff
    {
      AnswerComesFromRows(lib, rows, inputs[n].issuer, key);
      assert AnswersFor(lib, rows, inputs[n].issuer, inputs[n].answers);
      assert Found(inputs[n].answers, key) == Answer(lib, rows, inputs[n].issuer, key);
    }
    forall n, key, tag | 0 <= n < |inputs| && key in inputs[n].periodic && tag in inputs[n].periodic[key]
      ensures inputs[n].periodic[key][tag].knowableAt <= cutoff
    {
      SeriesComesFromRows(rows, inputs[n].issuer, key, tag);
      assert SeriesFor(rows, inputs[n].issuer, inputs[n].periodic);
      assert Under(inputs[n].periodic, key) == Series(rows, inputs[n].issuer, key);
    }
  }

  // ---------------------------------------------------------------- the order of the rows

  ghost predicate SameMembers(a: seq<InputRow>, b: seq<InputRow>) {
    forall row :: row in a <==> row in b
  }

  predicate SameCell(a: InputRow, b: InputRow) {
    a.issuer == b.issuer && a.key == b.key && a.period == b.period
  }

  /** One row per issuer, key and period, as the winner query returns them. */
  ghost predicate Unique(rows: seq<InputRow>) {
    forall a, b :: a in rows && b in rows && SameCell(a, b) ==> a == b
  }

  /** Where a key has both a row without a period and rows with one, the former says what the latest
      period says. */
  ghost predicate Settled(lib: Library, rows: seq<InputRow>) {
    forall row :: row in rows && row.period.None? ==> SettledAt(lib, rows, row)
  }

  ghost predicate SettledAt(lib: Library, rows: seq<InputRow>, row: InputRow) {
    var series := Series(rows, row.issuer, row.key);
    series != map[] ==> Obs(row) == LatestOf(lib, series)
  }

  ghost predicate Unmixed(rows: seq<InputRow>) {
    forall a, b :: a in rows && b in rows && About(b, a.issuer, a.key) && a.period.None? ==> b.period.None?
  }

  lemma UnmixedIsSettled(lib: Library, rows: seq<InputRow>)
    requires Unmixed(rows)
    ensures Settled(lib, rows)
  {
    forall row | row in rows && row.period.None?
      ensures SettledAt(lib, rows, row)
    {
      if tag :| tag in Series(rows, row.issuer, row.key) {
        SeriesComesFromRows(rows, row.issuer, row.key, tag);
      }
    }
  }

  ghost predicate SameAnswersAt(lib: Library, a: seq<InputRow>, b: seq<InputRow>, issuer: string, key: string) {
    Series(a, issuer, key) == Series(b, issuer, key) && Answer(lib, a, issuer, key) == Answer(lib, b, issuer, key)
  }

  ghost predicate SameAnswers(lib: Library, a: seq<InputRow>, b: seq<InputRow>) {
    forall issuer, key :: SameAnswersAt(lib, a, b, issuer, key)
  }

  lemma SeriesIgnoresOrder(a: seq<InputRow>, b: seq<InputRow>, issuer: string, key: string)
    requires Unique(a) && SameMembers(a, b)
    ensures Series(a, issuer, key) == Series(b, issuer, key)
  {
    forall tag
      ensures tag in Series(a, issuer, key) <==> tag in Series(b, issuer, key)
      ensures tag in Series(a, issuer, key) ==> Series(a, issuer, key)[tag] == Series(b, issuer, key)[tag]
    {
      SeriesComesFromRows(a, issuer, key, tag);
      SeriesComesFromRows(b, issuer, key, tag);
      assert forall row :: Cell(a, row, issuer, key, Some(tag)) <==> Cell(b, row, issuer, key, Some(tag));
      assert forall r, s :: Cell(a, r, issuer, key, Some(tag)) && Cell(a, s, issuer, key, Some(tag)) ==> SameCell(r, s);
    }
  }

  lemma AnswerIgnoresOrder(lib: Library, a: seq<InputRow>, b: seq<InputRow>, issuer: string, key: string)
    requires Unique(a) && Settled(lib, a) && SameMembers(a, b)
    ensures SameAnswersAt(lib, a, b, issuer, key)
  {
    SeriesIgnoresOrder(a, b, issuer, key);
    if HasKey(a, issuer, key) {
      var i := AnswerByLastRow(lib, a, issuer, key);
      var j := AnswerByLastRow(lib, b, issuer, key);
      var r, s := a[i], b[j];
      if r.period.None? && s.period.None? {
        assert SameCell(r, s);
      } else if r.period.None? {
        assert SettledAt(lib, a, r);
      } else if s.period.None? {
        assert SettledAt(lib, a, s);
      }
    } else {
      NoAnswerWithoutRows(lib, a, issuer, key);
      NoAnswerWithoutRows(lib, b, issuer, key);
    }
  }

  function MovedLast(rows: seq<InputRow>, i: nat): (moved: seq<InputRow>)
    requires i < |rows|
    ensures multiset(moved) == multiset(rows) && moved != [] && moved[|moved| - 1] == rows[i]
  {
    assert rows == rows[..i] + [rows[i]] + rows[i + 1..];
    rows[..i] + rows[i + 1..] + [rows[i]]
  }

  /** With one of its rows moved to the end, a key is answered by that row. */
  lemma MovedLastAnswers(lib: Library, rows: seq<InputRow>, i: nat)
    requires Unique(rows) && i < |rows|
    ensures var row, moved := rows[i], MovedLast(rows, i);
            var series, answer := Series(rows, row.issuer, row.key), Answer(lib, moved, row.issuer, row.key);
            && (row.period.None? ==> answer == Some(Obs(row)))
            && (row.period.Some? ==> series != map[] && answer == Some(LatestOf(lib, series)))
  {
    var row, moved := rows[i], MovedLast(rows, i);
    MultisetMembers(rows, moved);
    assert moved[|moved| - 1] in moved;
    SeriesIgnoresOrder(rows, moved, row.issuer, row.key);
    var last := AnswerByLastRow(lib, moved, row.issuer, row.key);
  }

  lemma UnsettledDependsOnOrder(lib: Library, rows: seq<InputRow>, row: InputRow)
    requires Unique(rows) && row in rows && row.period.None? && !SettledAt(lib, rows, row)
    ensures exists b :: multiset(b) == multiset(rows) && !SameAnswers(lib, rows, b)
  {
    var series := Series(rows, row.issuer, row.key);
    var tag :| tag in series;
    SeriesComesFromRows(rows, row.issuer, row.key, tag);
    var periodic :| Cell(rows, periodic, row.issuer, row.key, Some(tag));
    var i :| 0 <= i < |rows| && rows[i] == row;
    var j :| 0 <= j < |rows| && rows[j] == periodic;
    MovedLastAnswers(lib, rows, i);
    MovedLastAnswers(lib, rows, j);
    var a, b := MovedLast(rows, i), MovedLast(rows, j);
    assert !SameAnswersAt(lib, rows, a, row.issuer, row.key) || !SameAnswersAt(lib, rows, b, row.issuer, row.key);
    assert !SameAnswers(lib, rows, a) || !SameAnswers(lib, rows, b);
  }

  /** For rows unique by issuer, key and period, the inputs depend on nothing but the bag of rows exactly
      when no scalar row contradicts the latest period of its own key. */
  lemma OrderIsIrrelevantExactlyWhen(lib: Library, rows: seq<InputRow>)
    requires Unique(rows)
    ensures Settled(lib, rows) <==>
            forall b: seq<InputRow> :: multiset(b) == multiset(rows) ==> SameAnswers(lib, rows, b)
  {
    if Settled(lib, rows) {
      forall b: seq<InputRow> | multiset(b) == multiset(rows)
        ensures SameAnswers(lib, rows, b)
      {
        MultisetMembers(rows, b);
        forall issuer, key
          ensures SameAnswersAt(lib, rows, b, issuer, key)
        {
          AnswerIgnoresOrder(lib, rows, b, issuer, key);
        }
      }
    } else {
      var row :| row in rows && row.period.None? && !SettledAt(lib, rows, row);
      UnsettledDependsOnOrder(lib, rows, row);
    }
  }

  /** A scalar row that contradicts the series of its key: whichever row comes last answers. */
  lemma MixedRowsDependOnOrder(lib: Library)
    ensures var scalar := InputRow("issuer:a", "revenue", "1", "1", None, 0);
            var periodic := InputRow("issuer:a", "revenue", "2", "1", Some("FY2024"), 0);
            && Answer(lib, [scalar, periodic], "issuer:a", "revenue") == Some(Obs(periodic))
            && Answer(lib, [periodic, scalar], "issuer:a", "revenue") == Some(Obs(scalar))
  {
    var scalar := InputRow("issuer:a", "revenue", "1", "1", None, 0);
    var periodic := InputRow("issuer:a", "revenue", "2", "1", Some("FY2024"), 0);
    assert [scalar, periodic] == [scalar] + [periodic] && [periodic, scalar] == [periodic] + [scalar];
    AnswerNext(lib, [scalar], periodic, "issuer:a", "revenue");
    AnswerNext(lib, [periodic], scalar, "issuer:a", "revenue");
    SeriesNext([], scalar, "issuer:a", "revenue");
  }

  /** The row of the latest period answers for a periodic key. */
  lemma LatestPeriodAnswers(lib: Library, rows: seq<InputRow>, row: InputRow)
    requires Unique(rows) && Unmixed(rows) && row in rows && row.period.Some?
    requires forall other :: other in rows && About(other, row.issuer, row.key) && other.period.Some?
                             && other.period != row.period ==>
                             TagOrder(lib)(other.period.value, row.period.value)
    ensures Answer(lib, rows, row.issuer, row.key) == Some(Obs(row))
  {
    var series, tag := Series(rows, row.issuer, row.key), row.period.value;
    var last := AnswerByLastRow(lib, rows, row.issuer, row.key);
    SeriesComesFromRows(rows, row.issuer, row.key, tag);
    assert Cell(rows, row, row.issuer, row.key, Some(tag));
    forall other | other in series.Keys && other != tag
      ensures TagOrder(lib)(other, tag)
    {
      SeriesComesFromRows(rows, row.issuer, row.key, other);
    }
    TagOrderIsTotal(lib);
    GreatestUnique(TagOrder(lib), series.Keys, tag, Latest(lib, series.Keys));
    assert forall r :: Cell(rows, r, row.issuer, row.key, Some(tag)) ==> SameCell(r, row);
  }

  /** The inputs themselves: same members, same inputs. */
  lemma InputsIgnoreOrder(lib: Library, a: seq<InputRow>, b: seq<InputRow>, x: seq<IssuerInput>, y: seq<IssuerInput>)
    requires Unique(a) && Settled(lib, a) && SameMembers(a, b)
    requires IsInputs(lib, a, x) && IsInputs(lib, b, y)
    ensures x == y
  {
    forall issuer, key
      ensures SameAnswersAt(lib, a, b, issuer, key)
    {
      AnswerIgnoresOrder(lib, a, b, issuer, key);
    }
    SameAnswersSameInputs(lib, a, b, x, y);
  }

  /** Answers and series determine the inputs. */
  lemma SameAnswersSameInputs(lib: Library, a: seq<InputRow>, b: seq<InputRow>,
                              x: seq<IssuerInput>, y: seq<IssuerInput>)
    requires SameAnswers(lib, a, b) && SameMembers(a, b)
    requires IsInputs(lib, a, x) && IsInputs(lib, b, y)
    ensures x == y
  {
    var xs := seq(|x|, n requires 0 <= n < |x| => x[n].issuer);
    var ys := seq(|y|, n requires 0 <= n < |y| => y[n].issuer);
    forall issuer
      ensures issuer in Elements(xs) <==> HasIssuer(a, issuer)
      ensures issuer in Elements(ys) <==> HasIssuer(b, issuer)
    {
      IssuersListed(lib, a, x, xs, issuer);
      IssuersListed(lib, b, y, ys, issuer);
    }
    assert forall issuer :: HasIssuer(a, issuer) <==> HasIssuer(b, issuer);
    TextOrder();
    AscendingUnique(TextLess, xs, ys);
    assert |x| == |xs| && |y| == |ys|;
    forall n | 0 <= n < |x|
      ensures x[n] == y[n]
    {
      assert x[n].issuer == xs[n] && y[n].issuer == ys[n];
      SameInput(lib, a, b, x[n], y[n]);
    }
  }

  lemma IssuersListed(lib: Library, rows: seq<InputRow>, x: seq<IssuerInput>, xs: seq<string>, issuer: string)
    requires IsInputs(lib, rows, x)
    requires |xs| == |x| && forall n :: 0 <= n < |x| ==> xs[n] == x[n].issuer
    ensures issuer in Elements(xs) <==> HasIssuer(rows, issuer)
  {
    if HasIssuer(rows, issuer) {
      var n :| 0 <= n < |x| && x[n].issuer == issuer;
      assert xs[n] == issuer;
    }
  }

  lemma SameInput(lib: Library, a: seq<InputRow>, b: seq<InputRow>, x: IssuerInput, y: IssuerInput)
    requires SameAnswers(lib, a, b) && x.issuer == y.issuer
    requires AnswersFor(lib, a, x.issuer, x.answers) && AnswersFor(lib, b, y.issuer, y.answers)
    requires SeriesFor(a, x.issuer, x.periodic) && SeriesFor(b, y.issuer, y.periodic)
    ensures x == y
  {
    forall key
      ensures Found(x.answers, key) == Found(y.answers, key)
      ensures Under(x.periodic, key) == Under(y.periodic, key)
    {
      assert SameAnswersAt(lib, a, b, x.issuer, key);
    }
    forall key
      ensures key in x.answers <==> key in y.answers
      ensures key in x.answers ==> x.answers[key] == y.answers[key]
    {
      assert Found(x.answers, key) == Found(y.answers, key);
    }
    forall key
      ensures key in x.periodic <==> key in y.periodic
      ensures key in x.periodic ==> x.periodic[key] == y.periodic[key]
    {
      assert Under(x.periodic, key) == Under(y.periodic, key);
    }
  }

  // ---------------------------------------------------------------- the snapshot identity

  /** What of a row enters the identity: everything but when it became knowable, a missing period
      counting as the empty text. */
  function Tuple(row: InputRow): seq<string> {
    [row.issuer, row.key, row.value, row.confidence, if row.period.Some? then row.period.value else ""]
  }

  function Tuples(rows: seq<InputRow>): (tuples: seq<seq<string>>)
    ensures |tuples| == |rows|
  {
    seq(|rows|, i requires 0 <= i < |rows| => Tuple(rows[i]))
  }

  predicate TupleLess(a: seq<string>, b: seq<string>) {
    Lex(TextLess, a, b)
  }

  lemma TupleOrder()
    ensures StrictTotal(TupleLess)
  {
    TextOrder();
    forall x, y, z
      ensures !TupleLess(x, x)
      ensures x != y ==> TupleLess(x, y) || TupleLess(y, x)
      ensures TupleLess(x, y) && TupleLess(y, z) ==> TupleLess(x, z)
      ensures TupleLess(x, z) ==> TupleLess(x, y) || TupleLess(y, z)
    {
      LexOrder(TextLess, x, y, z);
    }
  }

  ghost function SnapshotId(hash: seq<seq<string>> -> string, rows: seq<InputRow>): string {
    TupleOrder();
    Address("strategy-snapshot", hash(Sort(TupleLess, Tuples(rows))))
  }

  /** Two sets of rows have the same snapshot id exactly when they hold the same bag of tuples. */
  lemma SnapshotIsContent(hash: seq<seq<string>> -> string, a: seq<InputRow>, b: seq<InputRow>)
    requires Injective(hash)
    ensures SnapshotId(hash, a) == SnapshotId(hash, b) <==> multiset(Tuples(a)) == multiset(Tuples(b))
  {
    TupleOrder();
    var x, y := Sort(TupleLess, Tuples(a)), Sort(TupleLess, Tuples(b));
    if SnapshotId(hash, a) == SnapshotId(hash, b) {
      AddressInjective("strategy-snapshot", hash(x), hash(y));
      assert x == y;
    } else if multiset(Tuples(a)) == multiset(Tuples(b)) {
      SortPermutation(TupleLess, Tuples(a), Tuples(b));
    }
  }

  /** Earlier in the order of lists: at the first place where they differ the smaller text, or the end. */
  ghost predicate Earlier(a: seq<string>, b: seq<string>) {
    exists k: nat :: k <= |a| && k < |b| && a[..k] == b[..k] && (k == |a| || TextLess(a[k], b[k]))
  }

  lemma EarlierMeaning(a: seq<string>, b: seq<string>)
    ensures TupleLess(a, b) <==> Earlier(a, b)
  {
    LexMeaning(TextLess, a, b);
    forall k: nat
      ensures DecidedAt(TextLess, a, b, k) <==>
              k <= |a| && k < |b| && a[..k] == b[..k] && (k == |a| || TextLess(a[k], b[k]))
    {
    }
  }

  /** The id is the hash of the tuples in ascending order, under its prefix. */
  lemma SnapshotHashesSortedTuples(hash: seq<seq<string>> -> string, rows: seq<InputRow>, ordered: seq<seq<string>>)
    requires multiset(ordered) == multiset(Tuples(rows))
    requires forall i, j :: 0 <= i < j < |ordered| ==> ordered[i] == ordered[j] || Earlier(ordered[i], ordered[j])
    ensures SnapshotId(hash, rows) == "strategy-snapshot:" + hash(ordered)
  {
    TupleOrder();
    forall i, j | 0 <= i < j < |ordered|
      ensures !TupleLess(ordered[j], ordered[i])
    {
      EarlierMeaning(ordered[i], ordered[j]);
    }
    SortedUnique(TupleLess, Sort(TupleLess, Tuples(rows)), ordered);
    assert "strategy-snapshot" + ":" == "strategy-snapshot:";
  }

  /** What the identity covers, on single rows: issuer, key, value, confidence and period, a missing period
      counting as the empty text; when a row became knowable does not matter. */
  lemma SingleRowSnapshots(hash: seq<seq<string>> -> string, a: InputRow, b: InputRow)
    requires Injective(hash)
    ensures SnapshotId(hash, [a]) == SnapshotId(hash, [b]) <==>
            && a.issuer == b.issuer && a.key == b.key && a.value == b.value && a.confidence == b.confidence
            && (if a.period.Some? then a.period.value else "") == (if b.period.Some? then b.period.value else "")
  {
    assert Tuples([a]) == [Tuple(a)] && Tuples([b]) == [Tuple(b)];
    SnapshotIsContent(hash, [a], [b]);
    assert multiset([Tuple(a)]) == multiset([Tuple(b)]) <==> Tuple(a) == Tuple(b) by {
      assert Tuple(a) in multiset([Tuple(a)]) && (Tuple(a) in multiset([Tuple(b)]) <==> Tuple(a) == Tuple(b));
    }
    TuplesOnFields(a, b);
  }

  lemma TuplesOnFields(a: InputRow, b: InputRow)
    ensures Tuple(a) == Tuple(b) <==>
            && a.issuer == b.issuer && a.key == b.key && a.value == b.value && a.confidence == b.confidence
            && (if a.period.Some? then a.period.value else "") == (if b.period.Some? then b.period.value else "")
  {
    if Tuple(a) == Tuple(b) {
      assert Tuple(a)[0] == Tuple(b)[0] && Tuple(a)[1] == Tuple(b)[1] && Tuple(a)[2] == Tuple(b)[2];
      assert Tuple(a)[3] == Tuple(b)[3] && Tuple(a)[4] == Tuple(b)[4];
    }
  }

  lemma TuplesJoin(a: seq<InputRow>, b: seq<InputRow>)
    ensures Tuples(a + b) == Tuples(a) + Tuples(b)
  {
  }

  lemma TuplesInsert(before: seq<InputRow>, row: InputRow, after: seq<InputRow>)
    ensures multiset(Tuples(before + [row] + after)) == multiset(Tuples(before + after)) + multiset{Tuple(row)}
  {
    TuplesJoin(before + [row], after);
    TuplesJoin(before, [row]);
    TuplesJoin(before, after);
    assert Tuples([row]) == [Tuple(row)];
  }

  lemma {:induction false} TuplesPermutation(a: seq<InputRow>, b: seq<InputRow>)
    requires multiset(a) == multiset(b)
    ensures multiset(Tuples(a)) == multiset(Tuples(b))
    decreases |a|
  {
    MultisetMembers(a, b);
    if a != [] {
      var j := FirstIn(a, b);
      var before, after := b[..j], b[j + 1..];
      assert a == [] + [a[0]] + a[1..] && [] + a[1..] == a[1..];
      assert b == before + [a[0]] + after;
      SameRest(a, before, after);
      TuplesPermutation(a[1..], before + after);
      TuplesInsert([], a[0], a[1..]);
      TuplesInsert(before, a[0], after);
    }
  }

  lemma FirstIn(a: seq<InputRow>, b: seq<InputRow>) returns (j: nat)
    requires a != [] && multiset(a) == multiset(b)
    ensures j < |b| && b[j] == a[0]
  {
    MultisetMembers(a, b);
    assert a[0] in b;
    j :| 0 <= j < |b| && b[j] == a[0];
  }

  lemma SameRest(a: seq<InputRow>, before: seq<InputRow>, after: seq<InputRow>)
    requires a != [] && multiset(a) == multiset(before + [a[0]] + after)
    ensures multiset(a[1..]) == multiset(before + after)
  {
    assert a == [a[0]] + a[1..];
    assert multiset(a[1..]) == multiset(a) - multiset{a[0]};
  }

  /** The snapshot identity does not depend on the order of the rows. */
  lemma SnapshotIgnoresOrder(hash: seq<seq<string>> -> string, a: seq<InputRow>, b: seq<InputRow>)
    requires multiset(a) == multiset(b)
    ensures SnapshotId(hash, a) == SnapshotId(hash, b)
  {
    TupleOrder();
    TuplesPermutation(a, b);
    SortPermutation(TupleLess, Tuples(a), Tuples(b));
  }

  // ---------------------------------------------------------------- from the table to the inputs

  function Read(winners: seq<Staged>): (rows: seq<InputRow>)
    ensures |rows| == |winners|
  {
    seq(|winners|, i requires 0 <= i < |winners| => Projected(winners[i]))
  }

  function Projected(w: Staged): InputRow {
    InputRow(w.issuer, w.key, w.value, w.confidence, w.period, w.knowableAt)
  }

  /** What the winner query returns is unique by issuer, key and period. */
  lemma WinnersAreUnique(table: seq<Staged>, cutoff: Instant, winners: seq<Staged>)
    requires IsWinners(table, cutoff, winners)
    ensures Unique(Read(winners))
  {
    var rows := Read(winners);
    forall a, b | a in rows && b in rows && SameCell(a, b)
      ensures a == b
    {
      var i :| 0 <= i < |rows| && rows[i] == a;
      var j :| 0 <= j < |rows| && rows[j] == b;
      OneWinnerEach(table, cutoff, winners, i, j);
    }
  }

  /** Two reads of one table at one cutoff are one sequence of rows, and so give the same inputs and the
      same snapshot id. */
  lemma ReadsAgree(lib: Library, hash: seq<seq<string>> -> string, table: seq<Staged>, cutoff: Instant,
                   v: seq<Staged>, w: seq<Staged>, x: seq<IssuerInput>, y: seq<IssuerInput>)
    requires Vintages.Indexed(table) && IsWinners(table, cutoff, v) && IsWinners(table, cutoff, w)
    requires IsInputs(lib, Read(v), x) && IsInputs(lib, Read(w), y)
    ensures Read(v) == Read(w) && SnapshotId(hash, Read(v)) == SnapshotId(hash, Read(w))
    ensures x == y
  {
    WinnersAreDetermined(table, cutoff, v, w);
    assert SameAnswers(lib, Read(v), Read(w));
    SameAnswersSameInputs(lib, Read(v), Read(w), x, y);
  }

  /** In the order of the query a row without a period comes last of its key, so it answers, with its own
      value, confidence and instant, whatever the series says. */
  lemma ScalarAnswersFirst(lib: Library, table: seq<Staged>, cutoff: Instant, winners: seq<Staged>, w: Staged,
                           inputs: seq<IssuerInput>, n: nat)
    requires IsWinners(table, cutoff, winners) && w in winners && w.period.None?
    requires IsInputs(lib, Read(winners), inputs) && n < |inputs| && inputs[n].issuer == w.issuer
    ensures w.key in inputs[n].answers
    ensures inputs[n].answers[w.key].value == w.value && inputs[n].answers[w.key].confidence == w.confidence
    ensures inputs[n].answers[w.key].knowableAt == w.knowableAt
  {
    var rows := Read(winners);
    assert AnswersFor(lib, rows, w.issuer, inputs[n].answers);
    assert Found(inputs[n].answers, w.key) == Answer(lib, rows, w.issuer, w.key);
    var i :| 0 <= i < |winners| && winners[i] == w;
    assert rows[i] in rows && About(rows[i], w.issuer, w.key);
    var last := AnswerByLastRow(lib, rows, w.issuer, w.key);
    LastOfKey(table, cutoff, winners, i, last);
  }

  /** Only a key without such a row is answered by the winner of its latest period. */
  lemma LatestAnswersOtherwise(lib: Library, table: seq<Staged>, cutoff: Instant, winners: seq<Staged>, w: Staged,
                               inputs: seq<IssuerInput>, n: nat)
    requires IsWinners(table, cutoff, winners) && w in winners && w.period.Some?
    requires forall v :: v in winners && v.issuer == w.issuer && v.key == w.key && v != w ==>
               v.period.Some? && TagBefore(lib, v.period.value, w.period.value)
    requires IsInputs(lib, Read(winners), inputs) && n < |inputs| && inputs[n].issuer == w.issuer
    ensures w.key in inputs[n].answers
    ensures inputs[n].answers[w.key].value == w.value && inputs[n].answers[w.key].confidence == w.confidence
    ensures inputs[n].answers[w.key].knowableAt == w.knowableAt
  {
    var rows := Read(winners);
    assert AnswersFor(lib, rows, w.issuer, inputs[n].answers);
    assert Found(inputs[n].answers, w.key) == Answer(lib, rows, w.issuer, w.key);
    var i :| 0 <= i < |winners| && winners[i] == w;
    assert rows[i] in rows && About(rows[i], w.issuer, w.key);
    var last := AnswerByLastRow(lib, rows, w.issuer, w.key);
    assert winners[last] in winners;
    LatestInSeries(lib, table, cutoff, winners, i);
  }

  lemma LatestInSeries(lib: Library, table: seq<Staged>, cutoff: Instant, winners: seq<Staged>, i: nat)
    requires IsWinners(table, cutoff, winners) && i < |winners| && winners[i].period.Some?
    requires forall v :: v in winners && v.issuer == winners[i].issuer && v.key == winners[i].key && v != winners[i] ==>
               v.period.Some? && TagBefore(lib, v.period.value, winners[i].period.value)
    ensures var series := Series(Read(winners), winners[i].issuer, winners[i].key);
            series != map[] && LatestOf(lib, series) == Obs(Read(winners)[i])
  {
    var rows, w := Read(winners), winners[i];
    var series, tag := Series(rows, w.issuer, w.key), w.period.value;
    assert rows[i] in rows && Cell(rows, rows[i], w.issuer, w.key, Some(tag));
    SeriesComesFromRows(rows, w.issuer, w.key, tag);
    forall other | other in series.Keys && other != tag
      ensures TagOrder(lib)(other, tag)
    {
      SeriesComesFromRows(rows, w.issuer, w.key, other);
      var row :| Cell(rows, row, w.issuer, w.key, Some(other));
      var j :| 0 <= j < |rows| && rows[j] == row;
      assert winners[j] in winners;
    }
    TagOrderIsTotal(lib);
    GreatestUnique(TagOrder(lib), series.Keys, tag, Latest(lib, series.Keys));
    WinnersAreUnique(table, cutoff, winners);
    assert forall r :: Cell(rows, r, w.issuer, w.key, Some(tag)) ==> SameCell(r, rows[i]);
  }

  lemma LastOfKey(table: seq<Staged>, cutoff: Instant, winners: seq<Staged>, i: nat, n: nat)
    requires IsWinners(table, cutoff, winners) && i <= n < |winners|
    requires winners[i].issuer == winners[n].issuer && winners[i].key == winners[n].key && winners[i].period.None?
    ensures i == n
  {
    TextOrder();
    assert i < n ==> InputLess(Vintages.Inputs(winners)[i], Vintages.Inputs(winners)[n]);
  }
}
