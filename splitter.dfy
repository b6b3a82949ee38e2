/** The row splitter of the text trade command: each row of the request goes
    to the Showdown-set rows, to one of the three trainer-identity overrides,
    or to the invalid extra rows. */
module Splitter {
  import opened Text

  type UShort = x: nat | x <= 0xFFFF
  type UInt = x: nat | x <= 0xFFFF_FFFF

  const USHORT_MAX: nat := 0xFFFF
  const UINT_MAX: nat := 0xFFFF_FFFF

  const SECRET_ID_LABEL: string := "Secret Id:"
  const TRAINER_ID_LABEL: string := "Trainer Id:"
  const TRAINER_LABEL: string := "Trainer:"

  /** The three nullable locals: secret id, trainer id, trainer name. */
  datatype Overrides = Overrides(secretId: Option<UShort>, trainerId: Option<UInt>, ot: Option<string>)

  const NO_OVERRIDES := Overrides(None, None, None)

  /** What the splitting loop leaves behind. */
  datatype RowSplit = RowSplit(showdownRows: seq<string>, invalidExtraRows: seq<string>, overrides: Overrides)

  /** Where one row goes. */
  datatype Route =
    | Description
    | Invalid
    | SetSecretId(sid: UShort)
    | SetTrainerId(tid: UInt)
    | SetOt(ot: string)

  // ---------------------------------------------------------------------
  // One row
  // ---------------------------------------------------------------------

  /** No occurrences means the character is absent. */
  lemma {:induction false} OccurrencesZero(s: string, c: char)
    ensures Occurrences(s, c) == 0 <==> c !in s
    decreases |s|
  {
    if s != [] {
      OccurrencesZero(s[1..], c);
      assert s == [s[0]] + s[1..];
    }
  }

  /** A string with exactly one separator splits around that separator. */
  lemma {:induction false} SplitOnOneSeparator(s: string, sep: char)
    requires Occurrences(s, sep) == 1
    ensures exists k :: 0 <= k < |s| && s[k] == sep && SplitOn(s, sep) == [s[..k], s[k + 1..]]
    decreases |s|
  {
    if s[0] == sep {
      OccurrencesZero(s[1..], sep);
      SplitOnWithoutSeparator(s[1..], sep);
      assert SplitOn(s, sep) == [s[..0], s[1..]];
    } else {
      SplitOnOneSeparator(s[1..], sep);
      var k' :| 0 <= k' < |s[1..]| && s[1..][k'] == sep && SplitOn(s[1..], sep) == [s[1..][..k'], s[1..][k' + 1..]];
      var k := k' + 1;
      assert [s[0]] + s[1..][..k'] == s[..k];
      assert s[1..][k' + 1..] == s[k + 1..];
      assert SplitOn(s, sep) == [s[..k], s[k + 1..]];
    }
  }

  /** The value of a row: the trimmed text after its colon when the row
      holds exactly one colon, and "" otherwise (the row is split on every
      colon, and only a two-piece split yields a value). */
  function ValueOf(row: string): (val: string)
    ensures Occurrences(row, ':') != 1 ==> val == ""
    ensures Occurrences(row, ':') == 1 ==>
              exists k :: 0 <= k < |row| && row[k] == ':' && val == Trim(row[k + 1..])
  {
    var arr := SplitOn(row, ':');
    SplitOnCount(row, ':');
    if |arr| == 2 then
      SplitOnOneSeparator(row, ':');
      Trim(arr[1])
    else ""
  }

  /** Where a row goes: a row containing "Secret Id:" anywhere sets the
      secret id when its value parses as an unsigned 16-bit number, else it
      is invalid; failing that, "Trainer Id:" does the same with 32 bits;
      failing that, "Trainer:" sets the trainer name and never fails; every
      other row is a Showdown-set row. */
  function RouteOf(row: string): Route
  {
    var val := ValueOf(row);
    if Contains(row, SECRET_ID_LABEL) then
      match ParseUnsigned(val, USHORT_MAX)
      case Some(v) => SetSecretId(v)
      case None => Invalid
    else if Contains(row, TRAINER_ID_LABEL) then
      match ParseUnsigned(val, UINT_MAX)
      case Some(v) => SetTrainerId(v)
      case None => Invalid
    else if Contains(row, TRAINER_LABEL) then
      SetOt(val)
    else
      Description
  }

  /** One iteration of the splitting loop, for a given choice of where
      each row goes. */
  function Step(route: string -> Route, acc: RowSplit, row: string): RowSplit
  {
    match route(row)
    case Description => acc.(showdownRows := acc.showdownRows + [row])
    case Invalid => acc.(invalidExtraRows := acc.invalidExtraRows + [row])
    case SetSecretId(v) => acc.(overrides := acc.overrides.(secretId := Some(v)))
    case SetTrainerId(v) => acc.(overrides := acc.overrides.(trainerId := Some(v)))
    case SetOt(v) => acc.(overrides := acc.overrides.(ot := Some(v)))
  }

  /** The loop as a fold of Step over the rows, in input order. */
  function Fold(route: string -> Route, rows: seq<string>): RowSplit
    decreases |rows|
  {
    if rows == [] then RowSplit([], [], NO_OVERRIDES)
    else Step(route, Fold(route, rows[..|rows| - 1]), rows[|rows| - 1])
  }

  /** The command's splitter: the fold with rows routed by RouteOf. */
  function Partition(rows: seq<string>): RowSplit
  {
    Fold(RouteOf, rows)
  }

  /** Partition over one more row is one more Step. */
  lemma PartitionStep(rows: seq<string>, i: nat)
    requires i < |rows|
    ensures Partition(rows[..i + 1]) == Step(RouteOf, Partition(rows[..i]), rows[i])
  {
    assert rows[..i + 1][..i] == rows[..i];
  }

  /** The splitting loop as the command runs it: one pass over the rows,
      reassigning the three nullable overrides and appending to the two lists,
      with a failed number parse sending the row to the invalid extras. */
  method SplitRows(rows: seq<string>)
    returns (showdownRows: seq<string>, invalidExtraRows: seq<string>,
             secretId: Option<UShort>, trainerId: Option<UInt>, ot: Option<string>)
    ensures RowSplit(showdownRows, invalidExtraRows, Overrides(secretId, trainerId, ot)) == Partition(rows)
  {
    secretId, trainerId, ot := None, None, None;
    showdownRows, invalidExtraRows := [], [];
    for i := 0 to |rows|
      invariant RowSplit(showdownRows, invalidExtraRows, Overrides(secretId, trainerId, ot))
                == Partition(rows[..i])
    {
      var row := rows[i];
      PartitionStep(rows, i);
      var arr := SplitOn(row, ':');
      var val := if |arr| == 2 then Trim(arr[1]) else "";
      assert val == ValueOf(row);
      if Contains(row, SECRET_ID_LABEL) {
        var parsed := ParseUnsigned(val, USHORT_MAX);
        if parsed.Some? {
          secretId := Some(parsed.value);
        } else {
          invalidExtraRows := invalidExtraRows + [row];
        }
      } else if Contains(row, TRAINER_ID_LABEL) {
        var parsed := ParseUnsigned(val, UINT_MAX);
        if parsed.Some? {
          trainerId := Some(parsed.value);
        } else {
          invalidExtraRows := invalidExtraRows + [row];
        }
      } else if Contains(row, TRAINER_LABEL) {
        ot := Some(val);
      } else {
        showdownRows := showdownRows + [row];
      }
    }
    assert rows[..|rows|] == rows;
  }

  // ---------------------------------------------------------------------
  // Every row accounted for exactly once, in order
  // ---------------------------------------------------------------------

  datatype Destination = ToShowdownRows | ToInvalidExtraRows | ToOverride

  function DestinationOf(r: Route): Destination {
    match r
    case Description => ToShowdownRows
    case Invalid => ToInvalidExtraRows
    case _ => ToOverride
  }

  /** The rows, in input order, whose destination is `d`. The lemmas
      below hold for every routing function; RouteOf is one. */
  function RowsTo(route: string -> Route, rows: seq<string>, d: Destination): seq<string>
    decreases |rows|
  {
    if rows == [] then []
    else
      var last := rows[|rows| - 1];
      RowsTo(route, rows[..|rows| - 1], d) + (if DestinationOf(route(last)) == d then [last] else [])
  }

  /** The two lists are exactly the rows bound for them, in input order. */
  lemma {:induction false} FoldLists(route: string -> Route, rows: seq<string>)
    ensures Fold(route, rows).showdownRows == RowsTo(route, rows, ToShowdownRows)
    ensures Fold(route, rows).invalidExtraRows == RowsTo(route, rows, ToInvalidExtraRows)
    decreases |rows|
  {
    if rows != [] {
      FoldLists(route, rows[..|rows| - 1]);
    }
  }

  /** Each row goes to exactly one destination: the three selections
      together are the input, neither losing nor repeating a row. */
  lemma {:induction false} RowsAccountedOnce(route: string -> Route, rows: seq<string>)
    ensures multiset(RowsTo(route, rows, ToShowdownRows)) + multiset(RowsTo(route, rows, ToInvalidExtraRows))
            + multiset(RowsTo(route, rows, ToOverride)) == multiset(rows)
    decreases |rows|
  {
    if rows != [] {
      var n := |rows| - 1;
      var init, last := rows[..n], rows[n];
      RowsAccountedOnce(route, init);
      assert rows == init + [last];
      var d := DestinationOf(route(last));
      var s, v, o := RowsTo(route, init, ToShowdownRows), RowsTo(route, init, ToInvalidExtraRows), RowsTo(route, init, ToOverride);
      AppendToOnePart(s, v, o, init, last, d,
                      RowsTo(route, rows, ToShowdownRows), RowsTo(route, rows, ToInvalidExtraRows),
                      RowsTo(route, rows, ToOverride));
    }
  }

  /** Appending `x` to the part of a three-way split of `init` that `d`
      names gives a three-way split of `init + [x]`. */
  lemma AppendToOnePart<T>(a: seq<T>, b: seq<T>, c: seq<T>, init: seq<T>, x: T,
                           d: Destination, a': seq<T>, b': seq<T>, c': seq<T>)
    requires multiset(a) + multiset(b) + multiset(c) == multiset(init)
    requires a' == a + (if d == ToShowdownRows then [x] else [])
    requires b' == b + (if d == ToInvalidExtraRows then [x] else [])
    requires c' == c + (if d == ToOverride then [x] else [])
    ensures multiset(a') + multiset(b') + multiset(c') == multiset(init + [x])
  {
    assert multiset(init + [x]) == multiset(init) + multiset{x};
    if d == ToShowdownRows {
      assert multiset(a') == multiset(a) + multiset{x};
    } else if d == ToInvalidExtraRows {
      assert multiset(b') == multiset(b) + multiset{x};
    } else {
      assert multiset(c') == multiset(c) + multiset{x};
    }
  }

  /** The command's splitter keeps every row exactly once: its two lists,
      plus the rows consumed by an override, are the input rows; each list
      holds the rows bound for it in input order. */
  lemma SplitAccountsForEveryRow(rows: seq<string>)
    ensures Partition(rows).showdownRows == RowsTo(RouteOf, rows, ToShowdownRows)
    ensures Partition(rows).invalidExtraRows == RowsTo(RouteOf, rows, ToInvalidExtraRows)
    ensures |Partition(rows).showdownRows| + |Partition(rows).invalidExtraRows|
            + |RowsTo(RouteOf, rows, ToOverride)| == |rows|
    ensures multiset(Partition(rows).showdownRows) + multiset(Partition(rows).invalidExtraRows)
            + multiset(RowsTo(RouteOf, rows, ToOverride)) == multiset(rows)
  {
    FoldLists(RouteOf, rows);
    RowsAccountedOnce(RouteOf, rows);
    var s, v, o := Partition(rows).showdownRows, Partition(rows).invalidExtraRows, RowsTo(RouteOf, rows, ToOverride);
    assert |multiset(s) + multiset(v) + multiset(o)| == |s| + |v| + |o|;
  }

  // ---------------------------------------------------------------------
  // Overrides: the last successful write wins
  // ---------------------------------------------------------------------

  datatype Field = SecretIdField | TrainerIdField | OtField

  /** Does a route write field `f`? */
  predicate Writes(r: Route, f: Field) {
    match f
    case SecretIdField => r.SetSecretId?
    case TrainerIdField => r.SetTrainerId?
    case OtField => r.SetOt?
  }

  /** The current value of field `f`, given as the route that would write it. */
  function Written(o: Overrides, f: Field): (w: Option<Route>)
    ensures w.Some? ==> Writes(w.value, f)
  {
    match f
    case SecretIdField => if o.secretId.Some? then Some(SetSecretId(o.secretId.value)) else None
    case TrainerIdField => if o.trainerId.Some? then Some(SetTrainerId(o.trainerId.value)) else None
    case OtField => if o.ot.Some? then Some(SetOt(o.ot.value)) else None
  }

  /** Row `i` writes `f` and no later row does. */
  predicate LastWriteAt(route: string -> Route, rows: seq<string>, f: Field, i: int) {
    0 <= i < |rows| && Writes(route(rows[i]), f)
    && forall j :: i < j < |rows| ==> !Writes(route(rows[j]), f)
  }

  /** One step writes field `f` exactly when the row's route does. */
  lemma StepWritten(route: string -> Route, acc: RowSplit, row: string, f: Field)
    ensures Written(Step(route, acc, row).overrides, f)
            == if Writes(route(row), f) then Some(route(row)) else Written(acc.overrides, f)
  {
  }

  /** An override is absent exactly when no row wrote it. */
  lemma {:induction false} UnwrittenIffNoWrite(route: string -> Route, rows: seq<string>, f: Field)
    ensures Written(Fold(route, rows).overrides, f).None? <==>
            forall j :: 0 <= j < |rows| ==> !Writes(route(rows[j]), f)
    decreases |rows|
  {
    if rows != [] {
      var n := |rows| - 1;
      var init := rows[..n];
      UnwrittenIffNoWrite(route, init, f);
      StepWritten(route, Fold(route, init), rows[n], f);
      assert forall j :: 0 <= j < n ==> init[j] == rows[j];
    }
  }

  /** An override that some row wrote holds the value of the last row that
      wrote it; a row whose parse failed never writes, so it never replaces
      an earlier value. */
  lemma {:induction false} LastWriteWins(route: string -> Route, rows: seq<string>, f: Field, i: int)
    requires LastWriteAt(route, rows, f, i)
    ensures Written(Fold(route, rows).overrides, f) == Some(route(rows[i]))
    decreases |rows|
  {
    var n := |rows| - 1;
    var init := rows[..n];
    StepWritten(route, Fold(route, init), rows[n], f);
    if i < n {
      assert !Writes(route(rows[n]), f);
      assert LastWriteAt(route, init, f, i) by {
        assert forall j :: i < j < n ==> init[j] == rows[j];
      }
      LastWriteWins(route, init, f, i);
    }
  }

  /** For the command's splitter: each of secret id, trainer id and trainer
      name ends up absent exactly when no row set it, and otherwise holds
      the value from the last row that set it. */
  lemma OverrideIsLastWrite(rows: seq<string>, f: Field)
    ensures Written(Partition(rows).overrides, f).None? <==>
            forall j :: 0 <= j < |rows| ==> !Writes(RouteOf(rows[j]), f)
    ensures forall i :: LastWriteAt(RouteOf, rows, f, i) ==>
            Written(Partition(rows).overrides, f) == Some(RouteOf(rows[i]))
  {
    UnwrittenIffNoWrite(RouteOf, rows, f);
    forall i | LastWriteAt(RouteOf, rows, f, i)
      ensures Written(Partition(rows).overrides, f) == Some(RouteOf(rows[i]))
    {
      LastWriteWins(RouteOf, rows, f, i);
    }
  }

  // ---------------------------------------------------------------------
  // Classification of single rows
  // ---------------------------------------------------------------------

  /** A row naming the secret id or trainer id is invalid unless it holds
      exactly one colon; a "Trainer:" row never fails, and without exactly
      one colon it sets the trainer name to "". */
  lemma RouteNeedsOneColon(row: string)
    requires Occurrences(row, ':') != 1
    ensures Contains(row, SECRET_ID_LABEL) ==> RouteOf(row) == Invalid
    ensures !Contains(row, SECRET_ID_LABEL) && Contains(row, TRAINER_ID_LABEL) ==> RouteOf(row) == Invalid
    ensures !Contains(row, SECRET_ID_LABEL) && !Contains(row, TRAINER_ID_LABEL) && Contains(row, TRAINER_LABEL)
            ==> RouteOf(row) == SetOt("")
  {
  }

  /** "Secret Id:" takes priority over the two trainer labels, and a secret
      id row only ever sets the secret id (with a value that is the number
      written after its one colon) or is invalid. */
  lemma SecretIdRoute(row: string)
    requires Contains(row, SECRET_ID_LABEL)
    ensures RouteOf(row) == Invalid || RouteOf(row).SetSecretId?
    ensures RouteOf(row).SetSecretId? ==>
              Occurrences(row, ':') == 1 && ValueOf(row) != [] && AllDigits(ValueOf(row))
              && DigitsValue(ValueOf(row)) == RouteOf(row).sid <= USHORT_MAX
    ensures ValueOf(row) != [] && AllDigits(ValueOf(row)) && DigitsValue(ValueOf(row)) <= USHORT_MAX ==>
              RouteOf(row) == SetSecretId(DigitsValue(ValueOf(row)))
  {
  }

  /** The same for "Trainer Id:" rows, with 32-bit values. */
  lemma TrainerIdRoute(row: string)
    requires !Contains(row, SECRET_ID_LABEL) && Contains(row, TRAINER_ID_LABEL)
    ensures RouteOf(row) == Invalid || RouteOf(row).SetTrainerId?
    ensures RouteOf(row).SetTrainerId? ==>
              Occurrences(row, ':') == 1 && ValueOf(row) != [] && AllDigits(ValueOf(row))
              && DigitsValue(ValueOf(row)) == RouteOf(row).tid <= UINT_MAX
    ensures ValueOf(row) != [] && AllDigits(ValueOf(row)) && DigitsValue(ValueOf(row)) <= UINT_MAX ==>
              RouteOf(row) == SetTrainerId(DigitsValue(ValueOf(row)))
  {
  }

  /** A "Trainer:" row that names neither id label never fails: it sets the
      trainer name to the row's value, whatever that value is. */
  lemma TrainerRoute(row: string)
    requires !Contains(row, SECRET_ID_LABEL) && !Contains(row, TRAINER_ID_LABEL) && Contains(row, TRAINER_LABEL)
    ensures RouteOf(row) == SetOt(ValueOf(row))
  {
  }

  /** A row that names none of the three labels is kept verbatim for the
      Showdown parser. */
  lemma DescriptionRoute(row: string)
    ensures RouteOf(row) == Description <==>
            !Contains(row, SECRET_ID_LABEL) && !Contains(row, TRAINER_ID_LABEL) && !Contains(row, TRAINER_LABEL)
  {
  }
}
