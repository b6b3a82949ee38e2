/** The rows a user writes in a text trade request, and where the splitter
    sends each: a tag followed by a number or a name, a name that itself
    holds a colon, and description rows around an override. */
module RowForms {
  import opened Text
  import opened Splitter

  /** Two separator-free strings joined by the separator split into the two. */
  lemma NameValueSplitOn(name: string, value: string, sep: char)
    requires sep !in name && sep !in value
    ensures SplitOn(name + [sep] + value, sep) == [name, value]
  {
    SplitOnWithoutSeparator(value, sep);
    SplitOnPrefix(name, value, sep);
  }

  /** Three separator-free strings joined by the separator split into the three. */
  lemma ThreePiecesSplitOn(x: string, y: string, z: string, sep: char)
    requires sep !in x && sep !in y && sep !in z
    ensures SplitOn(x + [sep] + (y + [sep] + z), sep) == [x, y, z]
  {
    NameValueSplitOn(y, z, sep);
    SplitOnPrefix(x, y + [sep] + z, sep);
  }

  /** A row with a colon-free name before its one colon has as value the
      trimmed text after it. */
  lemma ValueAfterOneColon(name: string, value: string)
    requires ':' !in name && ':' !in value
    ensures Occurrences(name + [':'] + value, ':') == 1
    ensures ValueOf(name + [':'] + value) == Trim(value)
  {
    NameValueSplitOn(name, value, ':');
    SplitOnCount(name + [':'] + value, ':');
  }

  /** Trim removes one leading space from a value without outer white space. */
  lemma TrimOneSpace(v: string)
    requires v != [] && !IsWhiteSpace(v[0]) && !IsWhiteSpace(v[|v| - 1])
    ensures Trim([' '] + v) == v
  {
    assert ([' '] + v)[1..] == v;
    assert TrimStart([' '] + v) == v;
  }

  /** The decimal text of a number, after one space, trims back to itself
      and holds no colon and no letter. */
  lemma DecimalField(v: nat)
    ensures Trim(" " + Decimal(v)) == Decimal(v)
    ensures ':' !in " " + Decimal(v)
    ensures 'S' !in " " + Decimal(v)
  {
    var d := Decimal(v);
    assert IsDigit(d[0]) && IsDigit(d[|d| - 1]);
    TrimOneSpace(d);
    assert ':' !in d && 'S' !in d by {
      forall j | 0 <= j < |d| ensures d[j] != ':' && d[j] != 'S' {
        assert IsDigit(d[j]);
      }
    }
  }

  /** A tag ending in a colon, one space and the decimal text of `v`:
      the row holds one colon, and its value is that decimal text. */
  lemma LabelledNumberValue(tag: string, v: nat)
    requires tag != [] && tag[|tag| - 1] == ':' && ':' !in tag[..|tag| - 1]
    ensures Occurrences(tag + " " + Decimal(v), ':') == 1
    ensures ValueOf(tag + " " + Decimal(v)) == Decimal(v)
  {
    var name := tag[..|tag| - 1];
    assert tag + " " + Decimal(v) == name + [':'] + (" " + Decimal(v));
    DecimalField(v);
    ValueAfterOneColon(name, " " + Decimal(v));
  }

  /** "Secret Id: <n>" sets the secret id to n when n fits in 16 bits, and
      is an invalid row otherwise. */
  lemma SecretIdRow(v: nat)
    ensures RouteOf(SECRET_ID_LABEL + " " + Decimal(v))
            == if v <= USHORT_MAX then SetSecretId(v) else Invalid
  {
    var row := SECRET_ID_LABEL + " " + Decimal(v);
    LabelledNumberValue(SECRET_ID_LABEL, v);
    ParseDecimal(v, USHORT_MAX);
    assert Contains(row, SECRET_ID_LABEL) by {
      assert SECRET_ID_LABEL <= row;
    }
  }

  /** A row without the letter 'S' holds no "Secret Id:". */
  lemma WithoutSNoSecretId(row: string)
    requires 'S' !in row
    ensures !Contains(row, SECRET_ID_LABEL)
  {
    assert SECRET_ID_LABEL[0] == 'S';
    ContainsAt(row, SECRET_ID_LABEL);
  }

  lemma NoSInTrainerIdRow(v: nat)
    ensures 'S' !in TRAINER_ID_LABEL + " " + Decimal(v)
  {
    DecimalField(v);
    assert 'S' !in TRAINER_ID_LABEL;
  }

  /** "Trainer Id: <n>" sets the trainer id to n when n fits in 32 bits, and
      is an invalid row otherwise. */
  lemma TrainerIdRow(v: nat)
    ensures RouteOf(TRAINER_ID_LABEL + " " + Decimal(v))
            == if v <= UINT_MAX then SetTrainerId(v) else Invalid
  {
    var row := TRAINER_ID_LABEL + " " + Decimal(v);
    LabelledNumberValue(TRAINER_ID_LABEL, v);
    ParseDecimal(v, UINT_MAX);
    NoSInTrainerIdRow(v);
    WithoutSNoSecretId(row);
    assert Contains(row, TRAINER_ID_LABEL) by {
      assert TRAINER_ID_LABEL <= row;
    }
  }

  /** A tag ending in a colon occurs in "Trainer:" + name only ending at
      that colon when the name has none, so a longer tag never occurs. */
  lemma NoLongerLabelInTrainerRow(name: string, pat: string)
    requires ':' !in name && |pat| > |TRAINER_LABEL| && pat[|pat| - 1] == ':'
    ensures !Contains(TRAINER_LABEL + name, pat)
  {
    ContainsAt(TRAINER_LABEL + name, pat);
  }

  /** "Trainer:" followed by a colon-free name sets the trainer name to that
      name with its outer white space removed. */
  lemma TrainerRow(name: string)
    requires ':' !in name
    ensures RouteOf(TRAINER_LABEL + name) == SetOt(Trim(name))
  {
    var row := TRAINER_LABEL + name;
    assert row == "Trainer" + [':'] + name;
    ValueAfterOneColon("Trainer", name);
    NoLongerLabelInTrainerRow(name, SECRET_ID_LABEL);
    NoLongerLabelInTrainerRow(name, TRAINER_ID_LABEL);
    assert TRAINER_LABEL <= row;
  }

  /** A trainer name that itself holds a colon splits the row into three
      pieces, so the trainer name is set to "" rather than to the text after
      the tag. */
  lemma TrainerNameWithColon(a: string, b: string)
    requires ':' !in a && ':' !in b
    requires !Contains(TRAINER_LABEL + a + [':'] + b, SECRET_ID_LABEL)
    requires !Contains(TRAINER_LABEL + a + [':'] + b, TRAINER_ID_LABEL)
    ensures RouteOf(TRAINER_LABEL + a + [':'] + b) == SetOt("")
  {
    var row := TRAINER_LABEL + a + [':'] + b;
    assert row == "Trainer" + [':'] + (a + [':'] + b);
    ThreePiecesSplitOn("Trainer", a, b, ':');
    SplitOnCount(row, ':');
    assert TRAINER_LABEL <= row;
    RouteNeedsOneColon(row);
  }

  /** Three rows fold as three Steps, for any routing. */
  lemma FoldThree(route: string -> Route, a: string, b: string, c: string)
    ensures Fold(route, [a, b, c])
            == Step(route, Step(route, Step(route, RowSplit([], [], NO_OVERRIDES), a), b), c)
  {
    assert [a][..0] == [];
    assert Fold(route, [a]) == Step(route, RowSplit([], [], NO_OVERRIDES), a);
    assert [a, b][..1] == [a];
    assert Fold(route, [a, b]) == Step(route, Fold(route, [a]), b);
    assert [a, b, c][..2] == [a, b];
  }

  /** A secret id row between two description rows sets only the secret id,
      keeps both description rows in order, and reports no invalid row. */
  lemma SecretIdAmongDescriptionRows(d1: string, v: UShort, d2: string)
    requires RouteOf(d1) == Description && RouteOf(d2) == Description
    ensures Partition([d1, SECRET_ID_LABEL + " " + Decimal(v), d2])
            == RowSplit([d1, d2], [], Overrides(Some(v), None, None))
  {
    SecretIdRow(v);
    FoldThree(RouteOf, d1, SECRET_ID_LABEL + " " + Decimal(v), d2);
  }
}
