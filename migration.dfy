/**
  `migrate_data`: every variation's rows of the long `food_nutrients` table
  are folded into one wide `food_variation_nutrients` row, one column per
  known nutrient.  A row's column is found through `nutrient_column_map`,
  first under "component (unit)" and then under the bare component; its
  value is coerced to an optional number.  The per-variation dictionary
  `nutrient_values` is an insertion-ordered list of column/value entries.
*/
module Migration {
  import opened Wrappers
  import opened Text
  import opened Decimal

  /** `nutrient_column_map`: nutrient names, some with a unit, to wide-table columns. */
  const NutrientColumnMap: map<string, string> := map[
    "Umidade" := "umidade_g",
    "Carboidrato total" := "carboidrato_total_g",
    "Carboidrato disponível" := "carboidrato_disponivel_g",
    "Proteína" := "proteina_g",
    "Lipídios" := "lipidios_g",
    "Fibra alimentar" := "fibra_alimentar_g",
    "Álcool" := "alcool_g",
    "Cinzas" := "cinzas_g",
    "Colesterol" := "colesterol_mg",
    "Ácidos graxos saturados" := "acidos_graxos_saturados_g",
    "Ácidos graxos monoinsaturados" := "acidos_graxos_monoinsaturados_g",
    "Ácidos graxos poliinsaturados" := "acidos_graxos_poliinsaturados_g",
    "Ácidos graxos trans" := "acidos_graxos_trans_g",
    "Cálcio" := "calcio_mg",
    "Ferro" := "ferro_mg",
    "Sódio" := "sodio_mg",
    "Magnésio" := "magnesio_mg",
    "Fósforo" := "fosforo_mg",
    "Potássio" := "potassio_mg",
    "Manganês" := "manganes_mg",
    "Zinco" := "zinco_mg",
    "Cobre" := "cobre_mg",
    "Selênio" := "selenio_mcg",
    "Vitamina A (RE)" := "vitamina_a_re_mcg",
    "Vitamina A (RAE)" := "vitamina_a_rae_mcg",
    "Vitamina D" := "vitamina_d_mcg",
    "Alfa-tocoferol (Vitamina E)" := "alfa_tocoferol_mg",
    "Tiamina" := "tiamina_mg",
    "Riboflavina" := "riboflavina_mg",
    "Niacina" := "niacina_mg",
    "Vitamina B6" := "vitamina_b6_mg",
    "Vitamina B12" := "vitamina_b12_mcg",
    "Vitamina C" := "vitamina_c_mg",
    "Equivalente de folato" := "equivalente_folato_mcg",
    "Sal de adição" := "sal_de_adicao_g",
    "Açúcar de adição" := "acucar_de_adicao_g",
    "Energia (kJ)" := "energia_kj",
    "Energia (kcal)" := "energia_kcal",
    "Energia" := "energia_kj"
  ]

  /** The key column of the wide table. */
  const VariationIdColumn: string := "variation_id"

  /** A row of `food_nutrients`; a missing unit or value is SQL `NULL`. */
  datatype FoodNutrientRow = FoodNutrientRow(
    variationId: nat, component: string, unit: Option<string>, value: Option<string>)

  /** A unit Python reads as true: present and not empty. */
  predicate HasUnit(unit: Option<string>) {
    unit.Some? && unit.value != ""
  }

  /** `f"{component} ({unit})" if unit else component`. */
  function NutrientKey(component: string, unit: Option<string>): string {
    if HasUnit(unit) then component + " (" + unit.value + ")" else component
  }

  /**
    `nutrient_column_map.get(nutrient_key) or nutrient_column_map.get(component)`:
    the column under the full key wins; the bare component is the fallback.
  */
  function ColumnFor(component: string, unit: Option<string>): (r: Option<string>)
    ensures r.None? <==> NutrientKey(component, unit) !in NutrientColumnMap && component !in NutrientColumnMap
    ensures r.Some? ==> r.value in NutrientColumnMap.Values
    ensures NutrientKey(component, unit) in NutrientColumnMap ==>
      r == Some(NutrientColumnMap[NutrientKey(component, unit)])
  {
    var key := NutrientKey(component, unit);
    if key in NutrientColumnMap then Some(NutrientColumnMap[key])
    else if component in NutrientColumnMap then Some(NutrientColumnMap[component])
    else None
  }

  /**
    `float(value.replace(',', '.')) if value and value.strip() != "NA" else None`,
    with a failed parse read as `None`.
  */
  function Coerce(value: Option<string>): Option<real> {
    match value
    case None => None
    case Some(s) =>
      if s == "" || Strip(s) == "NA" then None else ParseFloat(Replace(s, ",", "."))
  }

  /** A missing, empty or "NA" value becomes `NULL`. */
  lemma CoerceMissing(value: Option<string>)
    ensures value.None? ==> Coerce(value).None?
    ensures value == Some("") ==> Coerce(value).None?
    ensures value.Some? && Strip(value.value) == "NA" ==> Coerce(value).None?
  {
  }

  /**
    A number written with a decimal comma, optionally negative, is read as
    the number it denotes.
  */
  lemma CoerceDecimalComma(whole: string, frac: string)
    requires AllDigits(whole) && AllDigits(frac) && |whole| + |frac| > 0
    ensures Coerce(Some(whole + "," + frac)) == Some(NumeralValue(whole, frac))
    ensures Coerce(Some("-" + whole + "," + frac)) == Some(-NumeralValue(whole, frac))
  {
    CoercePositive(whole, frac);
    CoerceNegative(whole, frac);
  }

  /** A value that is neither empty nor "NA" is parsed after the comma is replaced. */
  lemma CoerceParses(s: string)
    requires s != "" && Strip(s) != "NA"
    ensures Coerce(Some(s)) == ParseFloat(Replace(s, ",", "."))
  {
  }

  /** A positive number with a decimal comma is read as its value. */
  lemma CoercePositive(whole: string, frac: string)
    requires AllDigits(whole) && AllDigits(frac) && |whole| + |frac| > 0
    ensures Coerce(Some(whole + "," + frac)) == Some(NumeralValue(whole, frac))
  {
    var s := whole + "," + frac;
    assert s[|whole|] == ',';
    assert !IsSpace(s[0]) && !IsSpace(s[|s| - 1]) by {
      assert |whole| > 0 ==> s[0] == whole[0];
      assert |frac| > 0 ==> s[|s| - 1] == frac[|frac| - 1];
    }
    NotNA(s);
    CoerceParses(s);
    CommaBecomesPoint(whole, frac);
    ParseFloatNumeral(whole, frac);
  }

  /** A negative number with a decimal comma is read as its value. */
  lemma CoerceNegative(whole: string, frac: string)
    requires AllDigits(whole) && AllDigits(frac) && |whole| + |frac| > 0
    ensures Coerce(Some("-" + whole + "," + frac)) == Some(-NumeralValue(whole, frac))
  {
    var n := "-" + whole + "," + frac;
    assert n[1 + |whole|] == ',';
    assert !IsSpace(n[|n| - 1]) by {
      assert |frac| > 0 ==> n[|n| - 1] == frac[|frac| - 1];
      assert |frac| == 0 && |whole| > 0 ==> n[|n| - 2] == whole[|whole| - 1];
    }
    NotNA(n);
    CoerceParses(n);
    CommaBecomesPoint(whole, frac);
    ParseFloatNegative(whole, frac);
  }

  /** `replace(',', '.')` turns the decimal comma into a point and leaves the digits alone. */
  lemma CommaBecomesPoint(whole: string, frac: string)
    requires AllDigits(whole) && AllDigits(frac)
    ensures Replace(whole + "," + frac, ",", ".") == whole + "." + frac
    ensures Replace("-" + whole + "," + frac, ",", ".") == "-" + whole + "." + frac
  {
    assert ',' !in whole && ',' !in frac && ',' !in "-" by {
      assert forall k | 0 <= k < |whole| :: IsDigit(whole[k]);
      assert forall k | 0 <= k < |frac| :: IsDigit(frac[k]);
    }
    ReplaceCharConcat(whole + ",", frac, ',', ".");
    ReplaceCharConcat(whole, ",", ',', ".");
    ReplaceCharConcat("-" + whole + ",", frac, ',', ".");
    ReplaceCharConcat("-" + whole, ",", ',', ".");
    ReplaceCharConcat("-", whole, ',', ".");
    ReplaceCharAbsent(whole, ',', ".");
    ReplaceCharAbsent(frac, ',', ".");
    ReplaceCharAbsent("-", ',', ".");
    assert Replace(",", ",", ".") == ".";
  }

  /** A string with a comma and no surrounding whitespace is neither empty nor "NA" once stripped. */
  lemma NotNA(s: string)
    requires ',' in s && !IsSpace(s[0]) && !IsSpace(s[|s| - 1])
    ensures s != "" && Strip(s) != "NA"
  {
    StripUnchanged(s);
  }

  /** The digits of "12,5" and the number they denote. */
  lemma TwelveAndAHalf()
    ensures AllDigits("12") && AllDigits("5") && NumeralValue("12", "5") == 12.5
  {
    assert Pow10(1) == 10 by {
      assert Pow10(0) == 1;
    }
    assert |"5"| == 1;
    assert DigitsValue("12") == 12 by {
      assert "12"[..1] == "1";
      assert "1"[..0] == "";
    }
    assert DigitsValue("5") == 5 by {
      assert "5"[..0] == "";
    }
    assert 12 as real + 5 as real / 10 as real == 12.5;
  }

  /** "12,5" is stored as 12.5. */
  lemma ExampleDecimalComma()
    ensures Coerce(Some("12,5")) == Some(12.5)
  {
    TwelveAndAHalf();
    CoerceDecimalComma("12", "5");
    assert "12" + "," + "5" == "12,5";
  }

  // ---- energy: the one nutrient the map lists under units ----

  /** Only the three energy keys of the map have "n" as their second character. */
  lemma EnergyKeys(k: string)
    requires k in NutrientColumnMap && |k| > 1 && k[1] == 'n'
    ensures k == "Energia (kJ)" || k == "Energia (kcal)" || k == "Energia"
  {
  }

  /** A key built from a component and a unit gives the unit back. */
  lemma KeyUnit(component: string, u: string, w: string)
    requires component + " (" + u + ")" == component + " (" + w + ")"
    ensures u == w
  {
    var a := component + " (" + u + ")";
    var b := component + " (" + w + ")";
    assert |u| == |w|;
    assert u == a[|component| + 2..|component| + 2 + |u|];
    assert w == b[|component| + 2..|component| + 2 + |w|];
  }

  /** The three entries of the map for energy. */
  lemma EnergyEntries()
    ensures "Energia (kJ)" in NutrientColumnMap && "Energia (kcal)" in NutrientColumnMap
    ensures "Energia" in NutrientColumnMap
    ensures NutrientColumnMap["Energia (kJ)"] == "energia_kj"
    ensures NutrientColumnMap["Energia (kcal)"] == "energia_kcal"
    ensures NutrientColumnMap["Energia"] == "energia_kj"
  {
  }

  /** Under any unit other than "kJ" and "kcal" there is no energy entry. */
  lemma EnergyOtherUnit(u: string)
    requires u != "" && u != "kJ" && u != "kcal"
    ensures NutrientKey("Energia", Some(u)) !in NutrientColumnMap
  {
    var key := NutrientKey("Energia", Some(u));
    assert key == "Energia" + " (" + u + ")";
    assert key[1] == 'n' by {
      assert key[..9] == "Energia (";
    }
    if key in NutrientColumnMap {
      EnergyKeys(key);
      assert |key| > |"Energia"|;
      if key == "Energia (kJ)" {
        assert "Energia (kJ)" == "Energia" + " (" + "kJ" + ")";
        KeyUnit("Energia", u, "kJ");
      } else {
        assert "Energia (kcal)" == "Energia" + " (" + "kcal" + ")";
        KeyUnit("Energia", u, "kcal");
      }
    }
  }

  /**
    "Energia" goes to `energia_kcal` under the unit "kcal" and to
    `energia_kj` under "kJ", no unit, or any other unit.
  */
  lemma EnergyColumn(unit: Option<string>)
    ensures ColumnFor("Energia", unit) == Some(if unit == Some("kcal") then "energia_kcal" else "energia_kj")
  {
    EnergyEntries();
    if HasUnit(unit) {
      var u := unit.value;
      if u == "kJ" {
        assert NutrientKey("Energia", unit) == "Energia (kJ)";
      } else if u == "kcal" {
        assert NutrientKey("Energia", unit) == "Energia (kcal)";
      } else {
        EnergyOtherUnit(u);
      }
    }
  }

  /**
    The unit only matters for a component the map lists under some unit:
    otherwise the bare component decides.
  */
  lemma UnitIgnoredWithoutEntry(component: string, unit: Option<string>)
    requires forall k | k in NutrientColumnMap :: !IsPrefix(component + " (", k)
    ensures ColumnFor(component, unit) == ColumnFor(component, None)
  {
    if HasUnit(unit) {
      var key := NutrientKey(component, unit);
      assert IsPrefix(component + " (", key) by {
        assert key[..|component| + 2] == component + " (";
      }
    }
  }

  // ---- `nutrient_values`: a dictionary that keeps insertion order ----

  /** One entry of `nutrient_values`. */
  datatype Entry = Entry(column: string, value: Option<real>)

  /** `list(nutrient_values.keys())`. */
  function Columns(m: seq<Entry>): (cols: seq<string>)
    ensures |cols| == |m| && forall k | 0 <= k < |m| :: cols[k] == m[k].column
  {
    seq(|m|, k requires 0 <= k < |m| => m[k].column)
  }

  predicate DistinctColumns(m: seq<Entry>) {
    forall i, j | 0 <= i < j < |m| :: m[i].column != m[j].column
  }

  /** The key list of the dictionary repeats no column exactly when its entries have distinct columns. */
  lemma ColumnsDistinct(m: seq<Entry>)
    ensures DistinctColumns(m) <==> forall i, j | 0 <= i < j < |Columns(m)| :: Columns(m)[i] != Columns(m)[j]
  {
    var cols := Columns(m);
    assert forall k | 0 <= k < |m| :: cols[k] == m[k].column;
  }

  /** `nutrient_values.get(column)`, `None` (the outer one) when absent. */
  function Get(m: seq<Entry>, column: string): (r: Option<Option<real>>)
    ensures r.None? <==> forall k | 0 <= k < |m| :: m[k].column != column
    ensures r.Some? ==> exists k | 0 <= k < |m| :: m[k] == Entry(column, r.value)
  {
    if |m| == 0 then None
    else if m[0].column == column then Some(m[0].value)
    else
      var r := Get(m[1..], column);
      assert forall k | 1 <= k < |m| :: m[k] == m[1..][k - 1];
      r
  }

  /** `nutrient_values[column] = value`. */
  function Put(m: seq<Entry>, column: string, value: Option<real>): seq<Entry>
    decreases |m|
  {
    if |m| == 0 then [Entry(column, value)]
    else if m[0].column == column then [Entry(column, value)] + m[1..]
    else [m[0]] + Put(m[1..], column, value)
  }

  /** Assigning to a new column appends it at the end. */
  lemma {:induction false} PutAbsent(m: seq<Entry>, column: string, value: Option<real>)
    requires Get(m, column).None?
    ensures Put(m, column, value) == m + [Entry(column, value)]
    decreases |m|
  {
    if |m| > 0 {
      assert Get(m[1..], column).None?;
      PutAbsent(m[1..], column, value);
    }
  }

  /** `r` is `m` with the value of `column` replaced, every position kept. */
  predicate Overwrites(r: seq<Entry>, m: seq<Entry>, column: string, value: Option<real>) {
    |r| == |m| && forall k | 0 <= k < |m| ::
      r[k] == if m[k].column == column then Entry(column, value) else m[k]
  }

  /** Assigning to a present column overwrites its value in place. */
  lemma {:induction false} PutPresent(m: seq<Entry>, column: string, value: Option<real>)
    requires DistinctColumns(m) && Get(m, column).Some?
    ensures Overwrites(Put(m, column, value), m, column, value)
    decreases |m|
  {
    if m[0].column != column {
      var t := m[1..];
      assert DistinctColumns(t) by {
        assert forall k | 0 <= k < |t| :: t[k] == m[k + 1];
      }
      assert Get(t, column).Some?;
      PutPresent(t, column, value);
      OverwritesCons(m, column, value);
    } else {
      OverwritesHead(m, column, value);
    }
  }

  /** The step of `PutPresent` past an entry for another column. */
  lemma OverwritesCons(m: seq<Entry>, column: string, value: Option<real>)
    requires |m| > 0 && m[0].column != column
    requires Overwrites(Put(m[1..], column, value), m[1..], column, value)
    ensures Overwrites(Put(m, column, value), m, column, value)
  {
    var r := Put(m, column, value);
    var rt := Put(m[1..], column, value);
    assert r == [m[0]] + rt;
    forall k | 1 <= k < |m| ensures r[k] == if m[k].column == column then Entry(column, value) else m[k] {
      assert r[k] == rt[k - 1] && m[k] == m[1..][k - 1];
    }
  }

  /** The case of `PutPresent` where the first entry is the column's. */
  lemma OverwritesHead(m: seq<Entry>, column: string, value: Option<real>)
    requires DistinctColumns(m) && |m| > 0 && m[0].column == column
    ensures Overwrites(Put(m, column, value), m, column, value)
  {
    var r := Put(m, column, value);
    assert r == [Entry(column, value)] + m[1..];
    forall k | 1 <= k < |m| ensures r[k] == m[k] && m[k].column != column {
      assert m[0].column != m[k].column;
      assert r[k] == m[1..][k - 1];
    }
  }

  /** After the assignment the column holds the value and every other column keeps its own. */
  lemma {:induction false} PutGet(m: seq<Entry>, column: string, value: Option<real>, c: string)
    ensures Get(Put(m, column, value), c) == if c == column then Some(value) else Get(m, c)
    decreases |m|
  {
    if |m| > 0 && m[0].column != column {
      PutGet(m[1..], column, value, c);
      assert Put(m, column, value)[1..] == Put(m[1..], column, value);
    } else if |m| > 0 {
      assert Put(m, column, value)[1..] == m[1..];
    }
  }

  /** The assignment never makes a column appear twice. */
  lemma PutDistinct(m: seq<Entry>, column: string, value: Option<real>)
    requires DistinctColumns(m)
    ensures DistinctColumns(Put(m, column, value))
  {
    if Get(m, column).None? {
      PutAbsent(m, column, value);
    } else {
      PutPresent(m, column, value);
    }
  }

  /** One row of the loop: a mapped row sets its column to its coerced value. */
  function Absorb(m: seq<Entry>, row: FoodNutrientRow): seq<Entry> {
    match ColumnFor(row.component, row.unit)
    case None => m
    case Some(column) => Put(m, column, Coerce(row.value))
  }

  /** `nutrient_values` after the loop over a variation's rows. */
  function ValueMap(rows: seq<FoodNutrientRow>): seq<Entry>
    decreases |rows|
  {
    if |rows| == 0 then [] else Absorb(ValueMap(rows[..|rows| - 1]), rows[|rows| - 1])
  }

  /** The column a row maps to, if any. */
  function RowColumn(row: FoodNutrientRow): Option<string> {
    ColumnFor(row.component, row.unit)
  }

  /**
    The value the last row mapping to `column` carries, found by reading the
    rows from the end; `None` when no row maps to it.
  */
  function LastValue(rows: seq<FoodNutrientRow>, column: string): (r: Option<Option<real>>)
    ensures r.None? <==> forall k | 0 <= k < |rows| :: RowColumn(rows[k]) != Some(column)
    decreases |rows|
  {
    if |rows| == 0 then None
    else if RowColumn(rows[|rows| - 1]) == Some(column) then Some(Coerce(rows[|rows| - 1].value))
    else
      var r := LastValue(rows[..|rows| - 1], column);
      assert forall k | 0 <= k < |rows| - 1 :: rows[k] == rows[..|rows| - 1][k];
      r
  }

  /**
    Last write wins: a column of `nutrient_values` holds the coerced value of
    the last row that maps to it, and no column appears twice.  A column no
    row maps to is absent, so unmapped components add nothing.
  */
  lemma {:induction false} LastWriteWins(rows: seq<FoodNutrientRow>)
    ensures DistinctColumns(ValueMap(rows))
    ensures forall c :: Get(ValueMap(rows), c) == LastValue(rows, c)
    decreases |rows|
  {
    if |rows| > 0 {
      var init := rows[..|rows| - 1];
      var row := rows[|rows| - 1];
      LastWriteWins(init);
      match RowColumn(row)
      case None =>
      case Some(column) =>
        PutDistinct(ValueMap(init), column, Coerce(row.value));
        forall c ensures Get(ValueMap(rows), c) == LastValue(rows, c) {
          PutGet(ValueMap(init), column, Coerce(row.value), c);
        }
    }
  }

  /** A row whose component maps to no column leaves `nutrient_values` as it was. */
  lemma UnmappedRowIgnored(rows: seq<FoodNutrientRow>, row: FoodNutrientRow)
    requires RowColumn(row).None?
    ensures ValueMap(rows + [row]) == ValueMap(rows)
  {
    assert (rows + [row])[..|rows|] == rows;
  }

  /** `nutrient_values` is empty exactly when no row maps to a column. */
  lemma ValueMapEmpty(rows: seq<FoodNutrientRow>)
    ensures |ValueMap(rows)| == 0 <==> forall k | 0 <= k < |rows| :: RowColumn(rows[k]).None?
  {
    LastWriteWins(rows);
    var m := ValueMap(rows);
    if |m| > 0 {
      assert Get(m, m[0].column).Some?;
    }
    forall k | 0 <= k < |rows| && RowColumn(rows[k]).Some? ensures |m| > 0 {
      var column := RowColumn(rows[k]).value;
      assert LastValue(rows, column).Some?;
      assert Get(m, column).Some?;
    }
  }

  /** The `for component, unit, value in nutrients_data` loop. */
  method BuildValues(nutrientsData: seq<FoodNutrientRow>) returns (nutrientValues: seq<Entry>)
    ensures nutrientValues == ValueMap(nutrientsData)
  {
    nutrientValues := [];
    for i := 0 to |nutrientsData|
      invariant nutrientValues == ValueMap(nutrientsData[..i])
    {
      var row := nutrientsData[i];
      var columnName := ColumnFor(row.component, row.unit);
      if columnName.Some? {
        var numericValue := Coerce(row.value);
        nutrientValues := Put(nutrientValues, columnName.value, numericValue);
      }
      assert nutrientsData[..i + 1][..i] == nutrientsData[..i];
    }
    assert nutrientsData[..|nutrientsData|] == nutrientsData;
  }

  // ---- the wide row ----

  /** A row of `food_variation_nutrients`. */
  datatype WideRow = WideRow(variationId: nat, entries: seq<Entry>)

  /** A parameter of the `INSERT`: the variation id, a number, or `NULL`. */
  datatype SqlValue = SqlInt(n: int) | SqlReal(x: real) | SqlNull

  function SqlOf(v: Option<real>): SqlValue {
    if v.Some? then SqlReal(v.value) else SqlNull
  }

  /** `columns = ['variation_id'] + list(nutrient_values.keys())`. */
  function InsertColumns(w: WideRow): seq<string> {
    [VariationIdColumn] + Columns(w.entries)
  }

  /** `values = [variation_id] + list(nutrient_values.values())`. */
  function InsertValues(w: WideRow): seq<SqlValue> {
    [SqlInt(w.variationId)] + seq(|w.entries|, k requires 0 <= k < |w.entries| => SqlOf(w.entries[k].value))
  }

  /**
    The `INSERT` names as many columns as it passes values, starting with
    `variation_id` and its id, and pairs every other column with its value.
  */
  lemma InsertShape(w: WideRow)
    ensures |InsertColumns(w)| == |InsertValues(w)| == |w.entries| + 1
    ensures InsertColumns(w)[0] == VariationIdColumn && InsertValues(w)[0] == SqlInt(w.variationId)
    ensures forall k | 0 <= k < |w.entries| ::
      InsertColumns(w)[k + 1] == w.entries[k].column && InsertValues(w)[k + 1] == SqlOf(w.entries[k].value)
  {
  }

  // ---- the migration loop ----

  /** `SELECT component, unit_of_measurement, value_per_100g FROM food_nutrients WHERE variation_id = %s`. */
  function RowsOf(table: seq<FoodNutrientRow>, variationId: nat): (rows: seq<FoodNutrientRow>)
    ensures |rows| <= |table|
    ensures forall k | 0 <= k < |rows| :: rows[k].variationId == variationId
    ensures |rows| == 0 <==> forall k | 0 <= k < |table| :: table[k].variationId != variationId
    decreases |table|
  {
    if |table| == 0 then []
    else
      var last := table[|table| - 1];
      var r := RowsOf(table[..|table| - 1], variationId);
      assert forall k | 0 <= k < |table| - 1 :: table[k] == table[..|table| - 1][k];
      r + (if last.variationId == variationId then [last] else [])
  }

  /** The query selects every row of the variation and nothing else. */
  lemma {:induction false} RowsOfMembers(table: seq<FoodNutrientRow>, variationId: nat)
    ensures forall x :: x in RowsOf(table, variationId) <==> x in table && x.variationId == variationId
    decreases |table|
  {
    if |table| > 0 {
      var init := table[..|table| - 1];
      assert table == init + [table[|table| - 1]];
      RowsOfMembers(init, variationId);
    }
  }

  /** The rows come in table order: the rows of two runs of the table are concatenated. */
  lemma {:induction false} RowsOfAppend(a: seq<FoodNutrientRow>, b: seq<FoodNutrientRow>, variationId: nat)
    ensures RowsOf(a + b, variationId) == RowsOf(a, variationId) + RowsOf(b, variationId)
    decreases |b|
  {
    if |b| == 0 {
      assert a + b == a;
    } else {
      var b' := b[..|b| - 1];
      assert (a + b)[..|a + b| - 1] == a + b';
      RowsOfAppend(a, b', variationId);
    }
  }

  /** `SELECT id FROM food_variation_nutrients WHERE variation_id = %s` finds a row. */
  predicate HasWideRow(wide: seq<WideRow>, variationId: nat) {
    exists k | 0 <= k < |wide| :: wide[k].variationId == variationId
  }

  /** The wide table after one variation. */
  function MigrateOne(wide: seq<WideRow>, variationId: nat, table: seq<FoodNutrientRow>): seq<WideRow> {
    var nutrientsData := RowsOf(table, variationId);
    if |nutrientsData| == 0 then wide
    else
      var values := ValueMap(nutrientsData);
      if |values| == 0 || HasWideRow(wide, variationId) then wide
      else wide + [WideRow(variationId, values)]
  }

  /** The wide table after the variations `ids`, in order. */
  function Migrated(wide: seq<WideRow>, ids: seq<nat>, table: seq<FoodNutrientRow>): seq<WideRow>
    decreases |ids|
  {
    if |ids| == 0 then wide else MigrateOne(Migrated(wide, ids[..|ids| - 1], table), ids[|ids| - 1], table)
  }

  /** The (non-empty) values a variation gets, when it gets a wide row. */
  predicate Migrates(table: seq<FoodNutrientRow>, variationId: nat) {
    |ValueMap(RowsOf(table, variationId))| > 0
  }

  /**
    The migration only appends: the rows that were there stay, and each new
    row is a variation of `ids` that had none, with the value map of its
    `food_nutrients` rows, which is not empty.
  */
  lemma {:induction false} MigratedAppends(wide: seq<WideRow>, ids: seq<nat>, table: seq<FoodNutrientRow>)
    ensures var r := Migrated(wide, ids, table);
      && |r| >= |wide| && r[..|wide|] == wide
      && forall k | |wide| <= k < |r| ::
           && r[k].variationId in ids
           && !HasWideRow(wide, r[k].variationId)
           && Migrates(table, r[k].variationId)
           && r[k].entries == ValueMap(RowsOf(table, r[k].variationId))
    decreases |ids|
  {
    if |ids| > 0 {
      var init := ids[..|ids| - 1];
      MigratedAppends(wide, init, table);
      var m := Migrated(wide, init, table);
      var id := ids[|ids| - 1];
      assert forall x | x in init :: x in ids;
      if MigrateOne(m, id, table) != m {
        var r := m + [WideRow(id, ValueMap(RowsOf(table, id)))];
        assert r[..|m|] == m;
        assert forall k | 0 <= k < |wide| :: m[k] == wide[k];
      }
    }
  }

  /** After the migration every variation of `ids` with mapped rows has a wide row. */
  lemma {:induction false} MigratedCovers(wide: seq<WideRow>, ids: seq<nat>, table: seq<FoodNutrientRow>)
    ensures forall id | id in ids && Migrates(table, id) :: HasWideRow(Migrated(wide, ids, table), id)
    decreases |ids|
  {
    if |ids| > 0 {
      var init := ids[..|ids| - 1];
      MigratedCovers(wide, init, table);
      var m := Migrated(wide, init, table);
      var last := ids[|ids| - 1];
      var r := MigrateOne(m, last, table);
      assert r[..|m|] == m;
      forall id | id in ids && Migrates(table, id) ensures HasWideRow(r, id) {
        if id in init {
          var k :| 0 <= k < |m| && m[k].variationId == id;
          assert r[k] == m[k];
        } else {
          assert id == last;
          if !HasWideRow(m, id) {
            assert r[|m|].variationId == id;
          }
        }
      }
    }
  }

  /** A migration with nothing left to insert leaves the wide table alone. */
  lemma {:induction false} MigratedNothingLeft(wide: seq<WideRow>, ids: seq<nat>, table: seq<FoodNutrientRow>)
    requires forall id | id in ids && Migrates(table, id) :: HasWideRow(wide, id)
    ensures Migrated(wide, ids, table) == wide
    decreases |ids|
  {
    if |ids| > 0 {
      var init := ids[..|ids| - 1];
      assert forall x | x in init :: x in ids;
      MigratedNothingLeft(wide, init, table);
    }
  }

  /** Running the migration a second time inserts nothing. */
  lemma MigrateIdempotent(wide: seq<WideRow>, ids: seq<nat>, table: seq<FoodNutrientRow>)
    ensures Migrated(Migrated(wide, ids, table), ids, table) == Migrated(wide, ids, table)
  {
    MigratedCovers(wide, ids, table);
    MigratedNothingLeft(Migrated(wide, ids, table), ids, table);
  }

  /** No variation has two wide rows. */
  predicate UniqueVariations(wide: seq<WideRow>) {
    forall i, j | 0 <= i < j < |wide| :: wide[i].variationId != wide[j].variationId
  }

  /** The migration never gives a variation a second wide row. */
  lemma {:induction false} MigratedUnique(wide: seq<WideRow>, ids: seq<nat>, table: seq<FoodNutrientRow>)
    requires UniqueVariations(wide)
    ensures UniqueVariations(Migrated(wide, ids, table))
    decreases |ids|
  {
    if |ids| > 0 {
      var init := ids[..|ids| - 1];
      MigratedUnique(wide, init, table);
      var m := Migrated(wide, init, table);
      var id := ids[|ids| - 1];
      var r := MigrateOne(m, id, table);
      if r != m {
        assert forall i | 0 <= i < |m| :: m[i].variationId != id;
        assert forall i | 0 <= i < |m| :: r[i] == m[i];
      }
    }
  }

  /** A variation with no rows, or none that map to a column, gets no wide row. */
  lemma UnmappedVariationSkipped(wide: seq<WideRow>, ids: seq<nat>, table: seq<FoodNutrientRow>, id: nat)
    requires !Migrates(table, id)
    ensures HasWideRow(Migrated(wide, ids, table), id) <==> HasWideRow(wide, id)
  {
    MigratedAppends(wide, ids, table);
    var r := Migrated(wide, ids, table);
    assert forall k | |wide| <= k < |r| :: r[k].variationId != id;
    assert forall k | 0 <= k < |wide| :: r[k] == wide[k];
  }

  /** One more variation id: the migration of the prefix, then one step. */
  lemma MigratedStep(wide: seq<WideRow>, ids: seq<nat>, i: nat, table: seq<FoodNutrientRow>)
    requires i < |ids|
    ensures Migrated(wide, ids[..i + 1], table) == MigrateOne(Migrated(wide, ids[..i], table), ids[i], table)
  {
    assert ids[..i + 1][..i] == ids[..i];
  }

  /** The database `migrate_data` reads and writes. */
  class MigrationDb {
    /** `SELECT id FROM food_variations`. */
    var foodVariations: seq<nat>
    var foodNutrients: seq<FoodNutrientRow>
    var wideRows: seq<WideRow>

    constructor(variations: seq<nat>, nutrients: seq<FoodNutrientRow>, wide: seq<WideRow>)
      ensures foodVariations == variations && foodNutrients == nutrients && wideRows == wide
    {
      foodVariations := variations;
      foodNutrients := nutrients;
      wideRows := wide;
    }

    /** `migrate_data()`: `count` is the number of wide rows it inserted. */
    method Migrate() returns (count: nat)
      modifies this
      ensures wideRows == Migrated(old(wideRows), foodVariations, foodNutrients)
      ensures count == |wideRows| - |old(wideRows)|
      ensures foodVariations == old(foodVariations) && foodNutrients == old(foodNutrients)
    {
      var variationIds := foodVariations;
      var table := foodNutrients;
      count := 0;
      for i := 0 to |variationIds|
        invariant foodVariations == old(foodVariations) && foodNutrients == table
        invariant wideRows == Migrated(old(wideRows), variationIds[..i], table)
        invariant |wideRows| == |old(wideRows)| + count
      {
        var variationId := variationIds[i];
        MigratedStep(old(wideRows), variationIds, i, table);
        var nutrientsData := RowsOf(table, variationId);
        if |nutrientsData| == 0 {
          continue;
        }
        var nutrientValues := BuildValues(nutrientsData);
        if |nutrientValues| > 0 && !HasWideRow(wideRows, variationId) {
          wideRows := wideRows + [WideRow(variationId, nutrientValues)];
          count := count + 1;
        }
      }
      assert variationIds[..|variationIds|] == variationIds;
    }
  }
}
