/**
  `TBCAProcessor.salvar_banco` over in-memory tables.  The three tables the
  writer touches are sequences of rows in insertion order; the `SERIAL`
  identifiers of `alimentos` and `variacoes_alimentos` are counters the store
  hands out.  The food counter is drawn by every `INSERT INTO alimentos`, also
  one that `ON CONFLICT DO NOTHING` then discards, so food ids can have gaps.
  `Saved` is the effect of one call, `FoodStore.SaveRecord` the
  imperative writer proved to have that effect.
*/
module Store {
  import opened Wrappers
  import opened Text
  import opened Description
  import opened Extraction

  /** A row of `alimentos`. */
  datatype FoodRow = FoodRow(id: nat, codigo: string, classe: string, principal: string)
  /** A row of `variacoes_alimentos`. */
  datatype VariationRow = VariationRow(id: nat, alimentoId: nat, descricao: string)
  /** A row of `nutrientes_alimentos`. */
  datatype NutrientRow = NutrientRow(variacaoId: nat, componente: string, unidadeMedida: string, valorPor100g: string)

  /** The tables and the next value of each identifier sequence. */
  datatype Tables = Tables(
    alimentos: seq<FoodRow>, variacoes: seq<VariationRow>, nutrientes: seq<NutrientRow>,
    nextFoodId: nat, nextVariationId: nat)

  /** The `alimento_json` dictionary handed to the writer. */
  datatype FoodRecord = FoodRecord(codigo: string, classe: string, descricao: string, nutrientes: seq<Nutriente>)

  /** The empty database: both identifier sequences start at 1. */
  const Empty: Tables := Tables([], [], [], 1, 1)

  /** `SELECT id FROM alimentos WHERE codigo = %s`: the id of a row with that code, if any. */
  function FindFood(alimentos: seq<FoodRow>, codigo: string): (r: Option<nat>)
    ensures r.None? <==> forall k | 0 <= k < |alimentos| :: alimentos[k].codigo != codigo
    ensures r.Some? ==> exists k | 0 <= k < |alimentos| ::
      alimentos[k].codigo == codigo && alimentos[k].id == r.value
  {
    if |alimentos| == 0 then None
    else if alimentos[0].codigo == codigo then Some(alimentos[0].id)
    else
      var r := FindFood(alimentos[1..], codigo);
      assert forall k | 1 <= k < |alimentos| :: alimentos[k] == alimentos[1..][k - 1];
      r
  }

  predicate IsFoodId(alimentos: seq<FoodRow>, id: nat) {
    exists k | 0 <= k < |alimentos| :: alimentos[k].id == id
  }

  predicate IsVariationId(variacoes: seq<VariationRow>, id: nat) {
    exists k | 0 <= k < |variacoes| :: variacoes[k].id == id
  }

  /** `codigo` is unique in `alimentos`; ids grow with insertion order and stay below the next id. */
  predicate FoodsValid(t: Tables) {
    && (forall i, j | 0 <= i < j < |t.alimentos| ::
          t.alimentos[i].id < t.alimentos[j].id && t.alimentos[i].codigo != t.alimentos[j].codigo)
    && (forall i | 0 <= i < |t.alimentos| :: t.alimentos[i].id < t.nextFoodId)
  }

  /** Variation ids grow with insertion order and stay below the next id; each variation has its food. */
  predicate VariationsValid(t: Tables) {
    && (forall i, j | 0 <= i < j < |t.variacoes| :: t.variacoes[i].id < t.variacoes[j].id)
    && (forall i | 0 <= i < |t.variacoes| ::
          t.variacoes[i].id < t.nextVariationId && IsFoodId(t.alimentos, t.variacoes[i].alimentoId))
  }

  /** Every nutrient row belongs to a variation. */
  predicate NutrientsLinked(t: Tables) {
    forall i | 0 <= i < |t.nutrientes| :: IsVariationId(t.variacoes, t.nutrientes[i].variacaoId)
  }

  /** The database invariant. */
  predicate Valid(t: Tables) {
    FoodsValid(t) && VariationsValid(t) && NutrientsLinked(t)
  }

  /** `nutriente.get(key, '')`. */
  function Field(nutriente: Nutriente, key: string): string {
    if key in nutriente then nutriente[key] else ""
  }

  /** The `nutrientes_alimentos` row of one nutrient of a variation. */
  function NutrientRowOf(variacaoId: nat, nutriente: Nutriente): NutrientRow {
    NutrientRow(variacaoId, Field(nutriente, ComponentKey), Field(nutriente, UnitKey), Field(nutriente, ValueKey))
  }

  /** The rows inserted for a variation's nutrients, one per nutrient, in order. */
  function NutrientRows(variacaoId: nat, nutrientes: seq<Nutriente>): (rows: seq<NutrientRow>)
    ensures |rows| == |nutrientes|
    ensures forall k | 0 <= k < |rows| :: rows[k] == NutrientRowOf(variacaoId, nutrientes[k])
  {
    seq(|nutrientes|, k requires 0 <= k < |nutrientes| => NutrientRowOf(variacaoId, nutrientes[k]))
  }

  /**
    The tables after `salvar_banco(cursor, r)`: the food row is inserted
    unless its code is present, one variation is appended for it, and one
    nutrient row per nutrient is appended for the variation.
  */
  function Saved(t: Tables, r: FoodRecord): Tables {
    var d := ProcessDescription(r.descricao);
    var found := FindFood(t.alimentos, r.codigo);
    var alimentos := if found.Some? then t.alimentos
      else t.alimentos + [FoodRow(t.nextFoodId, r.codigo, r.classe, d.principal)];
    var alimentoId := found.GetOr(t.nextFoodId);
    var variacaoId := t.nextVariationId;
    Tables(
      alimentos,
      t.variacoes + [VariationRow(variacaoId, alimentoId, d.observacoesLinha)],
      t.nutrientes + NutrientRows(variacaoId, r.nutrientes),
      t.nextFoodId + 1,
      variacaoId + 1)
  }

  /** The empty database is valid. */
  lemma EmptyValid()
    ensures Valid(Empty)
  {
  }

  /** Rows appended behind a food or a variation leave it where it was. */
  lemma IdsSurviveAppend(t: Tables, r: FoodRecord)
    ensures var u := Saved(t, r);
      && (forall id: nat :: IsFoodId(t.alimentos, id) ==> IsFoodId(u.alimentos, id))
      && (forall id: nat :: IsVariationId(t.variacoes, id) ==> IsVariationId(u.variacoes, id))
  {
    var u := Saved(t, r);
    assert u.alimentos[..|t.alimentos|] == t.alimentos;
    assert u.variacoes[..|t.variacoes|] == t.variacoes;
    forall id: nat | IsFoodId(t.alimentos, id) ensures IsFoodId(u.alimentos, id) {
      var k :| 0 <= k < |t.alimentos| && t.alimentos[k].id == id;
      assert u.alimentos[k] == t.alimentos[k];
    }
    forall id: nat | IsVariationId(t.variacoes, id) ensures IsVariationId(u.variacoes, id) {
      var k :| 0 <= k < |t.variacoes| && t.variacoes[k].id == id;
      assert u.variacoes[k] == t.variacoes[k];
    }
  }

  /**
    After the call exactly one `alimentos` row holds the record's code, and
    the new variation belongs to it.
  */
  lemma SavedFoodRow(t: Tables, r: FoodRecord)
    requires Valid(t)
    ensures var u := Saved(t, r); var v := u.variacoes[|u.variacoes| - 1];
      exists k | 0 <= k < |u.alimentos| ::
        && u.alimentos[k].codigo == r.codigo
        && u.alimentos[k].id == v.alimentoId
        && forall j | 0 <= j < |u.alimentos| && u.alimentos[j].codigo == r.codigo :: j == k
  {
    var u := Saved(t, r);
    var n := |t.alimentos|;
    match FindFood(t.alimentos, r.codigo)
    case Some(id) =>
      var k :| 0 <= k < n && t.alimentos[k].codigo == r.codigo && t.alimentos[k].id == id;
      assert u.alimentos[k].id == u.variacoes[|u.variacoes| - 1].alimentoId;
    case None =>
      assert u.alimentos[n].codigo == r.codigo;
  }

  lemma SavedFoodsValid(t: Tables, r: FoodRecord)
    requires FoodsValid(t)
    ensures FoodsValid(Saved(t, r))
  {
    var u := Saved(t, r);
    if FindFood(t.alimentos, r.codigo).None? {
      AppendFoodValid(t, u, FoodRow(t.nextFoodId, r.codigo, r.classe, ProcessDescription(r.descricao).principal));
    }
  }

  /** A row with a fresh code and the next id keeps `alimentos` valid. */
  lemma AppendFoodValid(t: Tables, u: Tables, row: FoodRow)
    requires FoodsValid(t)
    requires forall k | 0 <= k < |t.alimentos| :: t.alimentos[k].codigo != row.codigo
    requires u.alimentos == t.alimentos + [row] && row.id == t.nextFoodId && u.nextFoodId == row.id + 1
    ensures FoodsValid(u)
  {
  }

  /** A variation with the next id, of a food already present, keeps `variacoes` valid. */
  lemma AppendVariationValid(t: Tables, u: Tables, v: VariationRow)
    requires VariationsValid(t)
    requires |t.alimentos| <= |u.alimentos| && u.alimentos[..|t.alimentos|] == t.alimentos
    requires IsFoodId(u.alimentos, v.alimentoId)
    requires u.variacoes == t.variacoes + [v] && v.id == t.nextVariationId && u.nextVariationId == v.id + 1
    ensures VariationsValid(u)
  {
    forall i | 0 <= i < |t.variacoes|
      ensures IsFoodId(u.alimentos, u.variacoes[i].alimentoId)
    {
      var k :| 0 <= k < |t.alimentos| && t.alimentos[k].id == t.variacoes[i].alimentoId;
      assert u.alimentos[k] == t.alimentos[k];
    }
  }

  lemma SavedVariationsValid(t: Tables, r: FoodRecord)
    requires Valid(t)
    ensures VariationsValid(Saved(t, r))
  {
    var u := Saved(t, r);
    SavedFoodRow(t, r);
    assert u.alimentos[..|t.alimentos|] == t.alimentos;
    AppendVariationValid(t, u, u.variacoes[|t.variacoes|]);
  }

  lemma SavedNutrientsLinked(t: Tables, r: FoodRecord)
    requires NutrientsLinked(t)
    ensures NutrientsLinked(Saved(t, r))
  {
    var u := Saved(t, r);
    IdsSurviveAppend(t, r);
    assert IsVariationId(u.variacoes, t.nextVariationId) by {
      assert u.variacoes[|t.variacoes|].id == t.nextVariationId;
    }
    forall i | 0 <= i < |u.nutrientes|
      ensures IsVariationId(u.variacoes, u.nutrientes[i].variacaoId)
    {
      if i < |t.nutrientes| {
        assert u.nutrientes[i] == t.nutrientes[i];
      }
    }
  }

  /** `salvar_banco` keeps the database invariant. */
  lemma SavedValid(t: Tables, r: FoodRecord)
    requires Valid(t)
    ensures Valid(Saved(t, r))
  {
    SavedFoodsValid(t, r);
    SavedVariationsValid(t, r);
    SavedNutrientsLinked(t, r);
  }

  /**
    First seen wins: a code already present leaves `alimentos` as it was
    (its `classe` and `principal` unchanged); a new code appends one row and
    every earlier row stays in place.
  */
  lemma SavedFirstSeenWins(t: Tables, r: FoodRecord)
    ensures var a := Saved(t, r).alimentos;
      && (FindFood(t.alimentos, r.codigo).Some? ==> a == t.alimentos)
      && (FindFood(t.alimentos, r.codigo).None? ==>
            && |a| == |t.alimentos| + 1
            && a[..|t.alimentos|] == t.alimentos
            && a[|t.alimentos|].codigo == r.codigo
            && a[|t.alimentos|].classe == r.classe
            && a[|t.alimentos|].principal == ProcessDescription(r.descricao).principal)
  {
  }

  /**
    Exactly one variation is appended, never merged with an earlier one,
    with a fresh id and the observations line as its description.
  */
  lemma SavedVariation(t: Tables, r: FoodRecord)
    requires Valid(t)
    ensures var u := Saved(t, r);
      && |u.variacoes| == |t.variacoes| + 1
      && u.variacoes[..|t.variacoes|] == t.variacoes
      && u.variacoes[|t.variacoes|].descricao == ProcessDescription(r.descricao).observacoesLinha
      && forall k | 0 <= k < |t.variacoes| :: t.variacoes[k].id < u.variacoes[|t.variacoes|].id
  {
  }

  /**
    Exactly one nutrient row per nutrient is appended, in order, each
    carrying the new variation's id and the nutrient's three fields, with
    `""` for a missing one.
  */
  lemma SavedNutrients(t: Tables, r: FoodRecord)
    ensures var u := Saved(t, r); var n := |t.nutrientes|;
      && |u.nutrientes| == n + |r.nutrientes|
      && u.nutrientes[..n] == t.nutrientes
      && forall k | 0 <= k < |r.nutrientes| ::
           && u.nutrientes[n + k].variacaoId == u.variacoes[|u.variacoes| - 1].id
           && u.nutrientes[n + k].componente == Field(r.nutrientes[k], ComponentKey)
           && u.nutrientes[n + k].unidadeMedida == Field(r.nutrientes[k], UnitKey)
           && u.nutrientes[n + k].valorPor100g == Field(r.nutrientes[k], ValueKey)
  {
  }

  /** A nutrient taken from a detail page is stored with its own three texts. */
  lemma FieldOfRowEntry(variacaoId: nat, cells: seq<string>)
    requires |cells| >= 3
    ensures NutrientRowOf(variacaoId, RowEntry(cells)).componente == Strip(cells[0])
    ensures NutrientRowOf(variacaoId, RowEntry(cells)).unidadeMedida == Strip(cells[1])
    ensures NutrientRowOf(variacaoId, RowEntry(cells)).valorPor100g == Strip(cells[2])
  {
  }

  /**
    Saving two records with the same code leaves one food row for it, the
    one from the first record, and two variations.
  */
  lemma SameCodeTwice(t: Tables, r1: FoodRecord, r2: FoodRecord)
    requires Valid(t) && FindFood(t.alimentos, r1.codigo).None? && r2.codigo == r1.codigo
    ensures var u := Saved(Saved(t, r1), r2);
      && |u.alimentos| == |t.alimentos| + 1
      && u.alimentos[|t.alimentos|].classe == r1.classe
      && u.alimentos[|t.alimentos|].principal == ProcessDescription(r1.descricao).principal
      && |u.variacoes| == |t.variacoes| + 2
      && u.variacoes[|t.variacoes|].alimentoId == u.variacoes[|t.variacoes| + 1].alimentoId
  {
    var m := Saved(t, r1);
    assert m.alimentos[|t.alimentos|].codigo == r2.codigo;
    SavedValid(t, r1);
    var k :| 0 <= k < |m.alimentos| && m.alimentos[k].codigo == r2.codigo
      && m.alimentos[k].id == FindFood(m.alimentos, r2.codigo).value;
    assert k == |t.alimentos|;
  }

  /** The database the writer works on. */
  class FoodStore {
    var alimentos: seq<FoodRow>
    var variacoes: seq<VariationRow>
    var nutrientes: seq<NutrientRow>
    var nextFoodId: nat
    var nextVariationId: nat

    function State(): Tables
      reads this
    {
      Tables(alimentos, variacoes, nutrientes, nextFoodId, nextVariationId)
    }

    constructor()
      ensures State() == Empty
    {
      alimentos := [];
      variacoes := [];
      nutrientes := [];
      nextFoodId := 1;
      nextVariationId := 1;
    }

    /** `SELECT id FROM alimentos WHERE codigo = %s`, scanning the table. */
    method SelectFoodId(codigo: string) returns (id: Option<nat>)
      ensures id == FindFood(alimentos, codigo)
    {
      var k := 0;
      while k < |alimentos| && alimentos[k].codigo != codigo
        invariant 0 <= k <= |alimentos|
        invariant FindFood(alimentos, codigo) == FindFood(alimentos[k..], codigo)
      {
        assert alimentos[k..][1..] == alimentos[k + 1..];
        k := k + 1;
      }
      id := if k < |alimentos| then Some(alimentos[k].id) else None;
    }

    /**
      `INSERT INTO alimentos ... ON CONFLICT (codigo) DO NOTHING RETURNING id`,
      falling back to `SELECT id` when the code is already present; the
      `SERIAL` default is drawn in both cases.
    */
    method InsertFood(codigo: string, classe: string, principal: string) returns (alimentoId: nat)
      modifies this
      ensures var found := FindFood(old(alimentos), codigo);
        && alimentoId == found.GetOr(old(nextFoodId))
        && alimentos == (if found.Some? then old(alimentos)
             else old(alimentos) + [FoodRow(old(nextFoodId), codigo, classe, principal)])
        && nextFoodId == old(nextFoodId) + 1
      ensures variacoes == old(variacoes) && nutrientes == old(nutrientes)
      ensures nextVariationId == old(nextVariationId)
    {
      var existing := SelectFoodId(codigo);
      var drawn := nextFoodId;
      nextFoodId := nextFoodId + 1;
      if existing.None? {
        alimentoId := drawn;
        alimentos := alimentos + [FoodRow(alimentoId, codigo, classe, principal)];
      } else {
        alimentoId := existing.value;
      }
    }

    /** `INSERT INTO variacoes_alimentos (alimento_id, descricao) ... RETURNING id`. */
    method InsertVariation(alimentoId: nat, descricao: string) returns (variacaoId: nat)
      modifies this
      ensures variacaoId == old(nextVariationId)
      ensures variacoes == old(variacoes) + [VariationRow(variacaoId, alimentoId, descricao)]
      ensures nextVariationId == variacaoId + 1
      ensures alimentos == old(alimentos) && nutrientes == old(nutrientes)
      ensures nextFoodId == old(nextFoodId)
    {
      variacaoId := nextVariationId;
      variacoes := variacoes + [VariationRow(variacaoId, alimentoId, descricao)];
      nextVariationId := nextVariationId + 1;
    }

    /** `for nutriente in alimento_json['nutrientes']`: one `nutrientes_alimentos` insert each. */
    method InsertNutrients(variacaoId: nat, items: seq<Nutriente>)
      modifies this
      ensures nutrientes == old(nutrientes) + NutrientRows(variacaoId, items)
      ensures alimentos == old(alimentos) && variacoes == old(variacoes)
      ensures nextFoodId == old(nextFoodId) && nextVariationId == old(nextVariationId)
    {
      var i := 0;
      while i < |items|
        invariant 0 <= i <= |items|
        invariant nutrientes == old(nutrientes) + NutrientRows(variacaoId, items[..i])
        invariant alimentos == old(alimentos) && variacoes == old(variacoes)
        invariant nextFoodId == old(nextFoodId) && nextVariationId == old(nextVariationId)
      {
        nutrientes := nutrientes + [NutrientRowOf(variacaoId, items[i])];
        assert NutrientRows(variacaoId, items[..i + 1])
          == NutrientRows(variacaoId, items[..i]) + [NutrientRowOf(variacaoId, items[i])];
        i := i + 1;
      }
      assert items[..i] == items;
    }

    /** `salvar_banco(cursor, alimento_json)`. */
    method SaveRecord(r: FoodRecord)
      modifies this
      ensures State() == Saved(old(State()), r)
    {
      var d := ProcessDescription(r.descricao);
      var alimentoId := InsertFood(r.codigo, r.classe, d.principal);
      var variacaoId := InsertVariation(alimentoId, d.observacoesLinha);
      InsertNutrients(variacaoId, r.nutrientes);
    }
  }
}
