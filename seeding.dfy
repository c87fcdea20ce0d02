/**
  `populate_nutrients_table`: the reference table `nutrients` is seeded from
  a fixed catalog, each entry inserted only when no row has its name and
  unit already.
*/
module Seeding {

  /** An entry of the catalog and a row of `nutrients` (the `SERIAL` id is not modelled). */
  datatype NutrientRef = NutrientRef(name: string, unit: string, category: string)

  /** The catalog, in the order it is inserted. */
  const Catalog: seq<NutrientRef> := [
    NutrientRef("Energia", "kJ", "Energy"),
    NutrientRef("Energia", "kcal", "Energy"),
    NutrientRef("Umidade", "g", "Basic"),
    NutrientRef("Carboidrato total", "g", "Macronutrient"),
    NutrientRef("Carboidrato disponível", "g", "Macronutrient"),
    NutrientRef("Proteína", "g", "Macronutrient"),
    NutrientRef("Lipídios", "g", "Macronutrient"),
    NutrientRef("Fibra alimentar", "g", "Macronutrient"),
    NutrientRef("Álcool", "g", "Other"),
    NutrientRef("Cinzas", "g", "Other"),
    NutrientRef("Colesterol", "mg", "Lipid"),
    NutrientRef("Ácidos graxos saturados", "g", "Lipid"),
    NutrientRef("Ácidos graxos monoinsaturados", "g", "Lipid"),
    NutrientRef("Ácidos graxos poliinsaturados", "g", "Lipid"),
    NutrientRef("Ácidos graxos trans", "g", "Lipid"),
    NutrientRef("Cálcio", "mg", "Mineral"),
    NutrientRef("Ferro", "mg", "Mineral"),
    NutrientRef("Sódio", "mg", "Mineral"),
    NutrientRef("Magnésio", "mg", "Mineral"),
    NutrientRef("Fósforo", "mg", "Mineral"),
    NutrientRef("Potássio", "mg", "Mineral"),
    NutrientRef("Manganês", "mg", "Mineral"),
    NutrientRef("Zinco", "mg", "Mineral"),
    NutrientRef("Cobre", "mg", "Mineral"),
    NutrientRef("Selênio", "mcg", "Mineral"),
    NutrientRef("Vitamina A (RE)", "mcg", "Vitamin"),
    NutrientRef("Vitamina A (RAE)", "mcg", "Vitamin"),
    NutrientRef("Vitamina D", "mcg", "Vitamin"),
    NutrientRef("Alfa-tocoferol (Vitamina E)", "mg", "Vitamin"),
    NutrientRef("Tiamina", "mg", "Vitamin"),
    NutrientRef("Riboflavina", "mg", "Vitamin"),
    NutrientRef("Niacina", "mg", "Vitamin"),
    NutrientRef("Vitamina B6", "mg", "Vitamin"),
    NutrientRef("Vitamina B12", "mcg", "Vitamin"),
    NutrientRef("Vitamina C", "mg", "Vitamin"),
    NutrientRef("Equivalente de folato", "mcg", "Vitamin"),
    NutrientRef("Sal de adição", "g", "Other"),
    NutrientRef("Açúcar de adição", "g", "Other")
  ]

  /** `SELECT id FROM nutrients WHERE name = %s AND unit_of_measurement = %s` finds a row. */
  predicate PairPresent(rows: seq<NutrientRef>, name: string, unit: string) {
    exists k | 0 <= k < |rows| :: rows[k].name == name && rows[k].unit == unit
  }

  /** One step of the loop: the entry is inserted when its pair is absent. */
  function SeedOne(rows: seq<NutrientRef>, entry: NutrientRef): seq<NutrientRef> {
    if PairPresent(rows, entry.name, entry.unit) then rows else rows + [entry]
  }

  /** The table after the loop over `entries`. */
  function Seeded(rows: seq<NutrientRef>, entries: seq<NutrientRef>): seq<NutrientRef>
    decreases |entries|
  {
    if |entries| == 0 then rows
    else SeedOne(Seeded(rows, entries[..|entries| - 1]), entries[|entries| - 1])
  }

  /** No two rows share a name and a unit. */
  predicate UniquePairs(rows: seq<NutrientRef>) {
    forall i, j | 0 <= i < j < |rows| :: rows[i].name != rows[j].name || rows[i].unit != rows[j].unit
  }

  /**
    Seeding only appends: the rows that were there are never modified, and
    each new row is a catalog entry whose pair was absent before.
  */
  lemma {:induction false} SeededAppends(rows: seq<NutrientRef>, entries: seq<NutrientRef>)
    ensures var r := Seeded(rows, entries);
      && |rows| <= |r| <= |rows| + |entries|
      && r[..|rows|] == rows
      && forall k | |rows| <= k < |r| :: r[k] in entries && !PairPresent(rows, r[k].name, r[k].unit)
    decreases |entries|
  {
    if |entries| > 0 {
      var init := entries[..|entries| - 1];
      SeededAppends(rows, init);
      var m := Seeded(rows, init);
      var e := entries[|entries| - 1];
      assert forall x | x in init :: x in entries;
      if !PairPresent(m, e.name, e.unit) {
        assert (m + [e])[..|m|] == m;
        assert forall k | 0 <= k < |rows| :: m[k] == rows[k];
      }
    }
  }

  /** After seeding, the pair of every entry is in the table. */
  lemma {:induction false} SeededCovers(rows: seq<NutrientRef>, entries: seq<NutrientRef>)
    ensures forall k | 0 <= k < |entries| ::
      PairPresent(Seeded(rows, entries), entries[k].name, entries[k].unit)
    decreases |entries|
  {
    if |entries| > 0 {
      var init := entries[..|entries| - 1];
      SeededCovers(rows, init);
      var m := Seeded(rows, init);
      var e := entries[|entries| - 1];
      var r := SeedOne(m, e);
      assert forall k | 0 <= k < |m| :: r[k] == m[k];
      forall k | 0 <= k < |entries| ensures PairPresent(r, entries[k].name, entries[k].unit) {
        if k < |init| {
          assert entries[k] == init[k];
        } else if !PairPresent(m, e.name, e.unit) {
          assert r[|m|] == e;
        }
      }
    }
  }

  /** Seeding when every pair is present changes nothing. */
  lemma {:induction false} SeededNothingLeft(rows: seq<NutrientRef>, entries: seq<NutrientRef>)
    requires forall k | 0 <= k < |entries| :: PairPresent(rows, entries[k].name, entries[k].unit)
    ensures Seeded(rows, entries) == rows
    decreases |entries|
  {
    if |entries| > 0 {
      var init := entries[..|entries| - 1];
      assert forall k | 0 <= k < |init| :: init[k] == entries[k];
      SeededNothingLeft(rows, init);
    }
  }

  /** Running the seeding twice leaves the table as one run does. */
  lemma SeedIdempotent(rows: seq<NutrientRef>, entries: seq<NutrientRef>)
    ensures Seeded(Seeded(rows, entries), entries) == Seeded(rows, entries)
  {
    SeededCovers(rows, entries);
    SeededNothingLeft(Seeded(rows, entries), entries);
  }

  /** Seeding never gives a name and unit a second row. */
  lemma {:induction false} SeededUnique(rows: seq<NutrientRef>, entries: seq<NutrientRef>)
    requires UniquePairs(rows)
    ensures UniquePairs(Seeded(rows, entries))
    decreases |entries|
  {
    if |entries| > 0 {
      var init := entries[..|entries| - 1];
      SeededUnique(rows, init);
      var m := Seeded(rows, init);
      var e := entries[|entries| - 1];
      if !PairPresent(m, e.name, e.unit) {
        var r := m + [e];
        assert forall i | 0 <= i < |m| :: r[i] == m[i];
      }
    }
  }

  /** The reference table. */
  class ReferenceDb {
    var nutrients: seq<NutrientRef>

    constructor(rows: seq<NutrientRef>)
      ensures nutrients == rows
    {
      nutrients := rows;
    }

    /** The existence check, scanning the table. */
    method SelectPair(name: string, unit: string) returns (found: bool)
      ensures found == PairPresent(nutrients, name, unit)
    {
      found := false;
      var k := 0;
      while k < |nutrients| && !found
        invariant 0 <= k <= |nutrients|
        invariant found <==> exists j | 0 <= j < k :: nutrients[j].name == name && nutrients[j].unit == unit
      {
        found := nutrients[k].name == name && nutrients[k].unit == unit;
        k := k + 1;
      }
    }

    /** `populate_nutrients_table()`. */
    method PopulateNutrientsTable()
      modifies this
      ensures nutrients == Seeded(old(nutrients), Catalog)
    {
      for i := 0 to |Catalog|
        invariant nutrients == Seeded(old(nutrients), Catalog[..i])
      {
        var nutrient := Catalog[i];
        var found := SelectPair(nutrient.name, nutrient.unit);
        if !found {
          nutrients := nutrients + [nutrient];
        }
        assert Catalog[..i + 1][..i] == Catalog[..i];
      }
      assert Catalog[..|Catalog|] == Catalog;
    }
  }
}
