/**
  What the crawler reads off a page, with the HTML replaced by plain data:
  a listing page is the sequence of its anchors' `href` values, a detail page
  is the text of its first `h2`, `h1` and `title` elements (when present) and
  its first table as rows of cell texts.
*/
module Extraction {
  import opened Wrappers
  import opened Text

  /** The marker a listing anchor's `href` must hold to be a food link. */
  const LinkMarker: string := "codigo_alimento"
  /** The query parameter whose value is the food code. */
  const CodeKey: string := "codigo_alimento="
  /** The class recorded for every listed food. */
  const UnspecifiedClass: string := "Não especificada"
  /** The description used when a detail page has no heading or title. */
  const MissingDescription: string := "Descrição não encontrada"

  /** One entry of `cod_alimentos`: a food code and its class. */
  datatype Listed = Listed(codigo: string, classe: string)

  /** `href.split('codigo_alimento=')[1].split('&')[0]`, for an `href` holding the key. */
  function FoodCode(href: string): string
    requires Contains(href, CodeKey)
  {
    SplitMany(href, CodeKey);
    Split(Split(href, CodeKey)[1], "&")[0]
  }

  /**
    The food code is the text that follows the first "codigo_alimento=" and
    runs up to the first "&", the next "codigo_alimento=" or the end of the
    `href`; it never contains "&".
  */
  lemma FoodCodeShape(href: string)
    requires Contains(href, CodeKey)
    ensures |Split(href, CodeKey)| > 1
    ensures var p := Split(href, CodeKey)[0];
      && |p| + |CodeKey| <= |href| && IsPrefix(CodeKey, href[|p|..])
      && (forall i | 0 <= i < |p| :: !IsPrefix(CodeKey, href[i..]))
      && PieceAt(href, |p| + |CodeKey|, FoodCode(href), CodeKey, '&')
  {
    SplitMany(href, CodeKey);
    SplitFirst(href, CodeKey);
    var parts := Split(href, CodeKey);
    SecondPieceBeforeChar(href, CodeKey, '&', |parts[0]| + |CodeKey|, parts[1]);
  }

  /** The link filter of the listing page: an `href` holding "codigo_alimento". */
  predicate IsFoodLink(href: string) {
    Contains(href, LinkMarker)
  }

  /**
    The listing page's food links, in page order: exactly the `href`s that
    hold "codigo_alimento".
  */
  function FoodLinks(hrefs: seq<string>): (links: seq<string>)
    ensures |links| <= |hrefs|
    ensures forall k | 0 <= k < |links| :: IsFoodLink(links[k])
  {
    if |hrefs| == 0 then []
    else
      var rest := FoodLinks(hrefs[..|hrefs| - 1]);
      var h := hrefs[|hrefs| - 1];
      if IsFoodLink(h) then rest + [h] else rest
  }

  /** The filter keeps an `href` exactly when it holds "codigo_alimento". */
  lemma {:induction false} FoodLinksMembers(hrefs: seq<string>)
    ensures forall h :: h in FoodLinks(hrefs) <==> h in hrefs && IsFoodLink(h)
    decreases |hrefs|
  {
    if |hrefs| > 0 {
      var init := hrefs[..|hrefs| - 1];
      assert hrefs == init + [hrefs[|hrefs| - 1]];
      FoodLinksMembers(init);
    }
  }

  /** The filter keeps page order: the links of two runs of `href`s are concatenated. */
  lemma {:induction false} FoodLinksAppend(a: seq<string>, b: seq<string>)
    ensures FoodLinks(a + b) == FoodLinks(a) + FoodLinks(b)
    decreases |b|
  {
    if |b| == 0 {
      assert a + b == a;
    } else {
      var b' := b[..|b| - 1];
      assert (a + b)[..|a + b| - 1] == a + b';
      FoodLinksAppend(a, b');
    }
  }

  /** A page has food links exactly when one of its `href`s holds "codigo_alimento". */
  lemma FoodLinksNonEmpty(hrefs: seq<string>)
    ensures |FoodLinks(hrefs)| > 0 <==> exists k | 0 <= k < |hrefs| :: IsFoodLink(hrefs[k])
  {
    var links := FoodLinks(hrefs);
    FoodLinksMembers(hrefs);
    if |links| > 0 {
      assert links[0] in links;
    }
    if exists k | 0 <= k < |hrefs| :: IsFoodLink(hrefs[k]) {
      var k :| 0 <= k < |hrefs| && IsFoodLink(hrefs[k]);
      assert hrefs[k] in links;
    }
  }

  /** The pairs one food link adds to `cod_alimentos`. */
  function LinkCodes(href: string): seq<Listed> {
    if Contains(href, CodeKey) then [Listed(FoodCode(href), UnspecifiedClass)] else []
  }

  /** The pairs a page's links add to `cod_alimentos`, in link order. */
  function PageCodes(links: seq<string>): seq<Listed> {
    if |links| == 0 then []
    else PageCodes(links[..|links| - 1]) + LinkCodes(links[|links| - 1])
  }

  /** Codes are taken link by link: the codes of two runs of links are concatenated. */
  lemma {:induction false} PageCodesAppend(a: seq<string>, b: seq<string>)
    ensures PageCodes(a + b) == PageCodes(a) + PageCodes(b)
    decreases |b|
  {
    if |b| == 0 {
      assert a + b == a;
    } else {
      var b' := b[..|b| - 1];
      assert (a + b)[..|a + b| - 1] == a + b';
      PageCodesAppend(a, b');
    }
  }

  /** The positions of the links that hold "codigo_alimento=". */
  function KeyPositions(links: seq<string>): set<int> {
    set k | 0 <= k < |links| && Contains(links[k], CodeKey)
  }

  /** One more link adds its position exactly when it holds the key. */
  lemma KeyPositionsStep(links: seq<string>)
    requires |links| > 0
    ensures |KeyPositions(links)| == |KeyPositions(links[..|links| - 1])|
      + (if Contains(links[|links| - 1], CodeKey) then 1 else 0)
  {
    var n := |links| - 1;
    var s := KeyPositions(links[..n]);
    if Contains(links[n], CodeKey) {
      assert KeyPositions(links) == s + {n};
    } else {
      assert KeyPositions(links) == s;
    }
  }

  /** There is exactly one pair per `href` that holds "codigo_alimento=". */
  lemma {:induction false} PageCodesCount(links: seq<string>)
    ensures |PageCodes(links)| == |KeyPositions(links)|
    decreases |links|
  {
    if |links| > 0 {
      PageCodesCount(links[..|links| - 1]);
      KeyPositionsStep(links);
    }
  }

  /** Every pair is a code without "&" and the class "Não especificada". */
  lemma {:induction false} PageCodesShape(links: seq<string>)
    ensures forall k | 0 <= k < |PageCodes(links)| ::
      '&' !in PageCodes(links)[k].codigo && PageCodes(links)[k].classe == UnspecifiedClass
    decreases |links|
  {
    if |links| > 0 {
      var last := links[|links| - 1];
      PageCodesShape(links[..|links| - 1]);
      if Contains(last, CodeKey) {
        assert '&' !in FoodCode(last) by { FoodCodeShape(last); }
      }
    }
  }

  /** "codigo_alimento=" contains "codigo_alimento", so the link filter never drops a code. */
  lemma {:induction false} PageCodesOfFoodLinks(hrefs: seq<string>)
    ensures PageCodes(FoodLinks(hrefs)) == PageCodes(hrefs)
    decreases |hrefs|
  {
    if |hrefs| > 0 {
      var init := hrefs[..|hrefs| - 1];
      var h := hrefs[|hrefs| - 1];
      PageCodesOfFoodLinks(init);
      if IsFoodLink(h) {
        PageCodesAppend(FoodLinks(init), [h]);
      } else {
        assert IsPrefix(LinkMarker, CodeKey);
        ContainsPrefixOf(h, LinkMarker, CodeKey);
      }
    }
  }

  /** A nutrient as the crawler records it: a dictionary from column label to text. */
  type Nutriente = map<string, string>

  const ComponentKey: string := "Componente"
  const UnitKey: string := "Unidades"
  const ValueKey: string := "Valor por 100g"

  /** The entry of one table row: its first three cells, stripped. */
  function RowEntry(cells: seq<string>): Nutriente
    requires |cells| >= 3
  {
    map[ComponentKey := Strip(cells[0]), UnitKey := Strip(cells[1]), ValueKey := Strip(cells[2])]
  }

  /** The entries of a run of data rows: rows with fewer than three cells are skipped. */
  function SelectRows(rows: seq<seq<string>>): seq<Nutriente> {
    if |rows| == 0 then []
    else
      var last := rows[|rows| - 1];
      SelectRows(rows[..|rows| - 1]) + (if |last| >= 3 then [RowEntry(last)] else [])
  }

  /** The nutrients of a detail page's first table: every row after the first is a data row. */
  function TableNutrients(table: Option<seq<seq<string>>>): seq<Nutriente> {
    match table
    case None => []
    case Some(rows) => if |rows| == 0 then [] else SelectRows(rows[1..])
  }

  /** Rows are selected one by one: two runs of rows give their entries concatenated. */
  lemma {:induction false} SelectRowsAppend(a: seq<seq<string>>, b: seq<seq<string>>)
    ensures SelectRows(a + b) == SelectRows(a) + SelectRows(b)
    decreases |b|
  {
    if |b| == 0 {
      assert a + b == a;
    } else {
      var b' := b[..|b| - 1];
      assert (a + b)[..|a + b| - 1] == a + b';
      SelectRowsAppend(a, b');
    }
  }

  /** A row with fewer than three cells is skipped and the rows after it are still read. */
  lemma ShortRowSkipped(before: seq<seq<string>>, row: seq<string>, after: seq<seq<string>>)
    requires |row| < 3
    ensures SelectRows(before + [row] + after) == SelectRows(before) + SelectRows(after)
  {
    SelectRowsAppend(before + [row], after);
    SelectRowsAppend(before, [row]);
  }

  /**
    Every entry has exactly the three labels, each bound to a stripped cell,
    and there are never more entries than rows.
  */
  lemma {:induction false} SelectRowsShape(rows: seq<seq<string>>)
    ensures var es := SelectRows(rows);
      && |es| <= |rows|
      && forall k | 0 <= k < |es| ::
           && es[k].Keys == {ComponentKey, UnitKey, ValueKey}
           && es[k][ComponentKey] == Strip(es[k][ComponentKey])
           && es[k][UnitKey] == Strip(es[k][UnitKey])
           && es[k][ValueKey] == Strip(es[k][ValueKey])
    decreases |rows|
  {
    if |rows| > 0 {
      SelectRowsShape(rows[..|rows| - 1]);
      var last := rows[|rows| - 1];
      if |last| >= 3 {
        StripIdempotent(last[0]);
        StripIdempotent(last[1]);
        StripIdempotent(last[2]);
      }
    }
  }

  /**
    The header row never contributes: a page's nutrients do not depend on
    its first row, and there are at most as many as the rows after it.
  */
  lemma HeaderIgnored(header: seq<string>, other: seq<string>, rows: seq<seq<string>>)
    ensures TableNutrients(Some([header] + rows)) == TableNutrients(Some([other] + rows))
    ensures |TableNutrients(Some([header] + rows))| <= |rows|
  {
    assert ([header] + rows)[1..] == rows;
    assert ([other] + rows)[1..] == rows;
    SelectRowsShape(rows);
  }

  /** The first value present in a chain of fallbacks. */
  function FirstPresent(chain: seq<Option<string>>): (r: Option<string>)
    ensures r.Some? <==> exists k | 0 <= k < |chain| :: chain[k].Some?
    ensures r.Some? ==> exists k | 0 <= k < |chain| ::
      chain[k] == r && forall j | 0 <= j < k :: chain[j].None?
  {
    if |chain| == 0 then None
    else if chain[0].Some? then chain[0]
    else
      var r := FirstPresent(chain[1..]);
      assert forall k | 1 <= k < |chain| :: chain[k] == chain[1..][k - 1];
      r
  }

  /** The chain is read front to back. */
  lemma FirstPresentCons(x: Option<string>, rest: seq<Option<string>>)
    ensures FirstPresent([x] + rest) == if x.Some? then x else FirstPresent(rest)
  {
    assert ([x] + rest)[1..] == rest;
  }

  /** A detail page, with its HTML reduced to what the crawler reads. */
  datatype DetailPage = DetailPage(
    h2: Option<string>, h1: Option<string>, title: Option<string>,
    table: Option<seq<seq<string>>>)

  /**
    The description of a detail page: the stripped text of the first of
    `h2`, `h1`, `title` that the page has, else "Descrição não encontrada".
  */
  function PageDescription(page: DetailPage): (d: string)
    ensures match FirstPresent([page.h2, page.h1, page.title])
      case Some(text) => d == Strip(text)
      case None => d == MissingDescription
  {
    assert FirstPresent([page.h2, page.h1, page.title])
      == if page.h2.Some? then page.h2 else if page.h1.Some? then page.h1 else page.title by {
      FirstPresentCons(page.h2, [page.h1, page.title]);
      FirstPresentCons(page.h1, [page.title]);
      FirstPresentCons(page.title, []);
      assert [page.h2] + [page.h1, page.title] == [page.h2, page.h1, page.title];
      assert [page.h1] + [page.title] == [page.h1, page.title];
      assert [page.title] + [] == [page.title];
    }
    if page.h2.Some? then Strip(page.h2.value)
    else if page.h1.Some? then Strip(page.h1.value)
    else if page.title.Some? then Strip(page.title.value)
    else MissingDescription
  }

  /** An `h2`, even an empty one, hides the `h1` and the title. */
  lemma HeadingPrecedence(page: DetailPage)
    requires page.h2.Some?
    ensures PageDescription(page) == PageDescription(page.(h1 := None, title := None))
  {
  }

  /** `for linha in linhas`: the nutrient rows of the first table, built up row by row. */
  method ExtractNutrients(table: Option<seq<seq<string>>>) returns (nutrientes: seq<Nutriente>)
    ensures nutrientes == TableNutrients(table)
  {
    nutrientes := [];
    if table.Some? && |table.value| > 0 {
      var linhas := table.value[1..];
      for i := 0 to |linhas|
        invariant nutrientes == SelectRows(linhas[..i])
      {
        var colunas := linhas[i];
        if |colunas| >= 3 {
          nutrientes := nutrientes + [RowEntry(colunas)];
        }
        assert linhas[..i + 1][..i] == linhas[..i];
      }
      assert linhas[..|linhas|] == linhas;
    }
  }
}
