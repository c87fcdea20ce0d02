/**
  `fazer_webscraping`: the listing loop that collects food codes page by
  page, and the detail loop that turns each code into a record, appends it
  to the output file and hands it to the writer, committing every ten
  records and once at the end.  The network is replaced by the responses
  the site gives: listing page `n` is `site[n - 1]` (pages past the end are
  empty), and the detail page of the i-th code is `details[i]`.
*/
module Crawl {
  import opened Wrappers
  import opened Text
  import opened Description
  import opened Extraction
  import opened Store

  /** The answer to `requests.get(url_base, params={'pagina': n})`. */
  datatype ListingResponse = ListingFailed | ListingPage(hrefs: seq<string>)

  /** The answer to the request for one food's detail page. */
  datatype DetailResponse = DetailFailed | DetailFetched(page: DetailPage)

  /**
    The listing page with number `n` (numbers start at 1).  The site is
    finite: past its last page every number is answered with a page with no
    links, which ends the listing loop.
  */
  function PageAt(site: seq<ListingResponse>, n: nat): ListingResponse {
    if 1 <= n <= |site| then site[n - 1] else ListingPage([])
  }

  /** The loop goes on after a page that was fetched and has food links. */
  predicate Continues(r: ListingResponse) {
    r.ListingPage? && |FoodLinks(r.hrefs)| > 0
  }

  /**
    The stop test of the listing loop: it goes on exactly when the page was
    fetched and one of its `href`s holds "codigo_alimento".
  */
  lemma ContinuesIff(r: ListingResponse)
    ensures Continues(r) <==> r.ListingPage? && exists k | 0 <= k < |r.hrefs| :: IsFoodLink(r.hrefs[k])
  {
    if r.ListingPage? {
      FoodLinksNonEmpty(r.hrefs);
    }
  }

  /** What the listing loop leaves behind: `cod_alimentos` and `parametros['pagina']`. */
  datatype Listing = Listing(codes: seq<Listed>, pagina: nat)

  /**
    The listing loop started at page `n`: it stops at the first page that
    failed or has no food link, without counting it, and collects the codes
    of every page before it.
  */
  function ListFrom(site: seq<ListingResponse>, n: nat): (r: Listing)
    ensures r.pagina >= n && !Continues(PageAt(site, r.pagina))
    ensures forall m | n <= m < r.pagina :: Continues(PageAt(site, m))
    decreases |site| + 1 - n
  {
    var page := PageAt(site, n);
    if !Continues(page) then Listing([], n)
    else
      var rest := ListFrom(site, n + 1);
      Listing(PageCodes(FoodLinks(page.hrefs)) + rest.codes, rest.pagina)
  }

  /** The page counter starts at 1. */
  function ListAll(site: seq<ListingResponse>): Listing {
    ListFrom(site, 1)
  }

  /**
    The counter rises by exactly one per page with links: it ends one past
    the number of pages read, and the codes are those pages' codes in order.
  */
  lemma {:induction false} ListFromPages(site: seq<ListingResponse>, n: nat, k: nat)
    requires forall m | n <= m < n + k :: Continues(PageAt(site, m))
    requires !Continues(PageAt(site, n + k))
    ensures ListFrom(site, n).pagina == n + k
    ensures ListFrom(site, n).codes == PagesCodes(site, n, k)
    decreases k
  {
    if k > 0 {
      var page := PageAt(site, n);
      assert Continues(page);
      ListFromPages(site, n + 1, k - 1);
      assert ListFrom(site, n).codes == PageCodes(FoodLinks(page.hrefs)) + ListFrom(site, n + 1).codes;
    }
  }

  /** The codes of the `k` pages from page `n`, page after page. */
  function PagesCodes(site: seq<ListingResponse>, n: nat, k: nat): seq<Listed>
    decreases k
  {
    if k == 0 then []
    else
      var page := PageAt(site, n);
      (if page.ListingPage? then PageCodes(FoodLinks(page.hrefs)) else []) + PagesCodes(site, n + 1, k - 1)
  }

  /** `for link in links_alimentos`: the pairs one listing page adds, link by link. */
  method CollectPage(links: seq<string>) returns (found: seq<Listed>)
    ensures found == PageCodes(links)
  {
    found := [];
    for i := 0 to |links|
      invariant found == PageCodes(links[..i])
    {
      var href := links[i];
      if Contains(href, CodeKey) {
        found := found + [Listed(FoodCode(href), UnspecifiedClass)];
      }
      assert links[..i + 1][..i] == links[..i];
    }
    assert links[..|links|] == links;
  }

  /** The `while True` listing loop of `fazer_webscraping`. */
  method CollectCodes(site: seq<ListingResponse>) returns (codAlimentos: seq<Listed>, pagina: nat)
    ensures Listing(codAlimentos, pagina) == ListAll(site)
  {
    codAlimentos := [];
    pagina := 1;
    while true
      invariant 1 <= pagina <= |site| + 1
      invariant ListAll(site) == Listing(codAlimentos + ListFrom(site, pagina).codes, ListFrom(site, pagina).pagina)
      decreases |site| + 1 - pagina
    {
      var response := PageAt(site, pagina);
      if response.ListingFailed? {
        break;
      }
      var links := FoodLinks(response.hrefs);
      if |links| == 0 {
        break;
      }
      var found := CollectPage(links);
      codAlimentos := codAlimentos + found;
      pagina := pagina + 1;
    }
  }

  /** `alimento_json` for a listed food and its fetched detail page. */
  function RecordOf(item: Listed, page: DetailPage): FoodRecord {
    FoodRecord(item.codigo, item.classe, PageDescription(page), TableNutrients(page.table))
  }

  /** The records of the foods whose detail page was fetched, in listing order. */
  function Records(items: seq<Listed>, details: seq<DetailResponse>): (rs: seq<FoodRecord>)
    requires |details| == |items|
    ensures |rs| <= |items|
    decreases |items|
  {
    if |items| == 0 then []
    else
      var n := |items| - 1;
      Records(items[..n], details[..n]) + (if details[n].DetailFetched? then [RecordOf(items[n], details[n].page)] else [])
  }

  /** The database after the writer has saved each record in turn. */
  function SaveAll(t: Tables, rs: seq<FoodRecord>): Tables
    decreases |rs|
  {
    if |rs| == 0 then t else Saved(SaveAll(t, rs[..|rs| - 1]), rs[|rs| - 1])
  }

  /** `if (i + 1) % 10 == 0: conn.commit()`: the counts at which a periodic commit happens. */
  function PeriodicCommits(details: seq<DetailResponse>): seq<nat>
    decreases |details|
  {
    if |details| == 0 then []
    else
      var n := |details|;
      PeriodicCommits(details[..n - 1]) + (if details[n - 1].DetailFetched? && n % 10 == 0 then [n] else [])
  }

  /** The commits of a run: none without the database, else the periodic ones and a final one. */
  function Commits(details: seq<DetailResponse>, salvarBanco: bool): seq<nat> {
    if salvarBanco then PeriodicCommits(details) + [|details|] else []
  }

  /**
    A periodic commit happens after record `k` exactly when `k` is a
    multiple of 10 and that record was saved; the counts only grow.
  */
  lemma {:induction false} PeriodicCommitsSpec(details: seq<DetailResponse>)
    ensures forall k :: k in PeriodicCommits(details) <==>
      1 <= k <= |details| && k % 10 == 0 && details[k - 1].DetailFetched?
    ensures forall a, b | 0 <= a < b < |PeriodicCommits(details)| ::
      PeriodicCommits(details)[a] < PeriodicCommits(details)[b]
    decreases |details|
  {
    if |details| > 0 {
      var n := |details|;
      var init := details[..n - 1];
      PeriodicCommitsSpec(init);
      assert forall j | 0 <= j < n - 1 :: details[j] == init[j];
      var p := PeriodicCommits(init);
      assert forall a | 0 <= a < |p| :: p[a] < n by {
        forall a | 0 <= a < |p| ensures p[a] < n {
          assert p[a] in p;
        }
      }
    }
  }

  /** A run of fewer than ten foods commits only once, at the end. */
  lemma ShortRunCommitsOnce(details: seq<DetailResponse>)
    requires |details| < 10
    ensures Commits(details, true) == [|details|]
  {
    PeriodicCommitsSpec(details);
    if |PeriodicCommits(details)| > 0 {
      assert PeriodicCommits(details)[0] in PeriodicCommits(details);
    }
  }

  /** A food whose detail page failed adds no record, and the loop goes on. */
  lemma FailedFoodSkipped(items: seq<Listed>, details: seq<DetailResponse>, item: Listed)
    requires |details| == |items|
    ensures Records(items + [item], details + [DetailFailed]) == Records(items, details)
  {
    assert (items + [item])[..|items|] == items;
    assert (details + [DetailFailed])[..|details|] == details;
  }

  /** Every saved record adds exactly one variation. */
  lemma {:induction false} SaveAllVariations(t: Tables, rs: seq<FoodRecord>)
    ensures |SaveAll(t, rs).variacoes| == |t.variacoes| + |rs|
    decreases |rs|
  {
    if |rs| > 0 {
      SaveAllVariations(t, rs[..|rs| - 1]);
    }
  }

  /** Saving any run of records keeps the database invariant. */
  lemma {:induction false} SaveAllValid(t: Tables, rs: seq<FoodRecord>)
    requires Valid(t)
    ensures Valid(SaveAll(t, rs))
    decreases |rs|
  {
    if |rs| > 0 {
      SaveAllValid(t, rs[..|rs| - 1]);
      SavedValid(SaveAll(t, rs[..|rs| - 1]), rs[|rs| - 1]);
    }
  }

  /** One more food adds its record exactly when its page was fetched. */
  lemma RecordsStep(items: seq<Listed>, details: seq<DetailResponse>, i: nat)
    requires |details| == |items| && i < |items|
    ensures Records(items[..i + 1], details[..i + 1]) == Records(items[..i], details[..i])
      + (if details[i].DetailFetched? then [RecordOf(items[i], details[i].page)] else [])
  {
    assert items[..i + 1][..i] == items[..i] && details[..i + 1][..i] == details[..i];
  }

  /** One more food commits exactly when it was saved as a tenth record. */
  lemma PeriodicCommitsStep(details: seq<DetailResponse>, i: nat)
    requires i < |details|
    ensures PeriodicCommits(details[..i + 1]) == PeriodicCommits(details[..i])
      + (if details[i].DetailFetched? && (i + 1) % 10 == 0 then [i + 1] else [])
  {
    assert details[..i + 1][..i] == details[..i];
  }

  /** Saving one more record is one more `Saved` step. */
  lemma SaveAllSnoc(t: Tables, rs: seq<FoodRecord>, r: FoodRecord)
    ensures SaveAll(t, rs + [r]) == Saved(SaveAll(t, rs), r)
  {
    assert (rs + [r])[..|rs|] == rs;
  }

  /** What the detail loop leaves behind. */
  datatype Run = Run(arquivo: seq<FoodRecord>, commits: seq<nat>)

  /**
    The detail loop of `fazer_webscraping`: each fetched record is appended
    to the file when `salvarArquivo` and saved when `salvarBanco`, with the
    periodic commits and one final commit.
  */
  method ProcessFoods(store: FoodStore, items: seq<Listed>, details: seq<DetailResponse>,
                      salvarArquivo: bool, salvarBanco: bool) returns (run: Run)
    requires |details| == |items|
    modifies store
    ensures run.arquivo == if salvarArquivo then Records(items, details) else []
    ensures run.commits == Commits(details, salvarBanco)
    ensures store.State() == if salvarBanco then SaveAll(old(store.State()), Records(items, details))
      else old(store.State())
  {
    ghost var t0 := store.State();
    ghost var recs: seq<FoodRecord> := [];
    var arquivo: seq<FoodRecord> := [];
    var commits: seq<nat> := [];
    for i := 0 to |items|
      invariant recs == Records(items[..i], details[..i])
      invariant salvarArquivo ==> arquivo == recs
      invariant !salvarArquivo ==> arquivo == []
      invariant salvarBanco ==> commits == PeriodicCommits(details[..i]) && store.State() == SaveAll(t0, recs)
      invariant !salvarBanco ==> commits == [] && store.State() == t0
    {
      RecordsStep(items, details, i);
      PeriodicCommitsStep(details, i);
      if details[i].DetailFetched? {
        var alimentoJson := RecordOf(items[i], details[i].page);
        SaveAllSnoc(t0, recs, alimentoJson);
        recs := recs + [alimentoJson];
        if salvarArquivo {
          arquivo := arquivo + [alimentoJson];
        }
        if salvarBanco {
          store.SaveRecord(alimentoJson);
          if (i + 1) % 10 == 0 {
            commits := commits + [i + 1];
          }
        }
      }
    }
    assert items[..|items|] == items && details[..|details|] == details;
    if salvarBanco {
      commits := commits + [|items|];
    }
    run := Run(arquivo, commits);
  }

  /** A listing page with one food link yields that link's code. */
  lemma OneLinkPage(href: string)
    requires Contains(href, CodeKey)
    ensures Continues(ListingPage([href]))
    ensures PageCodes(FoodLinks([href])) == [Listed(FoodCode(href), UnspecifiedClass)]
  {
    assert IsPrefix(LinkMarker, CodeKey);
    ContainsPrefixOf(href, LinkMarker, CodeKey);
    var none: seq<string> := [];
    assert [href][..0] == none;
    assert FoodLinks([href]) == [href];
  }

  /**
    Two listing pages with food links, then nothing: the crawl reads both,
    ends with the counter at 3, and lists the first page's codes before
    the second's.
  */
  lemma TwoPageListing(a: ListingResponse, b: ListingResponse)
    requires Continues(a) && Continues(b)
    ensures ListAll([a, b]) == Listing(PageCodes(FoodLinks(a.hrefs)) + PageCodes(FoodLinks(b.hrefs)), 3)
  {
    var site := [a, b];
    assert PageAt(site, 1) == a && PageAt(site, 2) == b;
    var none: seq<string> := [];
    assert PageAt(site, 3) == ListingPage(none);
    assert FoodLinks(none) == [];
    ListFromPages(site, 1, 2);
    assert PagesCodes(site, 3, 0) == [];
  }

  /** Two foods whose detail pages were both fetched give both records, in order. */
  lemma TwoFetchedRecords(items: seq<Listed>, p1: DetailPage, p2: DetailPage)
    requires |items| == 2
    ensures Records(items, [DetailFetched(p1), DetailFetched(p2)])
      == [RecordOf(items[0], p1), RecordOf(items[1], p2)]
  {
    var details := [DetailFetched(p1), DetailFetched(p2)];
    RecordsStep(items, details, 0);
    RecordsStep(items, details, 1);
    assert items[..2] == items && details[..2] == details;
  }

  /**
    Two records with different codes saved into the empty database: two
    food rows, with ids 1 and 2, and two variations, one for each food.
  */
  lemma TwoFoodSave(r1: FoodRecord, r2: FoodRecord)
    requires r1.codigo != r2.codigo
    ensures var t := SaveAll(Empty, [r1, r2]);
      && |t.alimentos| == 2 && |t.variacoes| == 2
      && t.alimentos[0].id == 1 && t.alimentos[0].codigo == r1.codigo
      && t.alimentos[1].id == 2 && t.alimentos[1].codigo == r2.codigo
      && t.variacoes[0].alimentoId == 1 && t.variacoes[1].alimentoId == 2
  {
    var t1 := Saved(Empty, r1);
    assert SaveAll(Empty, [r1, r2]) == Saved(t1, r2) by {
      SaveAllSnoc(Empty, [r1], r2);
      SaveAllSnoc(Empty, [], r1);
      assert [r1] + [r2] == [r1, r2];
    }
    NewFoodSaved(Empty, r1);
    SecondFoodSaved(t1, r1.codigo, r2);
  }

  /** A second record with another code, saved behind one food with id 1. */
  lemma SecondFoodSaved(t1: Tables, codigo: string, r2: FoodRecord)
    requires |t1.alimentos| == 1 && t1.alimentos[0].id == 1 && t1.alimentos[0].codigo == codigo
    requires |t1.variacoes| == 1 && t1.variacoes[0].alimentoId == 1 && t1.nextFoodId == 2
    requires codigo != r2.codigo
    ensures var t2 := Saved(t1, r2);
      && |t2.alimentos| == 2 && |t2.variacoes| == 2
      && t2.alimentos[0].id == 1 && t2.alimentos[0].codigo == codigo
      && t2.alimentos[1].id == 2 && t2.alimentos[1].codigo == r2.codigo
      && t2.variacoes[0].alimentoId == 1 && t2.variacoes[1].alimentoId == 2
  {
    assert FindFood(t1.alimentos, r2.codigo).None?;
    NewFoodSaved(t1, r2);
    var t2 := Saved(t1, r2);
    assert t2.alimentos[0] == t2.alimentos[..1][0] == t1.alimentos[0];
    assert t2.variacoes[0] == t2.variacoes[..1][0] == t1.variacoes[0];
  }

  /** Saving a record with a new code appends a food with the next id and a variation of it. */
  lemma NewFoodSaved(t: Tables, r: FoodRecord)
    requires FindFood(t.alimentos, r.codigo).None?
    ensures var u := Saved(t, r);
      && |u.alimentos| == |t.alimentos| + 1 && u.alimentos[..|t.alimentos|] == t.alimentos
      && u.alimentos[|t.alimentos|].id == t.nextFoodId && u.alimentos[|t.alimentos|].codigo == r.codigo
      && u.nextFoodId == t.nextFoodId + 1
      && |u.variacoes| == |t.variacoes| + 1 && u.variacoes[..|t.variacoes|] == t.variacoes
      && u.variacoes[|t.variacoes|].alimentoId == t.nextFoodId
  {
    var u := Saved(t, r);
    assert (t.alimentos + [u.alimentos[|t.alimentos|]])[..|t.alimentos|] == t.alimentos;
  }
}
