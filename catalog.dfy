/**
 * The product page's display list: the effect that recomputes `produtosFiltrados`
 * whenever the product list, the category, the search text or the sort order changes.
 */
module Catalog {
  import opened Products
  import opened Seqs
  import opened Sorting

  /** The category filter: `prod.category === categoria`. */
  function InCategory(categoria: string): Product -> bool {
    (p: Product) => p.category == categoria
  }

  /** The search filter: `prod.title.toLowerCase().includes(textoPesquisa)`. */
  function MatchesSearch(textoPesquisa: string): Product -> bool {
    (p: Product) => Contains(LowerCase(p.title), textoPesquisa)
  }

  /**
   * The display list, step by step as the effect computes it: a copy of `produtos`,
   * narrowed to `categoria` unless it is "all", narrowed to the titles containing the
   * lower-cased search text unless that text is empty, then sorted by price.
   */
  function DisplayList(produtos: seq<Product>, categoria: string, pesquisa: string, ordem: string): seq<Product> {
    var porCategoria := if categoria != "all" then Filter(produtos, InCategory(categoria)) else produtos;
    var textoPesquisa := LowerCase(pesquisa);
    var encontrados := if textoPesquisa != "" then Filter(porCategoria, MatchesSearch(textoPesquisa)) else porCategoria;
    SortByPrice(ordem, encontrados)
  }

  /** Reference criterion: whether a product belongs on the page for this filter state. */
  predicate Shown(categoria: string, pesquisa: string, p: Product) {
    && (categoria == "all" || p.category == categoria)
    && (LowerCase(pesquisa) == "" || Contains(LowerCase(p.title), LowerCase(pesquisa)))
  }

  function ShownBy(categoria: string, pesquisa: string): Product -> bool {
    (p: Product) => Shown(categoria, pesquisa, p)
  }

  /**
   * The guard `if (textoPesquisa)` changes nothing: every title contains the empty
   * text, so the search criterion alone already admits every product when it is empty.
   */
  lemma SearchGuardRedundant(categoria: string, pesquisa: string, p: Product)
    ensures Shown(categoria, pesquisa, p)
        <==> (categoria == "all" || p.category == categoria) && MatchesSearch(LowerCase(pesquisa))(p)
  {
    ContainsEmpty(LowerCase(p.title));
  }

  /** The products a filter state selects, in catalog order. */
  function Selected(produtos: seq<Product>, categoria: string, pesquisa: string): seq<Product> {
    Filter(produtos, ShownBy(categoria, pesquisa))
  }

  /** The two successive filters select exactly the products the reference criterion admits. */
  lemma DisplayListSelects(produtos: seq<Product>, categoria: string, pesquisa: string, ordem: string)
    ensures DisplayList(produtos, categoria, pesquisa, ordem) == SortByPrice(ordem, Selected(produtos, categoria, pesquisa))
  {
    var texto := LowerCase(pesquisa);
    var shown := ShownBy(categoria, pesquisa);
    if categoria != "all" && texto != "" {
      assert forall p :: shown(p) == (InCategory(categoria)(p) && MatchesSearch(texto)(p));
      FilterFilter(produtos, InCategory(categoria), MatchesSearch(texto), shown);
    } else if categoria != "all" {
      assert forall p :: InCategory(categoria)(p) == shown(p);
      FilterExt(produtos, InCategory(categoria), shown);
    } else if texto != "" {
      assert forall p :: MatchesSearch(texto)(p) == shown(p);
      FilterExt(produtos, MatchesSearch(texto), shown);
    } else {
      assert forall p :: p in produtos ==> shown(p);
      FilterIdentity(produtos, shown);
    }
  }

  /**
   * The display list is a permutation of exactly the products that pass both filters:
   * each such product as often as in `produtos`, every other product not at all.
   */
  lemma DisplayListContents(produtos: seq<Product>, categoria: string, pesquisa: string, ordem: string)
    ensures var r := DisplayList(produtos, categoria, pesquisa, ordem);
      && (forall p :: multiset(r)[p] == if Shown(categoria, pesquisa, p) then multiset(produtos)[p] else 0)
      && (forall p :: p in r <==> p in produtos && Shown(categoria, pesquisa, p))
      && |r| <= |produtos|
  {
    var r := DisplayList(produtos, categoria, pesquisa, ordem);
    var sel := Selected(produtos, categoria, pesquisa);
    DisplayListSelects(produtos, categoria, pesquisa, ordem);
    SortPermutes(ordem, sel);
    forall p ensures multiset(r)[p] == if Shown(categoria, pesquisa, p) then multiset(produtos)[p] else 0 {
      FilterCount(produtos, ShownBy(categoria, pesquisa), p);
    }
    forall p ensures p in r <==> p in produtos && Shown(categoria, pesquisa, p) {
      assert p in r <==> multiset(r)[p] > 0;
    }
  }

  /**
   * What each filter promises on its own: with a category other than "all" only that
   * category is shown; with a non-empty search text only matching titles are shown;
   * with "all" and no search text every product is shown.
   */
  lemma DisplayListFilters(produtos: seq<Product>, categoria: string, pesquisa: string, ordem: string)
    ensures var r := DisplayList(produtos, categoria, pesquisa, ordem);
      && (categoria != "all" ==> forall p :: p in r ==> p.category == categoria)
      && (pesquisa != "" ==> forall p :: p in r ==> Contains(LowerCase(p.title), LowerCase(pesquisa)))
      && (categoria == "all" && pesquisa == "" ==> multiset(r) == multiset(produtos))
  {
    var r := DisplayList(produtos, categoria, pesquisa, ordem);
    DisplayListContents(produtos, categoria, pesquisa, ordem);
    LowerCaseEmpty(pesquisa);
    if categoria == "all" && pesquisa == "" {
      assert forall p :: Shown(categoria, pesquisa, p);
      assert forall p :: multiset(r)[p] == multiset(produtos)[p];
    }
  }

  /** The display list is ordered by price: ascending for "asc", descending for any other order. */
  lemma DisplayListSorted(produtos: seq<Product>, categoria: string, pesquisa: string, ordem: string)
    ensures var r := DisplayList(produtos, categoria, pesquisa, ordem);
      && (ordem == "asc" ==> forall i, j :: 0 <= i < j < |r| ==> r[i].price <= r[j].price)
      && (ordem != "asc" ==> forall i, j :: 0 <= i < j < |r| ==> r[i].price >= r[j].price)
  {
    DisplayListSelects(produtos, categoria, pesquisa, ordem);
    SortSorted(ordem, Selected(produtos, categoria, pesquisa));
  }

  /** Products of equal price appear in the order the catalog lists them (the sort is stable). */
  lemma DisplayListStable(produtos: seq<Product>, categoria: string, pesquisa: string, ordem: string, price: int)
    ensures WithPrice(DisplayList(produtos, categoria, pesquisa, ordem), price)
         == WithPrice(Selected(produtos, categoria, pesquisa), price)
  {
    DisplayListSelects(produtos, categoria, pesquisa, ordem);
    SortStable(ordem, Selected(produtos, categoria, pesquisa), price);
  }

  /**
   * Determinism: whatever stable sort the browser runs, a price-ordered list that
   * keeps each price's selected products in catalog order is the display list.
   */
  lemma DisplayListUnique(produtos: seq<Product>, categoria: string, pesquisa: string, ordem: string, r: seq<Product>)
    requires Sorted(ordem, r)
    requires forall price :: WithPrice(r, price) == WithPrice(Selected(produtos, categoria, pesquisa), price)
    ensures r == DisplayList(produtos, categoria, pesquisa, ordem)
  {
    StableSortIsSortByPrice(ordem, Selected(produtos, categoria, pesquisa), r);
    DisplayListSelects(produtos, categoria, pesquisa, ordem);
  }

  /** Deriving the display list again from an already derived list, with the same state, changes nothing. */
  lemma DisplayListIdempotent(produtos: seq<Product>, categoria: string, pesquisa: string, ordem: string)
    ensures var r := DisplayList(produtos, categoria, pesquisa, ordem);
      DisplayList(r, categoria, pesquisa, ordem) == r
  {
    var r := DisplayList(produtos, categoria, pesquisa, ordem);
    DisplayListContents(produtos, categoria, pesquisa, ordem);
    DisplayListSelects(r, categoria, pesquisa, ordem);
    assert forall p :: p in r ==> ShownBy(categoria, pesquisa)(p);
    FilterIdentity(r, ShownBy(categoria, pesquisa));
    DisplayListSelects(produtos, categoria, pesquisa, ordem);
    SortSorted(ordem, Selected(produtos, categoria, pesquisa));
    SortFixesSorted(ordem, r);
  }

  /**
   * The effect itself: `let lista = [...produtos]`, the two reassigning filters,
   * then `lista.sort(...)` in place on an array of its own. The state array
   * `produtos` is only read: the sort works on the copy.
   */
  method DeriveDisplayList(produtos: array<Product>, categoria: string, pesquisa: string, ordem: string)
    returns (produtosFiltrados: seq<Product>)
    ensures produtos[..] == old(produtos[..])
    ensures produtosFiltrados == DisplayList(produtos[..], categoria, pesquisa, ordem)
  {
    var lista := produtos[..];
    if categoria != "all" {
      lista := Filter(lista, InCategory(categoria));
    }
    var textoPesquisa := LowerCase(pesquisa);
    if textoPesquisa != "" {
      lista := Filter(lista, MatchesSearch(textoPesquisa));
    }
    var a := new Product[|lista|](i requires 0 <= i < |lista| => lista[i]);
    assert a[..] == lista;
    SortInPlace(a, ordem);
    produtosFiltrados := a[..];
  }

  /** A two-product catalog, every category, no search, ascending: the cheaper product comes first. */
  lemma AscendingExample()
    ensures var tee := Product(1, "Red Tee", "", 1000, "", "T-shirts", None);
            var mug := Product(2, "Mug", "", 500, "", "Canecas", None);
            DisplayList([tee, mug], "all", "", "asc") == [mug, tee]
  {
    var tee := Product(1, "Red Tee", "", 1000, "", "T-shirts", None);
    var mug := Product(2, "Mug", "", 500, "", "Canecas", None);
    assert LowerCase("") == "";
    assert [tee, mug][..1] == [tee] && [tee][..0] == [];
    assert SortByPrice("asc", [tee]) == [tee];
    assert Insert("asc", [tee], mug) == [mug, tee];
    assert DisplayList([tee, mug], "all", "", "asc") == SortByPrice("asc", [tee, mug]);
  }
}
