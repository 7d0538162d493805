/** The catalog page: normalising the fetched product records, the title
    search and category filter, the category buttons, fixed-size pagination
    with Previous/Next, and "add to order". The view logic is made of
    functions; `CatalogPage` holds the page's state slots. */
module Menu {
  import opened Collections
  import opened Text
  import opened OrderModel
  import opened Storage

  /** A product as the catalog endpoint returns it. The price, in US dollars,
      is given in whole cents. */
  datatype ProductRecord = ProductRecord(id: int, title: string, priceCents: int, image: string, category: string)

  /** A product as the page displays it; `price` is in whole Kenyan shillings. */
  datatype MenuItem = MenuItem(id: int, title: string, price: int, image: string, category: string)

  const SourceCategory: string := "electronics"
  const DisplayCategory: string := "Electronics"
  const KesPerUsd: int := 130
  const ItemsPerPage: nat := 6
  const AllCategories: string := "all"
  const WalkInCustomer: string := "Walk-in Customer"

  /** `Math.round(price * 130)` for a price of `priceCents` / 100 dollars:
      the shilling amount nearest to the exact product, halves rounded up. */
  function ToKes(priceCents: int): (kes: int)
    ensures priceCents * KesPerUsd - 50 < 100 * kes <= priceCents * KesPerUsd + 50
  {
    (priceCents * KesPerUsd + 50) / 100
  }

  predicate IsElectronics(p: ProductRecord)
  {
    p.category == SourceCategory
  }

  /** The display item for one kept record. */
  function ToMenuItem(p: ProductRecord): MenuItem
  {
    MenuItem(p.id, p.title, ToKes(p.priceCents), p.image, DisplayCategory)
  }

  function ToMenuItems(records: seq<ProductRecord>): (items: seq<MenuItem>)
    ensures |items| == |records|
    ensures forall k :: 0 <= k < |records| ==> items[k] == ToMenuItem(records[k])
  {
    if records == [] then [] else [ToMenuItem(records[0])] + ToMenuItems(records[1..])
  }

  /** The pure part of `fetchMenuItems`: keep the electronics records and
      turn each into a display item, all labelled "Electronics". */
  function Normalise(data: seq<ProductRecord>): (r: seq<MenuItem>)
    ensures |r| <= |data|
    ensures forall k :: 0 <= k < |r| ==> r[k].category == DisplayCategory
  {
    ToMenuItems(Filter(data, IsElectronics))
  }

  /** Normalising keeps exactly the electronics records, each as often as
      it occurs, in source order, each with its id, title and image, its
      price converted, and its category relabelled. */
  lemma NormaliseSpec(data: seq<ProductRecord>)
    ensures var kept := Filter(data, IsElectronics);
      && IsSubsequence(kept, data)
      && (forall k :: 0 <= k < |data| && data[k].category == SourceCategory ==> data[k] in kept)
      && (forall k :: 0 <= k < |kept| ==> kept[k].category == SourceCategory)
      && (forall p: ProductRecord :: p.category == SourceCategory ==> multiset(kept)[p] == multiset(data)[p])
      && |kept| + |Filter(data, p => !IsElectronics(p))| == |data|
      && |Normalise(data)| == |kept|
      && forall k :: 0 <= k < |kept| ==>
           && Normalise(data)[k].id == kept[k].id
           && Normalise(data)[k].title == kept[k].title
           && Normalise(data)[k].image == kept[k].image
           && Normalise(data)[k].price == ToKes(kept[k].priceCents)
           && Normalise(data)[k].category == DisplayCategory
  {
    var kept := Filter(data, IsElectronics);
    var dropped := Filter(data, p => !IsElectronics(p));
    FilterIsSubsequence(data, IsElectronics);
    FilterPartition(data, IsElectronics, p => !IsElectronics(p));
    forall p: ProductRecord | p.category == SourceCategory
      ensures multiset(kept)[p] == multiset(data)[p]
    {
      assert p !in dropped;
    }
  }

  /** A record of another category, wherever it sits among the fetched
      records, does not change the catalog. */
  lemma NormaliseIgnoresOtherCategories(before: seq<ProductRecord>, p: ProductRecord, after: seq<ProductRecord>)
    requires p.category != SourceCategory
    ensures Normalise(before + [p] + after) == Normalise(before + after)
  {
    FilterConcat(before + [p], after, IsElectronics);
    FilterConcat(before, after, IsElectronics);
    FilterAppend(before, p, IsElectronics);
  }

  /** The search condition: the lower-cased title includes the lower-cased query. */
  predicate TitleMatches(item: MenuItem, query: string)
  {
    Contains(ToLower(item.title), ToLower(query))
  }

  /** The search step of `filterItems`: an empty query keeps every item. */
  function SearchFilter(items: seq<MenuItem>, query: string): seq<MenuItem>
  {
    if query != "" then Filter(items, item => TitleMatches(item, query)) else items
  }

  /** The category step of `filterItems`: "all" keeps every item. */
  function CategoryFilter(items: seq<MenuItem>, category: string): seq<MenuItem>
  {
    if category != AllCategories then Filter(items, (item: MenuItem) => item.category == category) else items
  }

  /** What `filterItems` stores as the filtered list: only items of the
      catalog, and only ones that pass both filters. */
  function ApplyFilters(items: seq<MenuItem>, query: string, category: string): (r: seq<MenuItem>)
    ensures |r| <= |items|
    ensures forall k :: 0 <= k < |r| ==> r[k] in items && Selected(r[k], query, category)
  {
    CategoryFilter(SearchFilter(items, query), category)
  }

  /** An item passes both filters. */
  predicate Selected(item: MenuItem, query: string, category: string)
  {
    (query == "" || TitleMatches(item, query)) && (category == AllCategories || item.category == category)
  }

  /** The filtered list is a stable subsequence of the catalog holding exactly
      the items whose lower-cased title has the lower-cased query somewhere
      in it and whose category is the selected one (any, for "all"). The two
      filter steps amount to one pass that keeps each selected item, as
      often as it occurs. */
  lemma ApplyFiltersSpec(items: seq<MenuItem>, query: string, category: string)
    ensures ApplyFilters(items, query, category) == Filter(items, item => Selected(item, query, category))
    ensures IsSubsequence(ApplyFilters(items, query, category), items)
    ensures forall k :: 0 <= k < |ApplyFilters(items, query, category)| ==>
      Selected(ApplyFilters(items, query, category)[k], query, category)
    ensures forall k :: 0 <= k < |items| && Selected(items[k], query, category) ==>
      items[k] in ApplyFilters(items, query, category)
  {
    var search := (item: MenuItem) => TitleMatches(item, query);
    var inCategory := (item: MenuItem) => item.category == category;
    var selected := (item: MenuItem) => Selected(item, query, category);
    var searched := SearchFilter(items, query);
    var result := ApplyFilters(items, query, category);
    if query != "" && category != AllCategories {
      FilterTwice(items, search, inCategory, selected);
    } else if query != "" {
      FilterAgreeing(items, search, selected);
    } else if category != AllCategories {
      FilterAgreeing(items, inCategory, selected);
    } else {
      FilterKeepsAll(items, selected);
    }
    FilterIsSubsequence(items, selected);
  }

  /** An item is selected exactly when the query is empty or occurs somewhere
      in its title, ignoring ASCII case, and the category matches. */
  lemma SelectedIff(item: MenuItem, query: string, category: string)
    ensures Selected(item, query, category) <==>
      && (query == "" || exists i: nat :: OccursAt(ToLower(item.title), ToLower(query), i))
      && (category == AllCategories || item.category == category)
  {
    ContainsIff(ToLower(item.title), ToLower(query));
  }

  /** The search ignores ASCII case on both sides: lower-casing the query
      or the title beforehand changes no match. */
  lemma SearchIgnoresCase(item: MenuItem, query: string)
    ensures TitleMatches(item, ToLower(query)) == TitleMatches(item, query)
    ensures TitleMatches(item.(title := ToLower(item.title)), query) == TitleMatches(item, query)
  {
    ToLowerIdempotent(query);
    ToLowerIdempotent(item.title);
  }

  /** With an empty query and "all" selected, every item is shown. */
  lemma NoFilterShowsAll(items: seq<MenuItem>)
    ensures ApplyFilters(items, "", AllCategories) == items
  {
  }

  function Categories'(items: seq<MenuItem>): (cats: seq<string>)
    ensures |cats| == |items|
    ensures forall k :: 0 <= k < |items| ==> cats[k] == items[k].category
  {
    if items == [] then [] else [items[0].category] + Categories'(items[1..])
  }

  /** `categories`: "all", then each category of the catalog once, in order
      of first appearance. */
  function Categories(items: seq<MenuItem>): (r: seq<string>)
    ensures |r| >= 1 && r[0] == AllCategories
    ensures forall k :: 0 <= k < |items| ==> items[k].category in r[1..]
    ensures forall k :: 1 <= k < |r| ==> exists i :: 0 <= i < |items| && items[i].category == r[k]
    ensures forall i, j :: 1 <= i < j < |r| ==> r[i] != r[j]
  {
    var cats := Categories'(items);
    var d := Distinct(cats);
    assert forall k :: 1 <= k < |[AllCategories] + d| ==> ([AllCategories] + d)[k] == d[k - 1];
    assert forall k :: 0 <= k < |d| ==> d[k] in cats;
    [AllCategories] + d
  }

  /** The categories after "all" follow the order in which each first
      appears in the catalog. */
  lemma CategoriesInFirstAppearanceOrder(items: seq<MenuItem>)
    ensures forall i, j :: 1 <= i < j < |Categories(items)| ==>
      FirstIndex(Categories'(items), Categories(items)[i]) < FirstIndex(Categories'(items), Categories(items)[j])
  {
    var d := Distinct(Categories'(items));
    DistinctFirstAppearanceOrder(Categories'(items));
    assert forall k :: 1 <= k < |Categories(items)| ==> Categories(items)[k] == d[k - 1];
  }

  /** A catalog whose items all share one category has the single category
      button for it after "all" (just "all" when the catalog is empty). */
  lemma SingleCategory(items: seq<MenuItem>, c: string)
    requires forall k :: 0 <= k < |items| ==> items[k].category == c
    ensures items == [] ==> Categories(items) == [AllCategories]
    ensures items != [] ==> Categories(items) == [AllCategories, c]
  {
    DistinctOfConstant(Categories'(items), c);
  }

  /** A normalised catalog has the single category button "Electronics"
      after "all", unless it is empty. */
  lemma NormalisedCategories(data: seq<ProductRecord>)
    ensures Normalise(data) != [] ==> Categories(Normalise(data)) == [AllCategories, DisplayCategory]
    ensures Normalise(data) == [] ==> Categories(Normalise(data)) == [AllCategories]
  {
    SingleCategory(Normalise(data), DisplayCategory);
  }

  /** `Math.ceil(n / itemsPerPage)`. */
  function TotalPages(n: nat): (t: nat)
    ensures t * ItemsPerPage >= n
    ensures t > 0 ==> (t - 1) * ItemsPerPage < n
  {
    (n + ItemsPerPage - 1) / ItemsPerPage
  }

  /** `filteredItems.slice(startIndex, startIndex + itemsPerPage)` for page
      `page` (pages count from 1): at most six items, taken in order from
      index (page - 1) * 6 on; a page in range is not empty. */
  function PageItems<T>(items: seq<T>, page: nat): (r: seq<T>)
    requires page >= 1
    ensures |r| <= ItemsPerPage
    ensures forall k :: 0 <= k < |r| ==> (page - 1) * ItemsPerPage + k < |items| && r[k] == items[(page - 1) * ItemsPerPage + k]
    ensures (page - 1) * ItemsPerPage < |items| ==>
      |r| == if |items| - (page - 1) * ItemsPerPage < ItemsPerPage then |items| - (page - 1) * ItemsPerPage else ItemsPerPage
    ensures (page - 1) * ItemsPerPage >= |items| ==> r == []
    ensures page <= TotalPages(|items|) ==> r != []
  {
    var start := (page - 1) * ItemsPerPage;
    if start >= |items| then []
    else if start + ItemsPerPage <= |items| then items[start..start + ItemsPerPage]
    else items[start..]
  }

  /** The `count` consecutive pages starting at page `first`, concatenated. */
  function Pages<T>(items: seq<T>, first: nat, count: nat): seq<T>
    requires first >= 1
    decreases count
  {
    if count == 0 then [] else PageItems(items, first) + Pages(items, first + 1, count - 1)
  }

  /** The pages from `first` to the last page cover the items from the start
      of page `first` onwards. */
  lemma {:induction false} PagesCoverSuffix<T>(items: seq<T>, first: nat, count: nat)
    requires first >= 1 && first - 1 + count == TotalPages(|items|)
    requires (first - 1) * ItemsPerPage <= |items|
    ensures Pages(items, first, count) == items[(first - 1) * ItemsPerPage..]
    decreases count
  {
    var start := (first - 1) * ItemsPerPage;
    if count == 0 {
      assert start == |items|;
    } else if count == 1 {
      assert start + ItemsPerPage >= |items|;
      assert Pages(items, first, count) == PageItems(items, first);
    } else {
      assert start + ItemsPerPage < |items|;
      PagesCoverSuffix(items, first + 1, count - 1);
      assert items[start..] == items[start..start + ItemsPerPage] + items[start + ItemsPerPage..];
    }
  }

  /** Pages 1 to `TotalPages` concatenate to the whole filtered list. */
  lemma PagesCoverAll<T>(items: seq<T>)
    ensures Pages(items, 1, TotalPages(|items|)) == items
  {
    PagesCoverSuffix(items, 1, TotalPages(|items|));
  }

  /** The Previous button: `Math.max(1, p - 1)`. */
  function PreviousPage(p: nat): (r: nat)
    ensures p > 1 ==> r == p - 1
    ensures p <= 1 ==> r == 1
  {
    if p - 1 > 1 then p - 1 else 1
  }

  /** The Next button: `Math.min(totalPages, p + 1)`. */
  function NextPage(p: nat, totalPages: nat): (r: nat)
    ensures r <= totalPages
    ensures p < totalPages ==> r == p + 1
    ensures p >= totalPages ==> r == totalPages
  {
    if totalPages < p + 1 then totalPages else p + 1
  }

  /** From a page in range both buttons lead to a page in range. */
  lemma NavigationStaysInRange(p: nat, totalPages: nat)
    requires 1 <= p <= totalPages
    ensures 1 <= PreviousPage(p) <= totalPages
    ensures 1 <= NextPage(p, totalPages) <= totalPages
  {
  }

  /** The order "add to order" creates for a catalog item. */
  function WalkInOrder(item: MenuItem, id: string, timestamp: int): Order
  {
    Order(id, item.title, WalkInCustomer, Pending, timestamp)
  }

  /** `[...orders, newOrder]` of `handleAddToOrder`: one pending order for a
      walk-in customer, named after the item, after all earlier orders. */
  function AddToOrder(orders: seq<Order>, item: MenuItem, id: string, timestamp: int): (r: seq<Order>)
    ensures |r| == |orders| + 1 && r[..|orders|] == orders
    ensures r[|orders|].status == Pending && r[|orders|].dishName == item.title
    ensures r[|orders|].customerName == WalkInCustomer
    ensures r[|orders|].id == id && r[|orders|].timestamp == timestamp
  {
    orders + [WalkInOrder(item, id, timestamp)]
  }

  /** The page's state slots. `filteredItems` and `currentPage` are written
      by `filterItems`, which runs whenever the catalog, the query or the
      category changes; the orders live in the storage slot
      `CatalogOrdersKey`. */
  class CatalogPage {
    const store: LocalStorage
    var items: seq<MenuItem>
    var filteredItems: seq<MenuItem>
    var searchQuery: string
    var selectedCategory: string
    var currentPage: nat

    /** The filtered list is up to date and the current page is a page of it
        (page 1 when it is empty). */
    ghost predicate Valid()
      reads this
    {
      && filteredItems == ApplyFilters(items, searchQuery, selectedCategory)
      && 1 <= currentPage
      && (currentPage == 1 || currentPage <= TotalPages(|filteredItems|))
    }

    constructor (store: LocalStorage)
      ensures Valid() && this.store == store
      ensures items == [] && searchQuery == "" && selectedCategory == AllCategories && currentPage == 1
    {
      this.store := store;
      items := [];
      filteredItems := [];
      searchQuery := "";
      selectedCategory := AllCategories;
      currentPage := 1;
    }

    function TotalPagesNow(): nat
      reads this
    {
      TotalPages(|filteredItems|)
    }

    /** `paginatedItems`: the items shown on the current page, at most six
        items of the filtered list, and at least one whenever the list has
        any. */
    function Shown(): (r: seq<MenuItem>)
      reads this
      requires Valid()
      ensures |r| <= ItemsPerPage
      ensures forall k :: 0 <= k < |r| ==> r[k] in filteredItems
      ensures filteredItems != [] ==> r != []
    {
      PageItems(filteredItems, currentPage)
    }

    function Orders(): seq<Order>
      reads this, store
    {
      store.Get(CatalogOrdersKey)
    }

    /** `filterItems`: recomputes the filtered list and goes back to page 1. */
    method FilterItems()
      modifies this
      ensures Valid()
      ensures filteredItems == ApplyFilters(items, searchQuery, selectedCategory) && currentPage == 1
      ensures items == old(items) && searchQuery == old(searchQuery) && selectedCategory == old(selectedCategory)
    {
      filteredItems := ApplyFilters(items, searchQuery, selectedCategory);
      currentPage := 1;
    }

    /** A successful fetch: the catalog becomes the normalised records. */
    method LoadCatalog(data: seq<ProductRecord>)
      modifies this
      ensures Valid() && items == Normalise(data) && currentPage == 1
      ensures searchQuery == old(searchQuery) && selectedCategory == old(selectedCategory)
    {
      items := Normalise(data);
      FilterItems();
    }

    /** Typing in the search box. The input reports only edits that change
        its value, so every call is a change of `searchQuery` and the filter
        effect reruns. */
    method SetSearchQuery(query: string)
      requires query != searchQuery
      modifies this
      ensures Valid() && searchQuery == query && currentPage == 1
      ensures items == old(items) && selectedCategory == old(selectedCategory)
    {
      searchQuery := query;
      FilterItems();
    }

    /** Clicking a category button. Setting the category it already has is
        no state change, so the filter effect does not run and the page
        stays; another category reruns the filter from page 1. */
    method SelectCategory(category: string)
      requires Valid()
      modifies this
      ensures Valid() && selectedCategory == category
      ensures category == old(selectedCategory) ==> unchanged(this)
      ensures category != old(selectedCategory) ==>
        filteredItems == ApplyFilters(items, searchQuery, category) && currentPage == 1
      ensures items == old(items) && searchQuery == old(searchQuery)
    {
      if category != selectedCategory {
        selectedCategory := category;
        FilterItems();
      }
    }

    /** The Previous button, which is only rendered when there is more than
        one page. */
    method Previous()
      requires Valid() && TotalPagesNow() > 1
      modifies this
      ensures Valid() && currentPage == PreviousPage(old(currentPage))
      ensures 1 <= currentPage <= TotalPagesNow()
      ensures items == old(items) && filteredItems == old(filteredItems)
      ensures searchQuery == old(searchQuery) && selectedCategory == old(selectedCategory)
    {
      currentPage := PreviousPage(currentPage);
    }

    /** The Next button, which is only rendered when there is more than one
        page. */
    method Next()
      requires Valid() && TotalPagesNow() > 1
      modifies this
      ensures Valid() && currentPage == NextPage(old(currentPage), TotalPagesNow())
      ensures 1 <= currentPage <= TotalPagesNow()
      ensures items == old(items) && filteredItems == old(filteredItems)
      ensures searchQuery == old(searchQuery) && selectedCategory == old(selectedCategory)
    {
      currentPage := NextPage(currentPage, TotalPagesNow());
    }

    /** A numbered page button; buttons exist for pages 1 to `TotalPagesNow`. */
    method GoToPage(page: nat)
      requires Valid() && TotalPagesNow() > 1 && 1 <= page <= TotalPagesNow()
      modifies this
      ensures Valid() && currentPage == page
      ensures items == old(items) && filteredItems == old(filteredItems)
      ensures searchQuery == old(searchQuery) && selectedCategory == old(selectedCategory)
    {
      currentPage := page;
    }

    /** `handleAddToOrder`: appends a walk-in order to the catalog's slot and
        touches no other slot. */
    method HandleAddToOrder(item: MenuItem, id: string, timestamp: int)
      modifies store
      ensures store.slots == Write(old(store.slots), CatalogOrdersKey, AddToOrder(old(Orders()), item, id, timestamp))
      ensures forall key :: key != CatalogOrdersKey ==> store.Get(key) == old(store.Get(key))
    {
      store.Set(CatalogOrdersKey, AddToOrder(Orders(), item, id, timestamp));
    }
  }
}
