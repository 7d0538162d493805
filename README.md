# Storefront order list and views, modelled in Dafny

This project models the logic of a small storefront demo. It has three pages:

- **Order manager.** It keeps a list of orders in browser local storage. Each order has an id, a product ("dish") name, a customer name, a status (`pending` or `completed`) and a timestamp. The page adds orders through a form that checks for missing fields. It can flip the status of an order, delete an order, filter the list by status and count orders by status.
- **Catalog.** It turns the fetched product records into display items: it keeps only electronics, converts US-dollar prices to Kenyan shillings and relabels the category. It has a case-insensitive title search, category buttons, pages of six items with Previous/Next buttons, and an "add to order" button that appends a pending order for a walk-in customer.
- **Dashboard.** It recomputes figures from the stored order list on every render: the order counts, the completion rate and the matching pending share, the five most recent orders (newest first), and a fixed "average order value".

Files:

- `collections.dfy` (`Collections`) holds the shared sequence operations. It has a stable filter, the subsequence relation, reversal, and insertion-ordered de-duplication, with their lemmas.
- `text.dfy` (`Text`) models the string operations: JavaScript `trim` (the full ECMAScript whitespace set), ASCII lower-casing, and `includes`.
- `order_model.dfy` (`OrderModel`) holds the `Order` record and the two status parts of a list.
- `storage.dfy` (`Storage`) models browser storage as named slots of order lists. It has the `LocalStorage` class that the pages share.
- `orders.dfy` (`Orders`) holds the order manager's list transformations as functions. The `OrderManager` class holds the page's state slots: filter, the two form fields, and whether the dialog is open.
- `menu.dfy` (`Menu`) holds the catalog logic as functions. The `CatalogPage` class holds the items, the filtered items, the query, the category and the current page.
- `dashboard.dfy` (`Dashboard`) holds the dashboard aggregates. They are all functions of the order list.
- `order_flow.dfy` (`OrderFlow`) shows how orders move between pages through storage. It includes the storage-key finding below.

Facts about the code that the model keeps:

- Only the dish name is trimmed, so a whitespace-only customer name is accepted (src/pages/Orders.tsx:28).
- Toggle and delete act on every order with the given id (src/pages/Orders.tsx:59, 74). Nothing in the code keeps ids unique, so the model does not assume it.
- The catalog writes its orders to a different storage slot from the one the order manager and the dashboard read (src/pages/Menu.tsx:26, src/pages/Orders.tsx:20; see Findings).

## Model

| member | source | states |
|---|---|---|
| `OrderModel.Flip` | src/pages/Orders.tsx:62 | a toggle always moves an order to the other status |
| `OrderModel.StatusPartition` | src/pages/Orders.tsx:86-90 | the pending and completed orders are stable subsequences of the list. They are disjoint, together they hold every order with its multiplicity, and their lengths add up to the list's |
| `OrderModel.StatusCountsAfterAppend` | src/pages/Orders.tsx:45 | appending an order raises only the count of its own status, by one |
| `Storage.Read` | src/pages/Orders.tsx:20 | a slot that was never written reads as the empty default list; otherwise it reads its stored value |
| `Storage.Write` | src/pages/Orders.tsx:45 | after a write, the slot reads back the written list and every other slot reads as before |
| `Storage.LocalStorage.Set` | src/pages/Orders.tsx:45 | storing a list replaces that slot only |
| `Text.Trim` | src/pages/Orders.tsx:28 | the trimmed text is a slice of the input with only whitespace before and after it. It is empty exactly when the input is all whitespace, and otherwise starts and ends with a non-whitespace character |
| `Text.TrimIdempotent` | src/pages/Orders.tsx:39 | trimming an already trimmed dish name changes nothing |
| `Text.ToLower` | src/pages/Menu.tsx:72 | lower-casing keeps the length and maps each character on its own: 'A'..'Z' move 32 code points up to 'a'..'z', every other character stays, and no ASCII capital remains |
| `Text.ToLowerIdempotent` | src/pages/Menu.tsx:72 | lower-casing a lower-cased string changes nothing |
| `Text.ContainsIff` | src/pages/Menu.tsx:72 | `includes` holds exactly when the query occurs at some position of the title |
| `Orders.AddOrder` | src/pages/Orders.tsx:27-45 | the add is refused exactly when the dish name is blank or the customer field is empty. Otherwise exactly one order is appended: pending, with the trimmed dish name, the untrimmed customer name, and the given id and timestamp. Earlier orders are kept in order |
| `Orders.AddAcceptsBlankCustomer` | src/pages/Orders.tsx:28 | a whitespace-only customer name passes the check and is stored as typed |
| `Orders.AddCountsOnePending` | src/pages/Orders.tsx:37-45 | a successful add adds one pending order and no completed one |
| `Orders.ToggleStatus` | src/pages/Orders.tsx:56-66 | the length is kept. Every order with the id has its status flipped, and every other order is unchanged |
| `Orders.ToggleTwiceRestores` | src/pages/Orders.tsx:58-64 | toggling the same id twice gives back the original list |
| `Orders.ToggleAbsentIsNoop` | src/pages/Orders.tsx:58-64 | toggling an id that no order has changes nothing |
| `Orders.ToggleKeepsEverythingButStatus` | src/pages/Orders.tsx:60-63 | a toggle changes no field of any order except its status |
| `Orders.DeleteOrder` | src/pages/Orders.tsx:74 | the result has no order with the id, holds only orders from the list, and keeps every order with another id |
| `Orders.DeleteSpec` | src/pages/Orders.tsx:73-74 | delete returns a stable subsequence that contains no order with the id. Every other order keeps its multiplicity, and the kept and removed orders add up to the list |
| `Orders.DeleteAbsentIsNoop` | src/pages/Orders.tsx:74 | deleting an id that no order has changes nothing |
| `Orders.DeleteIdempotent` | src/pages/Orders.tsx:74 | deleting the same id twice is the same as deleting it once |
| `Orders.FilterOrders` | src/pages/Orders.tsx:81-84 | every shown order is on the list and passes the selected filter, and every listed order that passes it is shown |
| `Orders.FilterOrdersSpec` | src/pages/Orders.tsx:81-84 | "all" shows the whole list. "pending" and "completed" show the two status parts: stable subsequences that partition the list |
| `Orders.Stats` | src/pages/Orders.tsx:86-90 | the total is the list length, and the pending and completed counts add up to it |
| `Orders.OrderManager.constructor` | src/pages/Orders.tsx:19-24 | the page starts with filter "all", empty form fields and the dialog closed |
| `Orders.OrderManager.Visible` | src/pages/Orders.tsx:81-84 | the rendered list holds only stored orders that the selected filter shows |
| `Orders.OrderManager.SetFilter` | src/pages/Orders.tsx:156-175 | a filter button selects its filter and changes nothing else |
| `Orders.OrderManager.EditDishName` | src/pages/Orders.tsx:118 | typing sets the dish-name field only |
| `Orders.OrderManager.EditCustomerName` | src/pages/Orders.tsx:128 | typing sets the customer-name field only |
| `Orders.OrderManager.SetDialogOpen` | src/pages/Orders.tsx:97 | opening or closing the dialog changes nothing else |
| `Orders.OrderManager.HandleAddOrder` | src/pages/Orders.tsx:27-54 | on a missing field, neither page state nor storage changes, so the input is kept. Otherwise the new order is appended to the stored list, the form is cleared and the dialog closes |
| `Orders.OrderManager.HandleToggleStatus` | src/pages/Orders.tsx:56-71 | the stored list is replaced by its toggle, and no other slot changes |
| `Orders.OrderManager.HandleDeleteOrder` | src/pages/Orders.tsx:73-79 | the stored list is replaced by the list without the id, and no other slot changes |
| `Menu.ToKes` | src/pages/Menu.tsx:52 | the shilling price is the whole number nearest to dollars × 130, with halves rounded up |
| `Menu.Normalise` | src/pages/Menu.tsx:47-55 | the catalog has no more items than records, and every item is labelled "Electronics" |
| `Menu.NormaliseSpec` | src/pages/Menu.tsx:47-55 | normalising keeps exactly the "electronics" records, each as often as it occurs, in source order; kept and dropped records add up to the input. Each keeps its id, title and image, gets the converted price, and has its category set to "Electronics" |
| `Menu.NormaliseIgnoresOtherCategories` | src/pages/Menu.tsx:48 | a record of any other category, inserted anywhere among the fetched records, does not change the catalog |
| `Menu.ApplyFilters` | src/pages/Menu.tsx:67-82 | the filtered list holds only catalog items that pass both the search and the category filter |
| `Menu.ApplyFiltersSpec` | src/pages/Menu.tsx:67-82 | the search step followed by the category step equals one stable filter that keeps every selected item with its multiplicity. So the filtered list is a subsequence of the catalog holding exactly the items that pass both filters |
| `Menu.SelectedIff` | src/pages/Menu.tsx:70-78 | an item passes exactly when the query is empty or its lower-cased form occurs at some position of the lower-cased title, and the selection is "all" or equals the item's category |
| `Menu.SearchIgnoresCase` | src/pages/Menu.tsx:72 | lower-casing the query or the title beforehand changes no search result, so the search ignores ASCII case |
| `Menu.NoFilterShowsAll` | src/pages/Menu.tsx:68-78 | an empty query with "all" selected shows every item |
| `Menu.Categories` | src/pages/Menu.tsx:84 | the list starts with "all", then every item category appears exactly once, and nothing else appears |
| `Menu.CategoriesInFirstAppearanceOrder` | src/pages/Menu.tsx:84 | the categories after "all" appear in the order in which each first occurs among the items |
| `Menu.SingleCategory` | src/pages/Menu.tsx:84 | a catalog whose items share one category has just "all" and that category (just "all" if the catalog is empty) |
| `Menu.NormalisedCategories` | src/pages/Menu.tsx:54 | a normalised catalog offers the buttons "all" and "Electronics" (only "all" when it is empty) |
| `Menu.TotalPages` | src/pages/Menu.tsx:86 | the page count is the ceiling of the item count divided by 6 |
| `Menu.PageItems` | src/pages/Menu.tsx:87-88 | a page holds the items from index (page − 1) × 6 on, in order: min(6, n − (page − 1) × 6) of them when the start is inside the list, and none past its end. A page in range is never empty |
| `Menu.PagesCoverAll` | src/pages/Menu.tsx:86-88 | pages 1 to the page count, concatenated, are exactly the filtered list |
| `Menu.PreviousPage` | src/pages/Menu.tsx:176 | Previous goes to p − 1, but never below page 1 |
| `Menu.NextPage` | src/pages/Menu.tsx:195 | Next goes to p + 1, but never beyond the page count |
| `Menu.NavigationStaysInRange` | src/pages/Menu.tsx:172-199 | from a page in range, both buttons lead to a page in range |
| `Menu.AddToOrder` | src/pages/Menu.tsx:90-98 | exactly one order is appended after the earlier ones. It is pending, named after the item, for "Walk-in Customer", with the given id and timestamp |
| `Menu.CatalogPage.constructor` | src/pages/Menu.tsx:19-25 | the page starts with no items, an empty query, category "all" and page 1 |
| `Menu.CatalogPage.FilterItems` | src/pages/Menu.tsx:67-82 | the filtered list is recomputed from the items, query and category, and the page goes back to 1 |
| `Menu.CatalogPage.LoadCatalog` | src/pages/Menu.tsx:47-57 | a loaded catalog is the normalised records, and filtering reruns from page 1 |
| `Menu.CatalogPage.SetSearchQuery` | src/pages/Menu.tsx:35-37 | an edit that changes the query reruns filtering and returns to page 1 |
| `Menu.CatalogPage.SelectCategory` | src/pages/Menu.tsx:149 | clicking the category already selected changes nothing, so the page stays. Another category is selected, filtering reruns with it and the page returns to 1 |
| `Menu.CatalogPage.Previous` | src/pages/Menu.tsx:174-180 | with more than one page, Previous moves to max(1, p − 1), which stays in range |
| `Menu.CatalogPage.Next` | src/pages/Menu.tsx:193-199 | with more than one page, Next moves to min(page count, p + 1), which stays in range |
| `Menu.CatalogPage.Shown` | src/pages/Menu.tsx:87-88 | the current page shows at most 6 items, all from the filtered list, and at least one whenever that list is not empty |
| `Menu.CatalogPage.GoToPage` | src/pages/Menu.tsx:182-191 | a numbered button goes to its page |
| `Menu.CatalogPage.HandleAddToOrder` | src/pages/Menu.tsx:90-98 | the walk-in order is appended to the catalog's own slot, and no other slot changes |
| `Dashboard.Stats` | src/pages/Dashboard.tsx:17-22 | the total is the list length. The pending and completed counts add up to it and match the order manager's counters |
| `Dashboard.CompletionRate` | src/pages/Dashboard.tsx:24-27 | the rate is 0 without orders. Otherwise it is completed / total × 100, which lies between 0 and 100 |
| `Dashboard.CompletionRateExtremes` | src/pages/Dashboard.tsx:24-27 | with orders, the rate is 0 exactly when none is completed and 100 exactly when all are |
| `Dashboard.PendingShare` | src/pages/Dashboard.tsx:24-27 | the exact pending share, 100 minus the exact rate, lies between 0 and 100, and is 100 without orders |
| `Dashboard.PendingShareIsPendingPercentage` | src/pages/Dashboard.tsx:24-27 | with orders, the exact pending share is the pending orders' percentage. Without orders it is 100. The page displays the rounded figures of `Dashboard.PendingShareTenths` and `Dashboard.PendingBarWidth` instead |
| `Dashboard.Tenths` | src/pages/Dashboard.tsx:26 | printing with one decimal gives the tenth nearest the rate, with halves rounded up |
| `Dashboard.CompletionRateTenths` | src/pages/Dashboard.tsx:26 | the printed rate is between 0.0 and 100.0, and within half a tenth of the exact rate |
| `Dashboard.OneOfThreeCompleted` | src/pages/Dashboard.tsx:26 | three orders with one completed print as 33.3 |
| `Dashboard.PendingBarWidth` | src/pages/Dashboard.tsx:108 | the pending bar's width, 100 minus the printed rate parsed back, equals the printed pending share and lies within half a tenth of the exact share |
| `Dashboard.PendingShareTenths` | src/pages/Dashboard.tsx:102 | parsing the printed rate, subtracting it from 100 and printing with one decimal gives a share that adds up with the printed rate to exactly 100.0. The share is 100.0 when there are no orders |
| `Dashboard.RecentOrders` | src/pages/Dashboard.tsx:29 | there are min(5, n) entries: the last orders in reverse, so the most recent comes first |
| `Dashboard.RecentOrdersAfterAppend` | src/pages/Dashboard.tsx:29 | a new order heads the recent list, followed by the previous recent orders; when there were already five, the oldest drops out |
| `Dashboard.AverageOrderValue` | src/pages/Dashboard.tsx:154 | the average order value is 15000 whenever there is an order, and 0 otherwise |
| `OrderFlow.CatalogAddUnseenByOrderPages` | src/pages/Menu.tsx:26 | as written, a catalog add leaves the order manager's list and every dashboard figure unchanged |
| `OrderFlow.CatalogAddFromEmptyStorage` | src/pages/Menu.tsx:26 | from empty storage, adding a catalog item stores one order but the dashboard still counts zero |
| `OrderFlow.SharedCatalogAddReachesOrderPages` | src/pages/Dashboard.tsx:7 | when the catalog writes the shared slot, its order appears as pending in the order manager, raises the dashboard's total and pending counts by one, and heads the recent orders |

## Findings

| source | as written | input that shows it | evidently intended | confidence | as-written member | corrected member |
|---|---|---|---|---|---|---|
| src/pages/Menu.tsx:26 | The catalog stores its orders under `"dinesmart-orders"`. The order manager (src/pages/Orders.tsx:20) and the dashboard (src/pages/Dashboard.tsx:7) read `"hatupoitech-orders"`. | Empty storage, then "Add" on any catalog item: the catalog's slot holds one order, but the dashboard shows 0 orders and the order manager shows none. | Orders added from the catalog are appended to the list that the order manager and the dashboard read. | not executed; high (the slot names differ only by an old product name) | `OrderFlow.CatalogAdd`, `OrderFlow.CatalogAddUnseenByOrderPages`, `OrderFlow.CatalogAddFromEmptyStorage` | `OrderFlow.SharedCatalogAdd`, `OrderFlow.SharedCatalogAddReachesOrderPages` |

`Menu.CatalogPage.HandleAddToOrder` keeps the as-written slot, so the page class models the code as it is. `OrderFlow.SharedCatalogAdd` is the corrected add.

## Left out

- Network fetches are not modelled: the product request, its `response.ok` check, the loading and error states and the Retry button (src/pages/Menu.tsx:39-65, 105-122). `Menu.CatalogPage.LoadCatalog` takes the fetched records as a parameter.
- The dashboard's "Total Products" figure is left out (src/pages/Dashboard.tsx:8-15, 18). It is the length of a separate fetch, or 0 when that fetch fails.
- The storage hook is not part of this model. Each slot holds a list of orders directly. JSON serialisation and the fallback for malformed stored data are not modelled, and neither are writes from other tabs.
- Each page reads its list from storage when it needs it. The React render cycle is not modelled. Neither are stale closures over `orders`, nor the delay before an effect runs: the `filterItems` effect runs right after a state change that triggers it, and does not run when a setter stores the value the state already has.
- `Date.now()` ids and timestamps are not generated: the handlers take the id and the timestamp as parameters.
- Prices come in as whole US cents, and `Menu.ToKes` rounds the exact product. Binary floating point in `price * 130` is not modelled.
- The completion rate is an exact rational, and `Dashboard.Tenths` rounds it exactly. The double-precision division before `toFixed(1)` is not modelled.
- Text formatting is not modelled: the strings `"0"` and `"33.3"`, and `toLocaleString` for prices and the average. The printed rate is kept as a whole number of tenths, so `parseFloat` of it is modelled as that number divided by 10, with no string round trip.
- `Text.ToLower`: lower-cases ASCII letters only; JavaScript's `toLowerCase` also maps the other Unicode letters, which the model leaves unchanged.
- `Menu.CatalogPage.SelectCategory`: accepts any string, not only the labels of the rendered category buttons.
- The Previous and Next buttons are disabled on the first and last page. This is not modelled, because clicking them there changes nothing anyway.
- Presentation is not modelled. This covers toasts, the "no items found" and "no orders" messages, the theme, routing, the navigation bar, the footer, the home page, and the card components. Only the `Order` record of src/components/OrderCard.tsx is reused.
