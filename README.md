# Storefront catalog and cart — a Dafny model

This project models the logic of the storefront's product page (`app/produtos/page.tsx`).
The model has three parts:

- **The display list.** When the product list, the category, the search text or the sort
  order changes, the page recomputes the list it shows. It copies `produtos`, keeps the
  chosen category unless the category is `"all"`, and keeps the products whose lower-cased
  title contains the lower-cased search text unless that text is empty. Then it sorts the
  copy by price in place: ascending for `"asc"`, descending for any other order.
- **The cart.** `adicionarAoCarrinho` appends a copy of a product tagged with a fresh
  `idUnico`. `removerDoCarrinho` drops the entries that carry a given `idUnico`.
- **The total.** It sums the prices of the cart entries.

Modules:

- `Products` (`products.dfy`): the `Product` record, ASCII lower-casing and substring
  search (`includes`).
- `Seqs` (`seqs.dfy`): `Filter`, which models `Array.prototype.filter`, and its laws.
- `Sorting` (`sorting.dfy`): the comparator, a stable insertion sort `SortByPrice`, and
  `SortInPlace`, which sorts an `array` in place and is proved equal to `SortByPrice`.
  `Array.prototype.sort` is stable, so ties keep their order. `StableSortIsSortByPrice`
  proves that every stable sort under this comparator gives the same list as `SortByPrice`.
- `Catalog` (`catalog.dfy`):
  - `DisplayList`, the derivation as a function;
  - `DeriveDisplayList`, the effect as a method: two reassigned filters, then an in-place
    sort of an array copy;
  - `Shown`, an independent one-predicate reference, and the lemmas that tie the two
    together.
- `ShoppingCart` (`cart.dfy`):
  - the functions `Added`, `Removed` and `Total`, with their laws;
  - the class `Cart`, whose `carrinho` field is replaced by `Add` and `Remove`. These are
    the two handlers. The class invariant `Valid()` says that every entry has its own
    identifier.

Modelling choices:

- Prices are integers (cents).
- The comparator `a.price - b.price` is modelled as integer subtraction.
- `toLowerCase` maps only the ASCII letters A-Z.
- `crypto.randomUUID()` becomes a parameter `novoId` of `Cart.Add`. Its precondition says
  the id is not already in the cart, which is what a random UUID provides.

As written, the code has three consequences, and the model keeps all three:

- Removal drops *every* entry carrying the identifier, so duplicates all go
  (app/produtos/page.tsx:104). `RemovedExactlyOne` shows that exactly one entry is dropped
  when identifiers are unique.
- Every sort order other than `"asc"` sorts descending (app/produtos/page.tsx:87-91).
- An entry without an `idUnico`, such as one restored from storage, is never removed,
  because `undefined !== idUnico` (app/produtos/page.tsx:104).

## Model

| member | source | states |
|---|---|---|
| Seqs.Filter | app/produtos/page.tsx:75 | the filtered list is never longer than the list filtered |
| Seqs.FilterCount | app/produtos/page.tsx:81-83 | a filter keeps each passing element exactly as often as it occurs and drops every failing one |
| Seqs.FilterMember | app/produtos/page.tsx:81-83 | an element is in the filtered list iff it is in the list and passes the test |
| Seqs.FilterConcat | app/produtos/page.tsx:104 | filtering distributes over concatenation: the kept elements stay in their relative order |
| Seqs.FilterIdentity | app/produtos/page.tsx:104 | a filter returns its input unchanged iff every element passes |
| Seqs.FilterDrops | app/produtos/page.tsx:104 | if one element fails the test, the result is strictly shorter |
| ShoppingCart.RemovedShrinks | app/produtos/page.tsx:103-104 | whenever some entry carries the id, removal leaves a strictly shorter cart, whatever the other identifiers |
| Seqs.FilterFilter | app/produtos/page.tsx:74-84 | two successive filters equal one filter by the conjunction of their tests |
| Products.LowerCaseEmpty | app/produtos/page.tsx:79-80 | ASCII lower-casing keeps the length, so `textoPesquisa` is empty iff `pesquisa` is |
| Products.ContainsEmpty | app/produtos/page.tsx:82 | every title includes the empty text |
| Sorting.SortPermutes | app/produtos/page.tsx:87-91 | sorting yields the same multiset of products and the same length |
| Sorting.SortSorted | app/produtos/page.tsx:87-91 | the sorted list has no pair out of order under the comparator |
| Sorting.SortStable | app/produtos/page.tsx:87-91 | for every price, the products of that price appear in their original relative order |
| Sorting.SortFixesSorted | app/produtos/page.tsx:87-91 | sorting an already sorted list returns it unchanged |
| Sorting.SortedStableUnique | app/produtos/page.tsx:87-91 | two sorted lists that agree on the order of each price's products are equal |
| Sorting.StableSortIsSortByPrice | app/produtos/page.tsx:87-91 | any sorted list that is stable with respect to `s` equals `SortByPrice(s)`, whatever stable algorithm produced it |
| Sorting.InsertInPlace | app/produtos/page.tsx:88 | one in-place insertion step leaves the prefix equal to `Insert` of the old prefix and the old element, and the rest unchanged |
| Sorting.SortInPlace | app/produtos/page.tsx:87-91 | `lista.sort(...)` in place: the array afterwards is `SortByPrice` of its old contents |
| Catalog.DisplayListSelects | app/produtos/page.tsx:70-94 | the category filter followed by the search filter selects exactly the products the one-predicate criterion `Shown` admits, then the list is sorted |
| Catalog.SearchGuardRedundant | app/produtos/page.tsx:79-84 | skipping the search filter for an empty text gives the same result as filtering by `includes("")` |
| Catalog.DisplayListContents | app/produtos/page.tsx:71-84 | the display list is a permutation of exactly the products passing both filters (each as often as in `produtos`, all others absent), so it is never longer than `produtos` |
| Catalog.DisplayListFilters | app/produtos/page.tsx:74-84 | with a category other than "all" every product shown has that category; with a non-empty search text every title shown contains it, lower-cased; with "all" and no search every product is shown |
| Catalog.DisplayListSorted | app/produtos/page.tsx:86-91 | prices are non-decreasing for "asc" and non-increasing for every other order |
| Catalog.DisplayListStable | app/produtos/page.tsx:86-91 | products of equal price appear in catalog order |
| Catalog.DisplayListUnique | app/produtos/page.tsx:70-94 | the derivation is deterministic: any price-ordered, stable arrangement of the selected products is the display list |
| Catalog.DisplayListIdempotent | app/produtos/page.tsx:70-94 | deriving again from a derived list with the same state gives the same list |
| Catalog.DeriveDisplayList | app/produtos/page.tsx:70-94 | the effect (a copy, two reassigned filters, an in-place sort of an array of its own) returns exactly `DisplayList` of the state array `produtos`, which it leaves as it was |
| Catalog.AscendingExample | app/produtos/page.tsx:70-94 | `[Red Tee 10.00, Mug 5.00]` with "all", no search and "asc" is shown as `[Mug, Red Tee]` |
| ShoppingCart.AddedShape | app/produtos/page.tsx:97-99 | adding grows the cart by exactly one and leaves the earlier entries unchanged and in order; the last entry copies every field of the product and has `idUnico` set to the fresh id |
| ShoppingCart.AddedKeepsUnique | app/produtos/page.tsx:97-99 | a fresh id keeps the cart's identifiers unique, and the new entry carries it |
| ShoppingCart.RemovedContents | app/produtos/page.tsx:103-104 | removal drops every entry with that id and keeps every other entry exactly as often as before; afterwards no entry has that id |
| ShoppingCart.RemovedKeepsOrder | app/produtos/page.tsx:103-104 | removal works piece by piece over a concatenation, so the kept entries stay in their original relative order |
| ShoppingCart.RemovedUnchanged | app/produtos/page.tsx:103-104 | removal leaves the cart unchanged iff no entry carries that id |
| ShoppingCart.RemovedExactlyOne | app/produtos/page.tsx:103-104 | with unique ids, removal drops exactly the one entry at the id's position |
| ShoppingCart.RemovedKeepsUnique | app/produtos/page.tsx:103-104 | removal keeps the identifiers unique |
| ShoppingCart.RemoveUndoesAdd | app/produtos/page.tsx:97-105 | removing the id just added restores the cart as it was before the add |
| ShoppingCart.TotalConcat | app/produtos/page.tsx:107 | the total of two carts joined is the sum of their totals |
| ShoppingCart.TotalAdded | app/produtos/page.tsx:107 | the empty cart totals 0; adding a product raises the total by its price |
| ShoppingCart.TotalRemoved | app/produtos/page.tsx:107 | with unique ids, removing an entry lowers the total by exactly its price |
| ShoppingCart.TotalPartition | app/produtos/page.tsx:104-107 | for any cart, duplicates and restored entries included, the total is the total after removal plus the total of the entries carrying the id |
| ShoppingCart.AddTwiceExample | app/produtos/page.tsx:97-107 | adding one product twice gives two entries with the same product id and distinct `idUnico`, totalling twice its price |
| ShoppingCart.Cart.constructor | app/produtos/page.tsx:29 | the cart starts empty, with the invariant holding |
| ShoppingCart.Cart.Add | app/produtos/page.tsx:97-100 | the new cart is `Added(old cart, produto, novoId)`, its total rises by the price, and unique ids stay unique |
| ShoppingCart.Cart.Remove | app/produtos/page.tsx:103-105 | the new cart is `Removed(old cart, idUnico)`; no entry carries that id afterwards; the cart is unchanged if none did and strictly shorter if one did; the total falls by the prices of the dropped entries; with unique ids exactly one entry and its price go, and the ids stay unique |

## Left out

- Fetching the product list, and the loading/error states. This covers `fetch("/api/produtos")`, `response.ok`, `setLoading` and `setError` (app/produtos/page.tsx:32-50). It is asynchronous network I/O; the product list is a parameter instead.
- Restoring and saving the cart in `localStorage` with `JSON.parse` and `JSON.stringify` (app/produtos/page.tsx:53-67). This is browser storage and JSON serialisation. Because a restored cart can hold anything, `Cart.Add` and `Cart.Remove` do not require `Valid()`; they only preserve it.
- The proxy route app/api/products/route.ts and the header app/components/header/header.tsx. The route is a single outbound fetch; the header is static markup.
- `crypto.randomUUID()`: a randomness source. It is replaced by the parameter `novoId` of `Cart.Add`, whose precondition states what a random UUID provides: it is new to the cart.
- Floating-point prices. The comparator's and the `reduce` sum's rounding, and the `toFixed(2)` formatting, are not modelled; prices are whole cents.
- `toLowerCase` beyond ASCII. Unicode case mapping, including mappings that change a string's length, is not modelled; only A-Z are lowered.
- The sort algorithm the JavaScript engine really uses. It is modelled by a stable insertion sort. `StableSortIsSortByPrice` proves that any stable sort gives the same list. Engines older than ECMAScript 2019 need not sort stably, and the model does not cover them.
- React's scheduling: effects run after renders, `setCarrinho(prev => ...)` updates are batched, and the two state lists are stored separately. `Cart.Add` and `Cart.Remove` replace the field directly instead.
- All JSX rendering, including the hard-coded category `<option>`s and the caller's `produto.idUnico &&` guard before removal (app/produtos/page.tsx:109-197).
