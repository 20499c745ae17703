# Tasks, contacts and products: a Dafny model

The application is a small single-page CRUD app with three pages over three
tables:

- a task list with filter tabs;
- an address book with a validated form and a search;
- a product catalogue with search, category and stock filters and a choice of sort.

A server hook seeds the products table on start-up. Persistence and rendering
belong to libraries outside the repository. What the repository owns is the
logic inside the page handlers and derived lists, and this project models
that logic.

Layout:

- `entities.dfy`: the three records (`Task`, `Contact`, `Product`) and their declared defaults.
- `store.dfy`: the repository each page talks to. It is one class per table: the rows in storage order, the next auto-increment id and, for tasks, a clock that stamps `createdAt`. Its methods are `insert`, `save`, `delete` and `count`.
- `text.dfy`: the JavaScript string built-ins the pages use: `trim`, the `\s` class, `toLowerCase`, `includes`, and the default string order.
- `seqs.dfy`: `Array.prototype.filter` and de-duplication through a `Set`.
- `sorting.dfy`: `Array.prototype.sort` with a comparator. Section 23.1.3.30 of ECMA-262 (2023 edition) requires it to be stable. Here it is an insertion sort on a key, proved to be a sorted, stable permutation, and the only such arrangement.
- `tasks_page.dfy`, `contacts_page.dfy`, `products_page.dfy`: each page is a class. Its fields are the page's state variables and its methods are the handlers. The derived lists are functions with lemmas.
- `api.dfy`: the seed-if-empty start-up hook and its ten records.

Each handler is one atomic step: it awaits the store, then reloads. The tasks
and contacts pages keep an invariant that their loaded list holds only stored
rows. A `save` or `delete` issued on a listed record therefore always names a
stored id.

## Model

| member | source | states |
|---|---|---|
| Entities.TaskDefaults | src/shared/Task.ts:5-21 | A fresh task has id 0 (the store assigns the real one), empty title and description, `completed` false, priority medium and no `createdAt`. |
| Entities.ContactDefaults | src/shared/Contact.ts:5-18 | A fresh contact has id 0 and empty name, email, phone and company. |
| Entities.ProductDefaults | src/shared/Product.ts:5-21 | A fresh product has id 0, empty name, description and category, price 0, and `inStock` true. |
| Text.TrimSpec | src/pages/TasksPage.tsx:41-44 | `Trim` (`trim`) returns an infix of its input, and everything before and after that infix is white space. The infix is empty or has no white space at either end. It is empty exactly when the input is all white space. |
| Text.TrimStartSpec | src/pages/TasksPage.tsx:43 | The leading-space pass keeps a suffix that does not start with white space, and what it drops is white space. |
| Text.TrimEndSpec | src/pages/TasksPage.tsx:43 | The trailing-space pass keeps a prefix that does not end with white space, and what it drops is white space. |
| Text.Lower | src/pages/ContactsPage.tsx:83 | Lowercasing keeps the length and lowers each character. |
| Text.LowerIdempotent | src/pages/ContactsPage.tsx:83-85 | Lowercasing twice is lowercasing once. |
| Text.IncludesIff | src/pages/ContactsPage.tsx:83-85 | `Includes` (`includes`) holds exactly when the needle occurs at some index of the haystack. |
| Text.IncludesEmpty | src/pages/ContactsPage.tsx:83-85 | Every string includes the empty string. |
| Text.BelowIrreflexive | src/pages/ProductsPage.tsx:25 | The string order is irreflexive. |
| Text.BelowAsymmetric | src/pages/ProductsPage.tsx:25 | The string order is asymmetric. |
| Text.BelowTransitive | src/pages/ProductsPage.tsx:25 | The string order is transitive. |
| Text.BelowTotal | src/pages/ProductsPage.tsx:25 | Any two distinct strings are ordered one way or the other. |
| Seqs.FilterMembers | src/pages/ContactsPage.tsx:81-86 | `Filter` (`filter`) keeps exactly the elements its callback accepts. |
| Seqs.FilterSubsequence | src/pages/ContactsPage.tsx:81-86 | `filter` returns an order-preserving subsequence of its input. |
| Seqs.FilterConcat | src/pages/ContactsPage.tsx:81-86 | `filter` distributes over concatenation. |
| Seqs.FilterSubMultiset | src/pages/ProductsPage.tsx:29-41 | `filter` adds nothing: each element is kept at most as often as it occurs. |
| Seqs.FilterSplit | src/pages/ProductsPage.tsx:38-39 | Two tests that divide what a third accepts, each element going to exactly one side, divide its filter as multisets. |
| Seqs.Dedupe | src/pages/ProductsPage.tsx:24 | `[...new Set(s)]` has no repeats and holds exactly the elements of `s`. |
| Sorting.Sort | src/pages/ProductsPage.tsx:42-47 | The sort returns a permutation of its input. |
| Sorting.SortAscending | src/pages/ProductsPage.tsx:42-47 | The sort's result is ordered by the comparator's key. |
| Sorting.SortStable | src/pages/ProductsPage.tsx:42-47 | Elements that compare equal keep their relative order. |
| Sorting.SortIsTheStableSort | src/pages/ProductsPage.tsx:42-47 | Any arrangement that is ordered and keeps equal keys in input order is the sort's result. |
| Sorting.FilterAscending | src/pages/ContactsPage.tsx:81-86 | Filtering an ordered list leaves it ordered. |
| Store.FindById | src/pages/ContactsPage.tsx:46 | `find` by id returns nothing exactly when no row has the id, and otherwise the first row that has it. |
| Store.FindStored | src/pages/ContactsPage.tsx:46 | With increasing ids, looking up a stored record's id finds that record. |
| Store.ReplaceThenFind | src/pages/ContactsPage.tsx:48 | With increasing ids, after a save (`Replace`) a lookup of the id finds the saved record. |
| Store.ReplaceRestores | src/pages/TasksPage.tsx:54 | Saving a changed record and then the original restores the table. |
| Store.InsertThenFind | src/pages/TasksPage.tsx:42-46 | An appended row whose id is above all others is what a lookup of its id finds. |
| Store.RemoveDrops | src/pages/TasksPage.tsx:59 | After a delete (`Remove`) no row has the id, and every other row remains. |
| Store.TaskStore.Insert | src/pages/TasksPage.tsx:42-46 | Insert appends the draft with the next id and the current clock as `createdAt`, advances both, and keeps ids and stamps increasing. |
| Store.TaskStore.Save | src/pages/TasksPage.tsx:54 | Save replaces the row with the record's id in place and keeps the stored `createdAt`. |
| Store.TaskStore.Delete | src/pages/TasksPage.tsx:59 | Delete removes the row with the id and keeps the others in order. |
| Store.ContactStore.Insert | src/pages/ContactsPage.tsx:51 | Insert appends the draft with the next id. |
| Store.ContactStore.Save | src/pages/ContactsPage.tsx:48 | Save replaces the row with the record's id in place. |
| Store.ContactStore.Delete | src/pages/ContactsPage.tsx:77 | Delete removes the row with the id and keeps the others in order. |
| Store.ProductStore.Count | src/server/api.ts:16 | `count()` is the number of rows. |
| Store.ProductStore.InsertAll | src/server/api.ts:17-88 | A batch insert appends the drafts, numbered in order from the next id. |
| TasksPage.Page.constructor | src/pages/TasksPage.tsx:8-26 | The page mounts with the "all" tab, empty new-task and edit forms, both with medium priority, no editing id, and loads the list. |
| TasksPage.Page.LoadTasks | src/pages/TasksPage.tsx:28-37 | The `where` built by assignment equals `WhereOf(filter)`: it selects nothing for "all", `completed = false` for "active" and `completed = true` for "completed". The list becomes that query. |
| TasksPage.Page.SetFilter | src/pages/TasksPage.tsx:24-26 | Changing the tab reloads the list for the new tab. |
| TasksPage.FindTasksSpec | src/pages/TasksPage.tsx:32-35 | The query `FindTasks` returns exactly the stored tasks meeting the clause, newest first. With increasing stamps the order is strictly decreasing in stamp. |
| TasksPage.DistinctStamps | src/pages/TasksPage.tsx:34 | A rearrangement of rows with increasing stamps never holds one stamp at two positions. |
| TasksPage.NewestComesFirst | src/pages/TasksPage.tsx:32-35 | A task stamped after every stored one is first on any tab it belongs to. |
| TasksPage.TabsPartition | src/pages/TasksPage.tsx:29-31 | The "active" and "completed" lists together are the "all" list, each task on exactly one of them. The "all" list holds every stored task. |
| TasksPage.CompletedSplits | src/pages/TasksPage.tsx:29-31 | `completed = false` and `completed = true` divide the rows; with no condition the filter returns the rows themselves. |
| TasksPage.TabsMatch | src/pages/TasksPage.tsx:29-31 | "active" lists only incomplete tasks and "completed" only completed ones. |
| TasksPage.Page.AddTask | src/pages/TasksPage.tsx:39-51 | A title that trims to nothing changes nothing. Otherwise the trimmed title and description are inserted with the chosen priority, `completed` false and the next id and stamp. The id counter advances by one and the clock moves forward. The form resets to "", "" and medium. Unless the tab is "completed", the reloaded list starts with the new task. |
| TasksPage.ShownFirst | src/pages/TasksPage.tsx:47-50 | After the insert, the reload of a tab other than "completed" starts with the new task. |
| TasksPage.Toggled | src/pages/TasksPage.tsx:54 | The toggled record differs from the task in `completed` alone. |
| TasksPage.ToggleTwiceRestores | src/pages/TasksPage.tsx:54 | Toggling a stored task twice leaves the table as it was. |
| TasksPage.Page.ToggleComplete | src/pages/TasksPage.tsx:53-56 | Saves the task with `completed` flipped, then reloads. The id counter and clock are unchanged. |
| TasksPage.Page.DeleteTask | src/pages/TasksPage.tsx:58-61 | Removes the row with the id, then reloads. The id is no longer listed. The id counter and clock are unchanged. |
| TasksPage.LoadedAreStored | src/pages/TasksPage.tsx:32-36 | Every task the query lists is a stored row. |
| TasksPage.LoadedIdStored | src/pages/TasksPage.tsx:58-60 | An id on the list is an id in the table, so the delete finds its row. |
| TasksPage.DeletedNotLoaded | src/pages/TasksPage.tsx:58-61 | No reload after a delete shows the deleted id. |
| TasksPage.Page.StartEdit | src/pages/TasksPage.tsx:63-68 | The edit fields take the task's id, title, description and priority. |
| TasksPage.Edited | src/pages/TasksPage.tsx:70-76 | The edited record keeps id, `completed` and `createdAt`, has the trimmed edit title and description and the edit priority. |
| TasksPage.StoredCreatedAt | src/pages/TasksPage.tsx:71-76 | Saving a listed task under its own id finds the row and keeps its `createdAt`. |
| TasksPage.Page.SaveEdit | src/pages/TasksPage.tsx:70-79 | Saves the edited record over the task, leaves editing mode, then reloads. The id counter and clock are unchanged. |
| TasksPage.Page.CancelEdit | src/pages/TasksPage.tsx:81-83 | Leaves editing mode. |
| TasksPage.ActiveCount | src/pages/TasksPage.tsx:85 | The badge count is at most the number of loaded tasks. |
| TasksPage.ActiveCountIsRest | src/pages/TasksPage.tsx:85 | The badge equals the loaded tasks minus the completed ones. |
| TasksPage.ActiveCountOnTabs | src/pages/TasksPage.tsx:85 | On "active" the badge equals the list length; on "completed" it is 0. |
| ContactsPage.Merged | src/pages/ContactsPage.tsx:48 | `{...contact, ...formData}` keeps the contact's id and takes all four form fields. |
| ContactsPage.MergeUnchanged | src/pages/ContactsPage.tsx:64-73 | Submitting an edit form left as `startEdit` filled it saves the contact unchanged. |
| ContactsPage.EmailShapedMeaning | src/pages/ContactsPage.tsx:34 | The email pattern, `EmailShaped`, accepts exactly the strings with no white space, one "@" that is neither first nor last, and a "." strictly inside the part after it. |
| ContactsPage.PaddedNotShaped | src/pages/ContactsPage.tsx:34 | A string with white space at either end never matches the pattern. |
| ContactsPage.DotlessNotShaped | src/pages/ContactsPage.tsx:34 | A string without "." never matches. |
| ContactsPage.TwoAtsNotShaped | src/pages/ContactsPage.tsx:34 | A string with two "@" never matches. |
| ContactsPage.PlainAddressShaped | src/pages/ContactsPage.tsx:34 | "jane@example.com" matches. |
| ContactsPage.MalformedSamples | src/pages/ContactsPage.tsx:34 | "jane@example", "@example.com" and "a@b@c.d" do not match. |
| ContactsPage.ErrorsOf | src/pages/ContactsPage.tsx:29-36 | The only keys are "name" and "email". "name" is set, to "Name is required", exactly when the trimmed name is empty. "email" is set exactly when the trimmed email is empty ("Email is required") or else the untrimmed email fails the pattern ("Invalid email format"). |
| ContactsPage.ValidIff | src/pages/ContactsPage.tsx:38 | The map is empty exactly when the name is not blank and the email is not blank and matches. |
| ContactsPage.ErrorsIndependent | src/pages/ContactsPage.tsx:30-36 | The name error depends on the name alone and the email error on the email alone. Phone and company never affect the map. |
| ContactsPage.PaddedEmailRejected | src/pages/ContactsPage.tsx:32-35 | A non-blank email with white space at either end gets "Invalid email format". |
| ContactsPage.EmptyFormRejected | src/pages/ContactsPage.tsx:31-35 | The blank form gets both "required" errors. |
| ContactsPage.FilteredContactsSpec | src/pages/ContactsPage.tsx:81-86 | The search result `FilteredContacts` is an order-preserving subsequence of the list. It keeps a contact exactly when the lowercased search occurs in its lowercased name, email or company, and stays ordered by name. |
| ContactsPage.EmptySearchKeepsAll | src/pages/ContactsPage.tsx:81-86 | An empty search keeps every contact. |
| ContactsPage.PhoneNotSearched | src/pages/ContactsPage.tsx:81-86 | Changing a contact's phone never changes whether it matches. |
| ContactsPage.SearchIgnoresCase | src/pages/ContactsPage.tsx:83-85 | A search and its lowercase form find the same contacts. |
| ContactsPage.ByNameSpec | src/pages/ContactsPage.tsx:24-27 | The loaded list `ByName` is a permutation of the stored contacts, ordered by name, with namesakes in storage order. |
| ContactsPage.ListedAreStored | src/pages/ContactsPage.tsx:24-27 | Every listed contact is a stored row. |
| ContactsPage.ListedIdStored | src/pages/ContactsPage.tsx:75-77 | An id on the list is an id in the table, so the save or delete finds its row. |
| ContactsPage.DeletedNotListed | src/pages/ContactsPage.tsx:75-79 | After a delete, the reloaded list does not show the id. |
| ContactsPage.SaveThenFind | src/pages/ContactsPage.tsx:45-49 | After a merge-save, a lookup of the contact's id finds the merged record, and every other row is unchanged. |
| ContactsPage.Page.constructor | src/pages/ContactsPage.tsx:6-22 | The page mounts with no search, a hidden blank form, no errors and no editing id, and loads the list. |
| ContactsPage.Page.LoadContacts | src/pages/ContactsPage.tsx:24-27 | The list becomes the stored contacts ordered by name. |
| ContactsPage.Page.ValidateForm | src/pages/ContactsPage.tsx:29-39 | The map built one field at a time replaces the errors and equals `ErrorsOf` of the form. The result is true exactly when the map is empty. |
| ContactsPage.Page.ResetForm | src/pages/ContactsPage.tsx:57-62 | Blank form, no errors, no editing id, form hidden. |
| ContactsPage.Page.HandleSubmit | src/pages/ContactsPage.tsx:41-55 | An invalid form stores nothing and only shows its errors. A valid one does one of three things. When editing a listed id, it merge-saves over that contact. When editing an id not on the list, it saves nothing. When not editing, it inserts the fields as typed with the next id. Only the insert advances the id counter. The form then resets and the list reloads. |
| ContactsPage.Page.StartEdit | src/pages/ContactsPage.tsx:64-73 | The form takes the contact's four fields, the editing id is its id, and the form shows. |
| ContactsPage.Page.DeleteContact | src/pages/ContactsPage.tsx:75-79 | Without confirmation nothing changes. With it the row is removed, the list reloads and no longer shows the id. The id counter is unchanged either way. |
| ContactsPage.Page.ToggleForm | src/pages/ContactsPage.tsx:94-103 | The header button always leaves a blank form, no errors and no editing id. It hides the form exactly when a new-contact form was open. |
| ProductsPage.CategoryColumn | src/pages/ProductsPage.tsx:24 | `map` to the category: same length, each entry the product's category. |
| ProductsPage.CategoriesSpec | src/pages/ProductsPage.tsx:24-25 | The category list `CategoriesOf` is strictly ascending and has no repeats. It holds exactly the non-empty categories some product carries. |
| ProductsPage.Passes | src/pages/ProductsPage.tsx:30-41 | The chain of early rejections keeps exactly the products that meet the search, category and stock conditions together. |
| ProductsPage.VisibleSpec | src/pages/ProductsPage.tsx:29-47 | The shown list `Visible` is a permutation of the products passing every filter and adds nothing. It is ordered by the chosen comparator and keeps equal-comparing products in loaded order. |
| ProductsPage.PriceAscOrder | src/pages/ProductsPage.tsx:44 | "price-asc" gives non-decreasing prices. |
| ProductsPage.PriceDescOrder | src/pages/ProductsPage.tsx:45 | "price-desc" gives non-increasing prices. |
| ProductsPage.NameOrder | src/pages/ProductsPage.tsx:43 | "name" never places a name after one that sorts below it. |
| ProductsPage.CheapestFirst | src/pages/ProductsPage.tsx:44 | With no filter, a product cheaper than every other is first under "price-asc". |
| ProductsPage.NoFilterShowsAll | src/pages/ProductsPage.tsx:30-41 | With no search, no category and any stock, every loaded product is shown. |
| ProductsPage.EmptyControlsExcludeNothing | src/pages/ProductsPage.tsx:32-37 | An empty search, or an empty category, leaves the decision to the other two controls. |
| ProductsPage.SearchIgnoresCase | src/pages/ProductsPage.tsx:32-34 | A search and its lowercase form keep the same products. |
| ProductsPage.StockPartition | src/pages/ProductsPage.tsx:38-39 | The "in-stock" and "out-of-stock" lists divide the "all" list between them. |
| ProductsPage.StockFilterSpec | src/pages/ProductsPage.tsx:38-39 | "in-stock" keeps exactly the in-stock products of the "all" list, and "out-of-stock" exactly the others. |
| ProductsPage.Page.constructor | src/pages/ProductsPage.tsx:8-19 | The page mounts with an empty search, all categories, any stock and name order, and loads. |
| ProductsPage.Page.LoadProducts | src/pages/ProductsPage.tsx:21-27 | The products are the stored rows. The categories are the de-duplicated, non-empty, sorted category list. |
| Api.InitApi | src/server/api.ts:14-89 | On an empty table the ten seed products are inserted with consecutive ids. On any other table nothing changes. |
| Api.InitTwice | src/server/api.ts:16 | Running the hook twice is the same as running it once: the seed is idempotent. |
| Api.SeedProductCategories | src/server/api.ts:18-87 | The seed records' categories are all among the three, with Electronics, Office Supplies and Furniture each present. |
| Api.SeededCategories | src/server/api.ts:18-87 | Numbering the seed with ids leaves those category facts intact. |
| Api.SeededPrices | src/server/api.ts:18-87 | The wireless mouse is first, the pen set is last at 8.99, and every other seed product costs more. |
| Api.CategoriesCarried | src/server/api.ts:22-85 | The non-empty categories the seeded rows carry are exactly the three. |
| Api.CategoriesAsSeeded | src/pages/ProductsPage.tsx:24-25 | For such rows the page lists exactly Electronics, Furniture, Office Supplies, in that order. |
| Api.SeedCategories | src/server/api.ts:22-85 | The seeded table's category list is exactly Electronics, Furniture, Office Supplies. |
| Api.SeedOutOfStock | src/server/api.ts:32-73 | Exactly two seed products are out of stock, the USB-C hub and the monitor stand. |
| Api.CheapestAsSeeded | src/pages/ProductsPage.tsx:44 | For rows priced like the seed, "price-asc" starts with the pen set and shows the wireless mouse later. |
| Api.SeedCheapestFirst | src/server/api.ts:18-87 | Under "price-asc" the seeded table starts with the pen set at 8.99, ahead of the wireless mouse at 29.99. |

## Left out

- Seqs.Dedupe: does not state that the elements keep the order of their first occurrences, because the page sorts the result right after and only its elements matter.
- Rendering, JSX, CSS and the `useState`/`useEffect` bindings are not modelled. A page's state variables are class fields. The product toolbar's four controls are a `View` value passed to the filter functions.
- The navigation between pages is not modelled. It lives outside the three page files.
- Remult, Express, SQLite and the HTTP round trips are replaced by the store classes. The start-up wiring in src/server/api.ts:1-13 is not modelled.
- `await` and the timing of reloads are not modelled. Each handler is one atomic step, and no other client writes in between.
- The browser's `confirm` prompt is not modelled. `ContactsPage.Page.DeleteContact` takes the user's answer as a boolean.
- Prices are integer cents. Floating point and the `toFixed(2)` display are not modelled.
- `createdAt` is a counter kept by the task store and stamped at insert. The real clock is not modelled.
- Store.TaskStore.Save, Store.TaskStore.Delete, Store.ContactStore.Save and Store.ContactStore.Delete require the id to be present. What the store does with a missing id is not asserted. Every call site names a listed, hence stored, id.
- Store.TaskStore.Save keeps the stored `createdAt`. The page always saves a record that carries it unchanged, so no other behaviour is asserted.
- Text.Lower lowers ASCII letters only. Unicode case mapping is not modelled.
- Text.Below compares strings character by character, standing in for `localeCompare` and for the default sort order. Locale rules are not modelled. The default sort compares UTF-16 code units, so for characters above U+FFFF the model's order can differ from it.
- Text.IsSpace follows ECMAScript's WhiteSpace and LineTerminator set as of Unicode 15 (the Zs category written out). Later Unicode changes to that category are not tracked.
- ContactsPage.Page.LoadContacts lists contacts with equal names in storage order. The database's tie order is not visible, so this is a modelling choice.
- TasksPage.Page.LoadTasks lists tasks newest first. Stamps are strictly increasing in storage order, so there are no ties.
- ProductsPage.Page.LoadProducts assigns the sorted value of the local `cats` list. The in-place update of that array is not modelled separately.
- The products list is the rows in storage order, as `find()` with no `orderBy` returns them in this model.
- The edit, search and filter text inputs and their change handlers are not modelled. They only set the state the model takes as given.
