# KeyValue extension — Dafny model

This project models the MediaWiki *KeyValue* extension. Page authors write
`{{#keyvalue:category|key|value}}` in a page. While the page is rendered, each call
adds a (category, key, value) triple to a per-request `KeyValue` object. That object
is a lazily created singleton. When the page is saved or deleted, the object's
`store` replaces all rows of the `keyvalue` table that belong to the page with the
pending triples. It does this in one begin/commit unit. The table can be queried by
category (`getByCategory`) and grouped by category with row counts (`getCategories`).

Modules:

- `Lexicographic` (lexicographic.dfy): PHP's `strcmp`, reduced to the sign of its
  result. It is related to an independent definition of dictionary order
  (`LexLess`) and shown to be antisymmetric and transitive.
- `Instances` (instances.dfy): the `KeyValueInstance` record, its `toString` form
  with a parser that inverts it, and the `compareKey` comparator on (category, key).
- `KeyValueStore` (store.dfy): the `KeyValue` accumulator (`new`, `add`, `store`)
  over a table that is a sequence of `(article_id, category, key, value)` rows, and
  the two queries. Properties are stated through `RowsOf(t, id)`, which selects the
  rows of one article, and `CountCategory(t, c)`, which counts the rows of one
  category.
- `Hooks` (hooks.dfy): the hook functions of keyvalue.php. Each one is a pure
  transition on a `Request` (the singleton slot plus the table). The current page's
  article id, which the code reads from `$wgTitle`, is a parameter.

What the code does, and the model with it:

- `store` inserts every pending triple as it is. Nothing sorts or deduplicates the
  pending list, so two calls with the same category and key both become rows
  (`Hooks.DuplicateKeysBothStored`).
- `compareKey` exists, but nothing in the extension calls it.
- The save hook stores on every save; it does not look at whether the page is a
  redirect.
- The table is checked for, and created if missing, only in the `KeyValue`
  constructor.

## Model

| member | source | states |
|---|---|---|
| Lexicographic.Strcmp | keyvalue.core.php:60-66 | the sign of `strcmp` is -1, 0 or 1, and it is 0 exactly when the two strings are equal |
| Lexicographic.StrcmpNegativeIffLexLess | keyvalue.core.php:60-66 | `strcmp` says "smaller" exactly when the first string is a proper prefix of the second or is smaller at the first differing character |
| Lexicographic.StrcmpAntisymmetric | keyvalue.core.php:60-66 | swapping the arguments of `strcmp` negates its sign |
| Lexicographic.StrcmpTransitive | keyvalue.core.php:60-66 | if a < b and b < c under `strcmp`, then a < c |
| Instances.ToString | keyvalue.core.php:47-49 | the display form is bracketed, and its length is the three field lengths plus the five punctuation characters of `[->=]` |
| Instances.ParseToString | keyvalue.core.php:43-49 | `[category->key=value]` is read back to the same triple whenever the category holds no `->` and the key holds no `=` |
| Instances.CompareKey | keyvalue.core.php:51-66 | the result is -1, 0 or 1; it is 0 exactly when category and key agree, whatever the values; when the categories differ, it is the category comparison alone and the key is not consulted |
| Instances.CompareKeyNegativeIffKeyLess | keyvalue.core.php:60-66 | the result is negative exactly when (category, key) comes first in dictionary order, category first |
| Instances.CompareKeyIgnoresValue | keyvalue.core.php:51-58 | changing either value does not change the comparison |
| Instances.CompareKeyAntisymmetric | keyvalue.core.php:60-66 | compareKey(a, b) is the negation of compareKey(b, a), and compareKey(a, a) is 0 |
| Instances.CompareKeyTransitive | keyvalue.core.php:60-66 | "sorts before" on (category, key) is transitive |
| KeyValueStore.New | keyvalue.core.php:86-90 | a new object belongs to the given article and has an empty pending list |
| KeyValueStore.Add | keyvalue.core.php:147-149 | exactly one triple with the given fields is appended at the end; earlier entries and the article id are unchanged |
| KeyValueStore.RowsOfWithout | keyvalue.core.php:159-162 | the delete leaves no row of the article and leaves every other article's rows in order |
| KeyValueStore.Store | keyvalue.core.php:156-175 | afterwards the article's rows read back as exactly the pending list, in order and with duplicates; every other article's rows are unchanged; the table size changes by pending count minus the article's old row count |
| KeyValueStore.StoreIdempotent | keyvalue.core.php:156-175 | storing twice with no `add` in between gives the same table as storing once |
| KeyValueStore.ByCategory | keyvalue.core.php:214-234 | every returned triple has the requested category; their number is that category's row count; a triple is returned exactly when some row of that category carries its key and value; each triple of the category is returned as many times as rows hold it, whatever the order |
| KeyValueStore.GetCategories | keyvalue.core.php:182-204 | categories in the listing are pairwise distinct; each entry's count is that category's row count and is positive; every category present in the table is listed; the counts add up to the number of rows |
| Hooks.GetInstance | keyvalue.core.php:95-103 | the first call creates an empty object for the current page; later calls return the stored object; the table is untouched |
| Hooks.GetInstanceStable | keyvalue.core.php:95-103 | once created, the singleton is returned unchanged, even to a caller on a different page |
| Hooks.Arg | keyvalue.php:126 | a missing positional argument defaults to the empty string |
| Hooks.Render | keyvalue.php:126-130 | the rendered output is the value argument; exactly one triple of the first three arguments is appended to the shared pending list; the table is untouched |
| Hooks.RenderAllAccumulates | keyvalue.php:126-130 | a sequence of render calls appends their triples, in call order, to the one shared pending list |
| Hooks.RenderAllHeld | keyvalue.php:126-130 | once the singleton exists, a run of render calls only extends its pending list by their triples; the table is unchanged |
| Hooks.StoreCurrent | keyvalue.php:94-113 | the singleton's pending list replaces its article's rows, other articles are untouched, and the result is true |
| Hooks.SaveComplete | keyvalue.php:94-98 | the save hook persists the pending list for the singleton's article, leaves other articles alone, and returns true |
| Hooks.DeleteComplete | keyvalue.php:109-113 | the delete hook performs the same store: the pending list replaces the article's rows, so a delete in a request that rendered nothing leaves the page with no rows; other pages' rows are unchanged; the hook returns true |
| Hooks.RenderThenSave | keyvalue.php:94-98 | rendering a page's calls and then saving leaves exactly those triples, in order, as the page's rows, one row per call; other pages' rows are unchanged |
| Hooks.DuplicateKeysBothStored | keyvalue.php:94-98 | for any category, key and two values, two calls with that category and key both become rows, in call order; nothing collapses them |
| Hooks.SaveIdempotent | keyvalue.php:94-98 | running the save hook twice leaves the same table as running it once |
| Hooks.ParserFirstCallInit | keyvalue.php:58-62 | `keyvalue` is bound to `keyValueRender`, other bindings are kept, and the hook returns true |
| Hooks.LanguageGetMagic | keyvalue.php:72-75 | `magicWords['keyvalue']` becomes `[0, 'keyvalue']` for every language, other words are kept, and the hook returns true |

## Left out

- `assertTable` and `createTable` (the MySQL/SQLite table check and the DDL): the table is assumed to exist.
- `wfGetDB`, `begin` and `commit`: `store` is one atomic transition on the table.
- A failed query (`if ( !$res )` in both queries returns an empty array): the model assumes the query succeeds.
- KeyValueStore.ByCategory: the category filter is plain string equality. The source builds `kvcategory = "$category"` by interpolation (keyvalue.core.php:221). A category that holds a double quote changes the query. A case-insensitive MySQL collation would also match other spellings of the category. Every MySQL collation before 8.0, the `_bin` ones included, ignores trailing spaces when comparing (PAD SPACE), so `kvcategory = "A"` also matches rows whose category is "A "; the model keeps such categories apart. SQLite reads a double-quoted token that names a column as that column, so `getByCategory('kvkey')` compares two columns and `getByCategory('kvcategory')` returns every row. None of this is modelled.
- KeyValueStore.GetCategories: categories are grouped by exact string equality. The DDL (keyvalue.core.php:134) names no collation, and under a case-insensitive MySQL collation `GROUP BY kvcategory` merges spellings such as "A" and "a" into one entry, and under a PAD SPACE collation (every MySQL collation before 8.0) it also merges "A" and "A ". The distinct-category and exact-count promises hold only for a binary NO PAD collation or SQLite's default.
- KeyValueStore.Store: fields are written verbatim, with no length limit. The columns `kvcategory` and `kvkey` are VARCHAR(255), and `kvvalue` is TEXT, which holds at most 65,535 bytes (keyvalue.core.php:134). MySQL truncates a longer field in non-strict mode and rejects the insert in strict mode. The DDL names no character set, so VARCHAR(255) means 255 characters of the column's character set: under a latin1 or binary default, UTF-8 text is limited to 255 bytes. "The article reads back as exactly the pending list" therefore holds in the database only when every category and key fits in 255 characters of the column's character set and every value fits in 65,535 bytes.
- KeyValueStore.ByCategory, KeyValueStore.GetCategories: neither query has an ORDER BY, so their contracts promise no result order. The model happens to return table order and first-appearance order, and nothing relies on either.
- Lexicographic.Strcmp: only the sign of `strcmp` is modelled. PHP before 8.2 returns a difference whose magnitude can exceed 1. Strings are sequences of characters compared by code point, which is the order of their UTF-8 bytes.
- Instances.CompareKey: the model returns -1, 0 or 1. The source returns `strcmp`'s result unchanged, so under PHP before 8.2 it can be any integer; the model's result is its sign.
- `syslog` and the `$wgTitle` lookup in `getInstance`: the article id is a parameter.
- The unused parameters of the save and delete hooks (`$article`, `$user`, `$text`, …) and of `keyValueRender` (`$parser`).
- The MediaWiki parser, which splits `{{#keyvalue:...}}` into arguments: it is not part of this repository. The model takes the argument list as given.
- keyvalue.body.php (the special page, CSV export, HTTP headers): presentation and I/O. It calls `keyValueGetCategories` and `keyValueGetByCategory`, which keyvalue.php does not define.
- keyvalue.i18n.php (a message table) and keyvalue_body.php (an unused page template).
- The extension credits, autoload and special-page registration in keyvalue.php: these are configuration arrays, not logic.
