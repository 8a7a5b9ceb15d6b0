# simpleform: verified model of the submission server

The server is a small contact-form intake service (`server.js`). `POST /submit`
checks that `name`, `email` and `message` are present and non-empty. If they
are, it inserts one row into the `submissions` table and redirects to
`/?saved=1`. `GET /submissions` selects at most 100 rows, most recent first,
and renders them as an HTML table. Before the three user fields go into the
markup, they pass through `escapeHtml`.

This project models that core in Dafny:

- `escaping.dfy` (module `Escaping`): `escapeHtml` as written, a falsy test
  followed by five chained global replacements. It is proved equal to a
  per-character entity map. From that it follows that no raw `<`, `>`, `"`
  or `'` survives, that escaping is compositional, and that a decoder
  (`Unescape`) recovers the stored text exactly, so nothing is escaped twice.
- `store.dfy` (module `Store`): the `submissions` table as a class. It holds
  the rows in insertion order (a `seq`) and the AUTOINCREMENT counter. An
  insert can fail through an injected flag.
- `listing.dfy` (module `Listing`): the listing query (`ORDER BY created_at
  DESC LIMIT 100`) and the loop that appends one `<tr>` per row.
  - The query's promise is the relation `IsRecentSelection`. `SelectRecent`
    is one answer the engine may give, proved to meet it.
  - The loop is the method `RenderPage`.
  - The row markup is shown to hold exactly the template's tags, whatever the
    stored text.
- `handlers.dfy` (module `Handlers`): the two route handlers, each with one
  store operation and one response.
- `wrappers.dfy`: an `Option` type for request fields that may be absent.

Inputs the model does not compute are parameters:

- the clock reading an insert is stamped with (`now`);
- whether the insert or the read fails (`insertFails`, `readFails`).

Three details of the code that a reader might expect otherwise:

- The listing is capped at 100 rows.
- The time column's header reads `When`.
- Validation is JavaScript truthiness: an absent field or the empty string
  is rejected; any other string, whitespace included, is accepted.

## Model

| member | source | states |
|---|---|---|
| `Escaping.EscapeHtml` | server.js:92-93 | a missing or empty input gives the empty string |
| `Escaping.ReplaceAll` | server.js:95-99 | a global replacement leaves text without the pattern character unchanged, and removes that character when the replacement lacks it |
| `Escaping.EscapeChar` | server.js:95-99 | exactly the five special characters are rewritten, each to an `&...;` entity holding no raw markup character |
| `Escaping.EscapeMap` | server.js:94-99 | the per-character map never outputs a raw `<`, `>`, `"` or `'`, and never shortens its input |
| `Escaping.ReplaceChain` | server.js:94-99 | the five global replacements, applied in the source's order (`&` first, then `<`, `>`, `"`, `'`); `ReplaceChainIsCharMap` proves what the chain computes |
| `Escaping.ReplaceAllAppend` | server.js:95-99 | one global replacement distributes over concatenation |
| `Escaping.ReplaceChainAppend` | server.js:94-99 | the chain of five replacements distributes over concatenation |
| `Escaping.ReplaceChainChar` | server.js:95-99 | on one character the chain gives that character's entity: an `&` introduced later is never rewritten again, because `&` is replaced first |
| `Escaping.ReplaceChainIsCharMap` | server.js:94-99 | the chain of replacements equals the per-character entity map |
| `Escaping.EscapeHtmlIsCharMap` | server.js:92-100 | `escapeHtml` is the per-character map of its input, with a missing input counted as empty |
| `Escaping.EscapeMapAppend` | server.js:94-99 | the per-character map is compositional |
| `Escaping.EscapeHtmlAppend` | server.js:92-100 | `escapeHtml(a + b) == escapeHtml(a) + escapeHtml(b)` |
| `Escaping.EscapeHtmlNoRawMarkup` | server.js:96-99 | the output of `escapeHtml` contains no raw `<`, `>`, `"` or `'` |
| `Escaping.EscapeMapPlain` | server.js:94-99 | text without any special character is mapped to itself |
| `Escaping.EscapeHtmlPlain` | server.js:92-100 | `escapeHtml` returns text without special characters unchanged |
| `Escaping.UnescapeEscapeChar` | server.js:95-99 | decoding an escaped character, followed by anything, gives back that character |
| `Escaping.UnescapeEscapeMap` | server.js:94-99 | decoding undoes the per-character map |
| `Escaping.EscapeHtmlRoundTrip` | server.js:92-100 | decoding the output of `escapeHtml` once restores the input: nothing is escaped twice |
| `Escaping.EscapeHtmlInjective` | server.js:92-100 | distinct values never escape to the same text |
| `Store.Store.constructor` | server.js:23-31 | a new table is empty and its first id will be 1 |
| `Store.Store.Insert` | server.js:43-47 | a failed insert changes nothing and yields no id; a successful one appends exactly one row with the given fields and timestamp, and an id above every existing id |
| `Handlers.Truthy` | server.js:39 | JavaScript truthiness of a request field: present and not the empty string |
| `Handlers.AllPresent` | server.js:39 | the validation passes exactly when all three of `name`, `email` and `message` are truthy |
| `Handlers.Submit` | server.js:35-53 | 400 exactly when a field is absent or empty, with the store unchanged; on an insert failure, 500 with the store unchanged; otherwise one new row with those values and a larger id, then a redirect to `/?saved=1`; the id order and the all-fields-filled invariant are kept |
| `Listing.InsertByRecency` | server.js:57 | inserting a row into an ordered answer adds exactly that row |
| `Listing.InsertByRecencySorted` | server.js:57 | inserting into an answer ordered most recent first keeps it ordered |
| `Listing.SortByRecency` | server.js:57 | `ORDER BY created_at DESC` returns a permutation of the table, ordered most recent first |
| `Listing.IsRecentSelection` | server.js:57 | what `ORDER BY created_at DESC LIMIT 100` promises of an answer: `min(n, 100)` rows drawn from the table, ordered by non-increasing `created_at`, with no row left out that is more recent than a row selected; rows with equal timestamps may come in any order |
| `Listing.SelectRecent` | server.js:57 | one answer the query allows: exactly `min(n, 100)` rows taken from the table, ordered by non-increasing `created_at`; `SelectRecentIsRecentSelection` shows that `IsRecentSelection` can be met |
| `Listing.SortedPrefixIsRecent` | server.js:57 | cutting an ordered answer at the limit keeps the order, and no row left out is more recent than a row kept |
| `Listing.SelectRecentIsRecentSelection` | server.js:57 | the sample answer `SelectRecent` meets the query's promise: it holds `min(n, 100)` table rows, ordered by non-increasing `created_at`, and omits no row more recent than one it holds |
| `Listing.NewestRowListedFirst` | server.js:57 | in every answer the query may give, a row strictly newer than all others comes first |
| `Listing.SortOfIncreasing` | server.js:57 | rows stored at strictly increasing times are ordered in reverse insertion order |
| `Listing.RecentSelectionOfIncreasing` | server.js:57 | after submissions A, B, C at increasing times, every answer the query allows is C, B, A: the last `min(n, 100)` submissions, newest first, so the page `ListSubmissions` sends lists them in that order |
| `Listing.SelectRecentOfIncreasing` | server.js:57 | the sample answer `SelectRecent` agrees: over increasing times it is the last `min(n, 100)` submissions, newest first |
| `Listing.DecimalText` | server.js:79 | the id is printed as a non-empty text with no markup character |
| `Listing.TimeText` | server.js:83 | the `created_at` cell holds a non-empty text with no markup character: the decimal text of the abstract timestamp (see "## Left out" for SQLite's format) |
| `Listing.RowHtml` | server.js:78-84 | the row template with the id, the three escaped user fields and the timestamp in five cells; a row always ends with the `>` of its `</tr>` |
| `Listing.RowsHtml` | server.js:77-85 | what the loop has appended after a prefix of the selection: one `RowHtml` per row, in order |
| `Listing.Page` | server.js:63-86 | the document sent: the fixed head with the header row, the rows, then `</table></body></html>` |
| `Listing.RenderPage` | server.js:63-86 | the loop builds the fixed head, then one row per selected submission in order, then the foot |
| `Listing.RowHtmlOccurrences` | server.js:78-84 | for any tag, a rendered row holds it as often as the row template does, whatever the stored values |
| `Listing.RowsHtmlOccurrences` | server.js:77-85 | the appended rows hold each tag once per row for each occurrence in the template |
| `Listing.RowsHtmlOpenRows` | server.js:77-85 | exactly one `<tr>` is rendered per selected row |
| `Listing.RowsHtmlCloseRows` | server.js:77-85 | exactly one `</tr>` is rendered per selected row |
| `Listing.RowsHtmlOpenCells` | server.js:77-85 | exactly five `<td>` are rendered per selected row |
| `Listing.RowTagCountForeign` | server.js:78-84 | any tag other than `<tr>`, `<td>`, `</td>`, `</tr>` does not occur in the row template |
| `Listing.RowsHtmlNoForeignTags` | server.js:80-82 | no stored value can inject a tag the template lacks: every tag other than `<tr>`, `<td>`, `</td>` and `</tr>` (`<b>`, `</table>` or `<script>`, say) occurs zero times in the rendered rows |
| `Handlers.ListSubmissions` | server.js:56-89 | a read failure gives 500; otherwise 200 with the page rendered from whichever answer the engine gives within the query's promise, holding one `<tr>` per selected row |
| `Handlers.SubmittedRowListedFirst` | server.js:43-57 | a submission stamped after every stored row heads the next listing, in every answer the query allows |

## Left out

- Express setup, route registration, body parsing and the static file server (server.js:2-13) are framework wiring. Each handler is a method called with the parsed body.
- Request fields are modelled as optional strings. Request fields that are not strings (JSON values, or an array from a repeated form key) are not modelled; they are passed to `stmt.run` (server.js:44) as they are.
- The SQLite engine is not modelled: opening the file, `process.exit` on failure, prepared statements and `finalize` (server.js:16-21, 43, 52). The table is a sequence of rows. The constructor models `CREATE TABLE` on a first run: an empty table whose AUTOINCREMENT starts at 1. When the table already exists, the handlers accept any store that satisfies `Valid()`. Failures are injected flags, and a failed insert leaves the store and its id counter unchanged.
- `CURRENT_TIMESTAMP` is not modelled. `created_at` is an abstract ordered instant (`nat`) passed in as `now`, and `TimeText` prints it as a decimal number instead of SQLite's `YYYY-MM-DD HH:MM:SS` text.
- The relative order of rows with equal `created_at` is not claimed. `IsRecentSelection` allows any order among them. `ListSubmissions` and `SubmittedRowListedFirst` take the engine's answer as a parameter and require only that relation. `SelectRecent` is one answer that meets it.
- Console logging, asynchronous callback scheduling and `app.listen`/`PORT` (server.js:46, 59, 102-105) are I/O and runtime concerns.
- The CSS and HTML boilerplate (server.js:63-76) is kept as the constant `PageHead`, but no property of it is proved.
- Listing.RowsHtmlOpenRows: counts `<tr>` in the appended rows only. The fixed page head holds one more, for the header row, and this is not counted.
- Handlers.SubmittedRowListedFirst: assumes the new row's timestamp is strictly later than every stored one. Rows stamped in the same second have no defined order.
