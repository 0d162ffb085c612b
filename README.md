# vecsearch server core, modelled in Dafny

This project models the deterministic core of the vecsearch search service (`server.js`). The service keeps records in a RediSearch index and answers InstantSearch queries. The model covers:

- **Index creation** (`/api/index`): `getType` maps a declared field type to a backend type. The schema is built from the request's `fields` object, and a TAG attribute `__uid` is always added. The index is named `idx:<name>` and its records are keyed under the prefix `vs:<name>` (module `Schema`).
- **CSV upload** (`/api/upload`): the field metadata is rebuilt from the index's FT.INFO attributes. `addData` turns one row into one record: NUMERIC cells are coerced by `parseMaybeCurrency`, and every other cell is sanitised. The `on('data')` handler takes the first row as headers and writes one record per later row (modules `Upload`, `Coercion`).
- **InstantSearch reply** (`formatAlgolia`): search documents are reshaped into an Algolia result object (module `Algolia`).

Module `JsValues` holds the JavaScript semantics these need. It covers JSON-like values, truthiness, property reads that throw on `null`/`undefined`, and the object that a `reduce` builds with `a[k] = v`. All three reduces in the source share this one last-wins fold (`Assign`).

Redis, Minio and the HTTP layer are not modelled. Index creation is returned as a `CreateIndex` request value. Each `rc.hSet` is returned as a `Write` value. FT.INFO attributes and search documents are inputs. `uuid.v4()` results are given as the `uids` parameter.

Three behaviours of this version of the code are easy to expect otherwise, and the model follows the code in each:

- A field declared `VECTOR` becomes a single TEXT attribute (`Schema.VectorFieldIsText`). There is no vector shadow attribute in this version.
- `parseMaybeCurrency` gives NaN for malformed text such as `"1.2.3"` or `"-"`. Malformed text gives 0 only when no digit, `.` or `-` survives stripping (`Coercion.TwoDecimalPointsIsNaN`, `Coercion.NoDigitsIsZero`); well-formed text such as `"0"` or `"$0.00"` gives 0 as its value.
- CSV ingestion matches headers to fields by exact name and reads cells by column position. There is no dotted-name normalisation. Every record gets a freshly generated uid.

`fields[h]` in `addData` (server.js:178) also finds members inherited from Object.prototype (see Findings). `Upload.AddDataAsWritten` models that lookup as written. `Upload.AddData` and `Upload.UploadRows` model the intended lookup, which finds only the index's own attributes (`Upload.FieldFor`); the two agree whenever no header names an inherited member (`Upload.AsWrittenAgreesWithoutInheritedHeaders`).

## Model

| member | source | states |
|---|---|---|
| `JsValues.Prop` | server.js:109-110 | Reading `v.type` or `v.sortable` on a non-object gives `undefined`. On an object it gives the own property of that name, or `undefined` when there is none. |
| `JsValues.Truthy` | server.js:110 | `!!v` and `if (v)` are false exactly for `undefined`, `null`, `false`, NaN, 0 and the empty string; `null` and `undefined` are never truthy. |
| `JsValues.Assign` | server.js:107-113 | The object a reduce builds with `a[k] = v` has exactly the keys that some step assigns. |
| `JsValues.AssignLastWins` | server.js:177-187 | A key's value is the one stored by the last step that assigns it. |
| `JsValues.AssignHasLast` | server.js:164-170 | Every key of the built object has a last assignment, so the keys and the last-wins rule fix the whole object. |
| `Coercion.KeepOnly` | server.js:298 | Removing the characters outside a class leaves only characters of the class and never lengthens the text. |
| `Coercion.KeepOnlyAppend` | server.js:298 | Filtering commutes with concatenation, so kept characters keep their order. |
| `Coercion.KeepOnlyUnchanged` | server.js:183 | A text is unchanged by filtering exactly when all its characters belong to the class. |
| `Coercion.KeepOnlyIdempotent` | server.js:183 | Filtering twice equals filtering once. |
| `Coercion.KeepOnlyNone` | server.js:298 | A text with no character of the class filters to the empty string. |
| `Coercion.StripNonNumeric` | server.js:298 | The stripped text holds only `0-9`, `.` and `-`, and text made only of those is returned unchanged. |
| `Coercion.Sanitize` | server.js:183 | The sanitised cell holds only `[A-Za-z0-9_]`, JavaScript whitespace and `-`, and a cell made only of those is returned unchanged. |
| `Coercion.KeepOnlyCounts` | server.js:298 | Filtering keeps every occurrence of each kept character and drops every occurrence of the others. |
| `Coercion.DecimalValue` | server.js:298 | The value of `whole.frac` is non-negative, and with no fractional digits it is the value of `whole`. |
| `Coercion.UnsignedDecimal` | server.js:298 | A decimal literal without sign or exponent has a non-negative value. A digit string has its decimal value, the empty text has none, and text containing `-` has none. |
| `Coercion.StringToNumber` | server.js:298 | `Number()` on a stripped string is 0 for the empty string. It is NaN exactly when the text, after one leading `-`, is not an unsigned decimal literal; otherwise it is that literal's value, negated after a leading `-`. |
| `Coercion.DecimalLiteralValue` | server.js:298 | Digits, `.` and digits, with at least one digit, denote whole + frac / 10^\|frac\|. |
| `Coercion.NumberOfPrice` | server.js:298 | `Number()` reads an optionally signed price `d.ff` back to its value. |
| `Coercion.PriceRoundTrip` | server.js:296-301 | An optionally signed price with a fractional part, surrounded by text with no digit, `.` or `-` (`"$-12.50 USD"`), coerces to its value. |
| `Coercion.ParseMaybeCurrency` | server.js:296-301 | Non-strings are returned unchanged. Strings always become numbers. |
| `Coercion.StripNonNumericProperties` | server.js:298 | The stripped text holds only `0-9`, `.` and `-`. It keeps their order and is a fixed point of stripping. |
| `Coercion.ParseMaybeCurrencyOfStripped` | server.js:296-301 | Coercing already-stripped text gives the same number as coercing the original text. |
| `Coercion.SanitizeProperties` | server.js:183 | A sanitised cell holds only `[A-Za-z0-9_]`, JavaScript whitespace and `-`. It keeps their order, is idempotent, and leaves clean cells unchanged. |
| `Coercion.CurrencyRoundTrip` | server.js:296-301 | The decimal digits of any natural number n, surrounded by text with no digit, `.` or `-`, coerce back to n. |
| `Coercion.DollarPriceExample` | server.js:296-301 | `"$19.99"` strips to `"19.99"` and coerces to 19.99. |
| `Coercion.TwoDecimalPointsIsNaN` | server.js:298 | `"1.2.3"` coerces to NaN, not to 0. |
| `Coercion.NoDigitsIsZero` | server.js:298 | Text with nothing numeric in it (`"n/a"`) coerces to 0. |
| `Coercion.LoneSignIsNaN` | server.js:298 | `"-"` coerces to NaN. |
| `Schema.TypeName` | server.js:280-294 | Each backend type constant's string maps back to that type through `getType`. |
| `Schema.GetType` | server.js:280-294 | The result is TAG exactly for the string "TAG" and NUMERIC exactly for "NUMERIC". Every other input, "TEXT", "VECTOR" and non-strings included, gives TEXT. It never fails. |
| `Schema.CompileField` | server.js:108-111 | A declared field compiles to TAG exactly when its `type` is the string "TAG" and to NUMERIC exactly when it is "NUMERIC"; it is sortable exactly when it is an object whose `sortable` is truthy. |
| `Schema.IndexSchema` | server.js:107-116 | Throws exactly when a declared field's value is null or undefined. Otherwise the keys are the declared names plus `__uid`, and `__uid` is `{type: TAG}` with no sortable, even when the user declared `__uid`. |
| `Schema.IndexSchemaEntry` | server.js:107-113 | Every other declared field gets `getType(v.type)` and the truthiness of `v.sortable`. |
| `Schema.VectorFieldIsText` | server.js:107-116 | A field declared VECTOR compiles to one TEXT attribute that is not sortable. |
| `Schema.SortableIsTruthiness` | server.js:110 | `sortable: "false"` makes a field sortable, because `!!` tests truthiness. |
| `Schema.IndexKey` | server.js:121 | The index name starts with `idx:` and the rest is exactly the given name. |
| `Schema.RecordPrefix` | server.js:106 | The record prefix starts with `vs:` and the rest is exactly the index name. |
| `Schema.CreateIndexRequest` | server.js:121-124 | FT.CREATE gets the compiled schema, `ON HASH`, the `idx:` name and the `vs:` prefix. It fails exactly when the schema reduce throws. |
| `Upload.FieldsFromInfo` | server.js:164-170 | The field metadata has exactly the attribute names as keys. |
| `Upload.FieldsFromInfoEntry` | server.js:164-170 | Each name holds its attribute's type and sortable. A later duplicate attribute overwrites an earlier one. |
| `Upload.FieldForAsWritten` | server.js:178-179 | As written, `fields[h]` finds a value exactly for the index's own attributes and the names a plain object inherits from Object.prototype. An own attribute gives its metadata; an inherited name gives a value with no `type` or `sortable`. |
| `Upload.InheritedView` | server.js:178-179 | The metadata as the written lookup sees it: the own attributes unchanged, plus one entry per header naming an inherited member, and for every header the intended lookup on it agrees with the written lookup on the metadata. |
| `Upload.AddDataAsWritten` | server.js:176-191 | With the lookup as written: throws exactly when a column whose header the lookup finds, and which is not NUMERIC, has no cell. Otherwise the record's keys are the headers the lookup finds, plus `__uid`, which holds the uid; the key is `<prefix>:<uid>`. |
| `Upload.AsWrittenAgreesWithoutInheritedHeaders` | server.js:176-191 | When no header names an inherited member, `addData` as written and with the intended lookup give the same result. |
| `Upload.InheritedHeaderIsTakenForField` | server.js:178-183 | A header "constructor" with no such index field: as written, the record stores the sanitised cell under "constructor". With the intended lookup the record has no such key. |
| `Upload.FieldFor` | server.js:178-179 | The intended lookup finds a field exactly when the index has an attribute with that name. |
| `Upload.RowThrows` | server.js:183 | `row[i].replace` throws only for a row shorter than the headers, never when every declared header is NUMERIC. |
| `Upload.CellValue` | server.js:180-184 | A NUMERIC field's value is a number, or `undefined` past the end of the row. Any other field's value is the sanitised cell. |
| `Upload.RecordKey` | server.js:190 | The record key is the prefix, `:` and the uid, and the uid can be read back from the key. |
| `Upload.RecordKeyInjective` | server.js:188-190 | Under one prefix, distinct uids give distinct record keys. |
| `Upload.AddData` | server.js:176-191 | With the intended lookup (own attributes only): throws exactly when a declared non-NUMERIC column has no cell. Otherwise the record's keys are exactly the headers that name declared fields, plus `__uid`. `__uid` holds the uid, and the key is `<prefix>:<uid>` with the same uid. |
| `Upload.AddDataValue` | server.js:177-187 | A declared header's value comes from its last column: the sanitised cell, or `parseMaybeCurrency` of the cell for NUMERIC fields. |
| `Upload.RecordKeysAreDeclared` | server.js:177-189 | Every record key is a header that names a declared field, or `__uid`. |
| `Upload.RepeatedHeaderLaterWins` | server.js:177-187 | With headers `name,name` and cells `a,b`, the record stores `b`. |
| `Upload.UploadRows` | server.js:193-201 | With `addData` under the intended lookup: the first row becomes the headers and writes nothing. Each later row writes exactly `addData` of that row, in row order, so n rows give n-1 writes unless a row throws. A throw stops the stream at that row. Distinct uids give distinct keys. |
| `Algolia.HitOf` | server.js:244-245 | A hit's name is the document's `product_name` and its description its `technical_details`, each `undefined` when the document has no such field. |
| `Algolia.Hits` | server.js:243-246 | There is one hit per document, in document order, and hit i is built from document i. |
| `Algolia.FormatAlgolia` | server.js:240-278 | Throws exactly when there is no first request or it has no `params`. Otherwise hit i is `{name: product_name, description: technical_details}` of document i, `nbHits = hitsPerPage = \|documents\|`, `nbPages = 1`, `page = 0`, and `query` is `requests[0].params.query`. |

## Findings

| source | as written | input that shows it | evidently intended | confidence | as-written member | corrected member |
|---|---|---|---|---|---|---|
| server.js:178-179 | `const field = fields[h]; if (field)` looks the header up on a plain object, so inherited Object.prototype members (`constructor`, `toString`, `valueOf`, ...) count as declared fields | CSV header `constructor` on an index without a `constructor` attribute: the cell is sanitised and stored under `constructor` | only the index's own attributes are stored (an own-property test) | high; not executed | `Upload.InheritedHeaderIsTakenForField` | `Upload.FieldFor` |

## Left out

- Express routing, middleware, request ids, winston logging and HTTP status codes (server.js:52-101, 144-160, 224-238) are I/O plumbing. The "Index already exists" branch only changes a log line.
- The Redis client (`connect`, `ft.create`, `ft.search`, `ft.info`, `hSet`) is a foreign store. Its requests are returned as values and its replies are inputs. How `hSet` treats an `undefined` value, which a NUMERIC column past the end of a row produces, is outside the model.
- The Minio upload (`fPutObject`) and the Algolia client set-up are external services.
- csv-parse, `fs.createReadStream`, the `end` handler and the `Promise.all` join are I/O and concurrency. Rows are given as already-split sequences.
- Upload.UploadRows: stops at the row whose `addData` throws. What the runtime does next with the uncaught exception (stream error, process exit) is not modelled.
- `uuid.v4()` is randomness. Its values are the `uids` parameter.
- Coercion.StringToNumber: gives the exact rational value of the decimal text instead of the nearest IEEE-754 double. Very long digit strings therefore never become Infinity, and `"-0"` is 0.
- Object keys named `__proto__` are not modelled. Assigning one on a plain object replaces the object's prototype instead of adding a key. The model treats `__proto__` as an ordinary key.
- Schema.RecordPrefix: takes the index name as a string. In the source a request without `indexName` makes `'vs:' + indexName` (server.js:106) the string `vs:undefined`, and the index `idx:undefined`; a missing name is not modelled.
- Schema.IndexSchema: the schema is a map, so the order of attributes passed to FT.CREATE is not modelled. A `fields` value that is not an object, and a `requests` value that is not an array, are not modelled either.
- Dafny characters are Unicode scalar values. A lone UTF-16 surrogate in a cell cannot be represented. Surrogate pairs are removed whole by both filters, as in JavaScript.
- vsclient/src/features/search/SearchResults.js (React UI) and vsclient/src/features/search/searchSlice.js (fixed HTTP calls) are not part of this model.
- KNN/hybrid query compilation, embeddings, parent-chunk aggregation and deletion sweeps do not exist in this source, so nothing models them.
