# states-crawler, modelled in Dafny

The crawler reads three Portuguese Wikipedia pages that list the
municipalities of São Paulo, Rio de Janeiro and Minas Gerais. From each list
page it schedules one request per city link. From each city page it builds one
`City` record out of the page's infobox, and it hands every record to two
writers. Each writer groups the records by a normalised state key: one JSON
array per key, and one CSV table per key.

This project models the three parts of that pipeline and proves what each one
promises.

| file | module | what it models |
|---|---|---|
| `items.dfy` | `Items` | the `City` record; its eight string fields are in declaration order |
| `strings.dfy` | `Strings` | the string operations the code uses: `strip()` and the whitespace it removes, single-character `replace(c, '')`, the substring test of XPath `contains` and `posixpath.join`; also the separator join that lays out a JSON stream |
| `cities.dfy` | `Cities` | the spider: `extract_text`, `parse` (list page to requests) and `parse_city` (detail page to one `City`) |
| `pipelines.dfy` | `Pipelines` | the state-key normaliser; `JsonWriterPipeline` and `CSVWriterPipeline` as classes whose per-key streams are in-memory buffers; the identity `ActivityPipeline` |

Each writer's operations are `method`s on a class. The class's `Valid()`
invariant ties its state to the ghost `history` of the records processed so
far:
- There is one stream per key seen, and no other.
- Each key's stream holds exactly the records routed to that key, in arrival order. JSON adds the bracket and separators; CSV adds the header row.
- Each stream was opened on the path chosen by its key's first record.

Each method's `ensures` gives the new map outright, and lemmas over plain
values (`JsonStreamsWrite`, `CsvStreamsWrite`, `JsonStreamsClose`) prove that
the invariant is preserved.

The spider is pure. Its parts are functions over explicit values that stand in
for the XPath engine:
- A list page is the sequence of `td[2]/a` anchors, each with an optional text and an optional `href`.
- An infobox is a sequence of rows. Each row carries the texts its `contains(text(), …)` predicate tests, and the optional first texts of its second cell, of that cell's span and of that cell's anchor.

The text `json.dump` writes for one record is a parameter `encode`, required to
be non-empty. The Unicode NFKD decomposition is a per-character parameter
`decompose`. The general lemmas assume at most that it leaves ASCII characters
alone (`KeepsAscii`). `SaoPauloKey` also assumes that "ã" decomposes to "a"
followed by U+0303.

NFKD also reorders combining marks, so on its own it is not a per-character
map. A per-character map followed by dropping every non-ASCII character still
gives the key NFKD gives, because the marks it reorders are non-ASCII and are
dropped anyway.

Three details of the code that the model keeps:
- An empty state is stored under the key `""`; only its file is named `error.json` / `error.csv` (`activity/pipelines.py:79-91`).
- A page without an infobox does not raise. `xpath` on an empty selection yields nothing, so `get(default='')` gives `""` and every field is `""` (`activity/spiders/cities.py:57`, `84`).
- Rows are taken from every table whose class contains `infobox`, in document order (`activity/spiders/cities.py:57`).

## Model

| member | source | states |
|---|---|---|
| `Strings.IsSpace` | activity/spiders/cities.py:85 | definition: the characters `strip()` removes, written out by code point (they include NBSP and newline) |
| `Strings.Strip` | activity/spiders/cities.py:85 | `strip()` never lengthens its input, and a non-empty result has no whitespace at either end |
| `Strings.StripIsSlice` | activity/spiders/cities.py:85 | `strip()` returns a contiguous slice of its input; everything removed before and after it is whitespace |
| `Strings.Delete` | activity/spiders/cities.py:85 | `replace(c, '')` never lengthens its input, and `c` no longer occurs in the result |
| `Strings.DeleteMembers` | activity/spiders/cities.py:85 | a character is in the result of `replace(c, '')` exactly when it was in the input and is not `c` |
| `Strings.DeleteAbsent` | activity/spiders/cities.py:85 | `replace(c, '')` leaves a string that has no `c` unchanged |
| `Strings.DeleteAppend` | activity/spiders/cities.py:85 | `replace(c, '')` distributes over concatenation |
| `Strings.DeleteKeepsEnds` | activity/spiders/cities.py:85 | when neither end of the input is `c`, `replace(c, '')` keeps both end characters |
| `Strings.Contains` | activity/spiders/cities.py:62-67 | definition: XPath `contains(hay, needle)`, `needle` occurring as a contiguous slice of `hay` |
| `Strings.PathJoin` | activity/pipelines.py:84-87 | `os.path.join` on POSIX: the result ends in the file name; an absolute file name is the whole result; otherwise the result is the directory, an optional `/`, then the name |
| `Strings.JoinNonEmpty` | activity/pipelines.py:97-101 | joining non-empty parts gives a string at least as long as the first part |
| `Cities.Clean` | activity/spiders/cities.py:85 | the cleaned text has no NBSP, no newline and no whitespace at either end; it is empty exactly when the stripped text is empty; it keeps the stripped text's end characters |
| `Cities.CleanStripped` | activity/spiders/cities.py:85 | after `strip()`, deleting NBSP and then newline removes only interior characters: the ends survive and the result is clean |
| `Cities.CleanFixpoint` | activity/spiders/cities.py:85 | cleaning returns a string unchanged exactly when that string is already clean (both directions) |
| `Cities.CleanIdempotent` | activity/spiders/cities.py:85 | cleaning twice is cleaning once |
| `Cities.Select` | activity/spiders/cities.py:84 | `get()` finds nothing exactly when no row is hit; otherwise it returns the chosen text of the first row that is hit |
| `Cities.ExtractText` | activity/spiders/cities.py:73-85 | the result is always clean; it is `""` when the query matches nothing; an already-clean match comes back as it is |
| `Cities.SelectFirstHit` | activity/spiders/cities.py:84 | when row `i` is the first row hit, `get()` returns that row's chosen text |
| `Cities.Truthy` | activity/spiders/cities.py:38 | definition: Python truthiness of an optional string, present and non-empty |
| `Cities.IsLink` | activity/spiders/cities.py:38 | definition: `if name and href`, both the anchor's text and its `href` truthy |
| `Cities.ToRequest` | activity/spiders/cities.py:40-43 | a request's URL extends `BASE_URL` strictly, and its `city_name` is non-empty |
| `Cities.Parse` | activity/spiders/cities.py:32-44 | `parse` yields no more requests than there are anchors; every URL extends `https://pt.wikipedia.org` and every `city_name` is non-empty |
| `Cities.ParseAppend` | activity/spiders/cities.py:34-44 | requests come out in document order: parsing a concatenation gives the concatenation of the results |
| `Cities.ParseMembership` | activity/spiders/cities.py:35-44 | a request is yielded exactly when some anchor with a non-empty text and `href` maps to it: URL `BASE_URL + href`, `city_name` the anchor text |
| `Cities.ParseKeepsAll` | activity/spiders/cities.py:38 | no anchor is skipped exactly when every anchor has both a text and an `href` |
| `Cities.ParseSkipsRowWithoutHref` | activity/spiders/cities.py:38-44 | an anchor without an `href` between two good ones is skipped; the other two are kept, in order |
| `Cities.ParseCity` | activity/spiders/cities.py:56-71 | exactly one `City` per page; its `name` is the request's `city_name` and its `url` is the response URL; all six data fields are clean; with no infobox rows, all six are `""` |
| `Cities.QueryFor` | activity/spiders/cities.py:62-67 | every field's label substring is non-empty; only the state reads the cell's anchor text and only the density reads its span text, all others the cell's own text |
| `Cities.FieldFromFirstHit` | activity/spiders/cities.py:62-67 | a field is the cleaned text of the first row whose label contains the field's substring and which has the text the field reads |
| `Cities.FieldEmptyWithoutHit` | activity/spiders/cities.py:62-67 | a field that no row provides is `""` |
| `Cities.PopulationLabelMatches` | activity/spiders/cities.py:64 | labels match by substring: the needle "Popula" selects a row labelled "População" |
| `Pipelines.Nfkd` | activity/pipelines.py:79 | definition: `unicodedata.normalize('NFKD', s)` as the per-character map `decompose` |
| `Pipelines.AsciiOnly` | activity/pipelines.py:79 | `.encode('ASCII', 'ignore').decode('utf-8')` never lengthens its input |
| `Pipelines.Lower` | activity/pipelines.py:79 | `.lower()` on ASCII text keeps its length |
| `Pipelines.Underscored` | activity/pipelines.py:79 | `.replace(' ', '_')` keeps the length |
| `Pipelines.StateKey` | activity/pipelines.py:79 | an empty state gives the empty key |
| `Pipelines.AsciiOnlyIsAscii` | activity/pipelines.py:79 | `encode('ASCII', 'ignore')` leaves only ASCII characters and never lengthens its input |
| `Pipelines.KeyCharsOfAscii` | activity/pipelines.py:79 | `lower()` then `replace(' ', '_')` on ASCII text keeps its length and leaves no upper-case letter and no space |
| `Pipelines.StateKeyShape` | activity/pipelines.py:79 | every key is ASCII, lower-case and free of spaces, and no longer than the decomposed state |
| `Pipelines.NfkdOfAscii` | activity/pipelines.py:79 | NFKD leaves ASCII text unchanged |
| `Pipelines.AsciiOnlyOfAscii` | activity/pipelines.py:79 | dropping non-ASCII characters leaves ASCII text unchanged |
| `Pipelines.KeyIsFixed` | activity/pipelines.py:79 | lower-casing and underscoring leave a string of key characters unchanged |
| `Pipelines.StateKeyIdempotent` | activity/pipelines.py:79 | normalising a key again gives the same key |
| `Pipelines.NfkdAppend` | activity/pipelines.py:79 | the per-character decomposition distributes over concatenation |
| `Pipelines.AsciiOnlyAppend` | activity/pipelines.py:79 | dropping non-ASCII characters distributes over concatenation |
| `Pipelines.LowerAppend` | activity/pipelines.py:79 | `lower()` distributes over concatenation |
| `Pipelines.UnderscoredAppend` | activity/pipelines.py:79 | `replace(' ', '_')` distributes over concatenation |
| `Pipelines.StateKeyAppend` | activity/pipelines.py:79 | the key of a concatenation is the concatenation of the keys |
| `Pipelines.StateKeyOfKeyChars` | activity/pipelines.py:79 | a string made only of key characters is its own key |
| `Pipelines.StateKeyOfAsciiChar` | activity/pipelines.py:79 | one ASCII character's key is that character lower-cased, with a space turned into `_` |
| `Pipelines.StateKeyOfAccented` | activity/pipelines.py:79 | a character that decomposes into a lower-case ASCII letter and a combining mark keeps only the letter |
| `Pipelines.StateKeyCons` | activity/pipelines.py:79 | a key is built character by character: the first character's key, then the rest's |
| `Pipelines.SaoPauloKey` | activity/pipelines.py:79 | "São Paulo" is filed under "sao_paulo" when NFKD splits "ã" into "a" and a combining tilde |
| `Pipelines.FileName` | activity/pipelines.py:82-87 | definition: `error<ext>` for an empty state, `<key><ext>` otherwise |
| `Pipelines.FilePath` | activity/pipelines.py:82-87 | definition: the file name joined to the output directory with `PathJoin` |
| `Pipelines.FilePathShape` | activity/pipelines.py:82-87 | a path ends in its file name; an absolute file name is the whole path; an empty state opens `<dir>/error<ext>` |
| `Pipelines.AbsoluteStatePath` | activity/pipelines.py:86-87 | the state "/x" keeps its `/` in the key, so its JSON stream is opened on "/x.json" and not under `output_json` |
| `Pipelines.ErrorPathShared` | activity/pipelines.py:82-91 | an empty state gets the key `""` but the path `<dir>/error<ext>`; the raw state "error" gets another key on the same path |
| `Pipelines.KeysOfRouted` | activity/pipelines.py:90 | a key has been seen exactly when at least one record was routed to it |
| `Pipelines.PathsChosenAppend` | activity/pipelines.py:82-91 | open-if-absent: a key's path is chosen by its first record and never changed afterwards |
| `Pipelines.Encodings` | activity/pipelines.py:101 | one encoding per record |
| `Pipelines.JsonDocAppend` | activity/pipelines.py:92-101 | a JSON stream grows by `",\n"` and the record, except for the first record, which gets no separator |
| `Pipelines.JsonTellTest` | activity/pipelines.py:96-98 | with non-empty encodings, `tell() > 2` holds exactly when the stream already holds a record |
| `Pipelines.JsonStreamNext` | activity/pipelines.py:90-101 | one `process_item` step on a key's stream (opening `"[\n"`, or a separator, then the record) gives the document of that key's records plus the new one |
| `Pipelines.JsonContentsWrite` | activity/pipelines.py:90-101 | after a write, every JSON stream still holds exactly its key's records; only the written key's stream changes |
| `Pipelines.JsonStreamsWrite` | activity/pipelines.py:79-101 | an open stream is past its two-character opening, and the writer's invariant holds after the write |
| `Pipelines.JsonStreamsClose` | activity/pipelines.py:62-65 | appending `"\n]"` to every stream gives the closed form of the invariant |
| `Pipelines.JsonClosed` | activity/pipelines.py:62-65 | after `close_spider`, a key's file is `"[\n"` + the key's record encodings joined by `",\n"` + `"\n]"`, and at least one record was routed to it |
| `Pipelines.CloseStreams` | activity/pipelines.py:62-65 | the loop over the open streams appends `"\n"` and then `"]"` to each of them, and opens or drops none |
| `Pipelines.JsonWriterPipeline.constructor` | activity/pipelines.py:37-42 | the output directory is `output_json` and no stream is open |
| `Pipelines.JsonWriterPipeline.ProcessItem` | activity/pipelines.py:68-103 | only the record's key's stream changes: `"[\n"` or `",\n"` and then the record; a path is added only for a new key; the invariant holds; the item is returned unchanged |
| `Pipelines.JsonWriterPipeline.CloseSpider` | activity/pipelines.py:55-65 | every stream gains `"\n]"`; keys and paths are unchanged; the writer is closed |
| `Pipelines.CsvRow` | activity/pipelines.py:173-175 | a data row has as many fields as the header `HEADER` of line 170, which is 8 |
| `Pipelines.CsvRowsDecode` | activity/pipelines.py:173-175 | each data row reads back as its record, with the fields in order name, state, distance, population, area, density, HDI, URL |
| `Pipelines.CsvTableRows` | activity/pipelines.py:165-175 | a key's table has the header first and only there, followed by one row per record, each of the header's width and reading back as its record |
| `Pipelines.CsvContentsWrite` | activity/pipelines.py:165-175 | after a write, every CSV writer still holds the header and its key's rows; only the written key's table changes |
| `Pipelines.CsvStreamsWrite` | activity/pipelines.py:154-175 | the header is written on a key's first record only, and the writer's invariant holds after the write |
| `Pipelines.CsvWriterPipeline.constructor` | activity/pipelines.py:113-119 | the output directory is `output_csv`, and there are no streams and no writers |
| `Pipelines.CsvWriterPipeline.ProcessItem` | activity/pipelines.py:143-177 | only the record's key's table changes: the header if the key is new, then the record's row; a path is added only for a new key; the invariant holds; the item is returned unchanged |
| `Pipelines.CsvWriterPipeline.CloseSpider` | activity/pipelines.py:132-140 | nothing more is written; the writer is closed |
| `Pipelines.ActivityPipeline.ProcessItem` | activity/pipelines.py:16-27 | the item is returned unchanged |

## Left out

- `Pipelines.Nfkd`: NFKD is a per-character parameter, not Unicode's decomposition table, and the canonical reordering of combining marks is not modelled. Neither changes a key, since the marks are dropped. `SaoPauloKey` assumes only that "ã" decomposes to "a" plus U+0303 and that ASCII is left alone.
- `Pipelines.Lower`: lower-cases ASCII letters only. It is applied after the non-ASCII characters are gone, so this is the whole of `str.lower()` there.
- `Pipelines.JsonWriterPipeline.ProcessItem`: the text of one record comes from the parameter `encode`, not from `json.dump(..., ensure_ascii=False, indent=4)`.
- `Pipelines.JsonWriterPipeline.ProcessItem`: `tell()` counts bytes and the model counts characters. Both start from the 2-character `"[\n"`, and encodings are non-empty, so the `> 2` test comes out the same. Newline translation on Windows is not modelled.
- `Pipelines.CsvWriterPipeline.ProcessItem`: a row is the list of its fields. The `csv` module's quoting and line terminators are not modelled.
- `Pipelines.CsvWriterPipeline.CloseSpider` and `Pipelines.JsonWriterPipeline.CloseSpider`: closing a file handle is modelled only as the `closed` flag. `process_item` requires an open writer, as in Scrapy's lifecycle, where no item reaches a pipeline after `close_spider`. What the code would do in that case is not modelled: write to a closed file for a known key, or open a fresh file for a new one.
- File-system effects (`open_spider`'s `os.makedirs`, `open`, `seek`, `close`) are not modelled. Streams are buffers, and a path is recorded but no file is created. Two keys that share a path (`ErrorPathShared`) hold separate buffers, so the truncation caused by the second `'w'` open is stated, not simulated. Paths are joined as POSIX `os.path.join` joins them (`PathJoin`); Windows joining is not modelled.
- A record without a `state` field raises `KeyError` at `activity/pipelines.py:79`, before the presence test at line 82. Every `City` value has all eight fields, so that case cannot arise.
- A `None` field is not modelled: all fields are strings. For example, `meta.get('city_name')` returning `None` is left out.
- The XPath engine and HTML parsing are not modelled. A list page is given as its anchors and an infobox as its rows, already reduced to the texts the queries read.
- Scrapy's scheduling, the `parse_city` callback, `meta` transport, the offsite filter for `allowed_domains`, robots.txt and concurrent downloads are framework behaviour and are not modelled. The `start_urls` list is not used by any modelled operation.
- activity/middlewares.py and activity/settings.py are not part of this model. They hold factories and configuration constants, with no crawler logic.
