# Invenio-JSONSchemas core, modelled in Dafny

Invenio-JSONSchemas collects the JSON Schema files that installed packages
ship and serves them under a URL prefix. This project models its
sequential core and proves properties of that model:

- **Schema registry** (`Ext`, after `ext.py`). `SchemaState` is a class
  whose `schemas` map, from relative schema path to absolute directory, is
  updated in place. Registering a directory walks its files and keeps the
  `.json` ones, raising on the first duplicate. Single registration
  overwrites. Lookups raise "not found". `get_schema` is memoised by an
  LRU cache of 1000 entries, modelled as explicit cache state (`lru`) plus
  a counter of files opened (`fileReads`). `init_app` chooses the
  entry-point group and registers every directory it yields. `init_config`
  sets two defaults.
- **allOf flattening** (`Transform`, after `transform.py`). `merge_dicts`
  is a deep merge, specified by `Merged`/`Mergeable` and implemented by
  the loop method `MergeDicts`. The traversal of `transform_all_of` is the
  function `TransformAllOf` and the methods `Traverse`,
  `MergeMembersLoop` and `TraverseProperties`. The `TypeError` or
  `AttributeError` Python raises on a shape the code does not expect is
  the outcome `Fault`.
- **Virtual schemas and internal URIs** (`Api`, after `api.py`). This
  covers the `forms/X` to `records/X` naming of `get_schemas` and the
  synthetic `allOf` of `get_schema_data`. It also covers the internal-URI
  test of `get_schema_from_uri` and what `validate_json` does before it
  calls the validator.
- **Index-tree utilities** (`Utils`, after `utils.py`). These are
  `split_path` (with `os.path.split` written out as `PosixSplit`),
  `tree_insert` on a recursive `Tree` value, `tree_sort` producing an
  ordered `SortedTree`, and the pure parts of `urljoin`.
- **Errors** (`Errors`, after `errors.py`). `SchemaError` has one
  constructor for `JSONSchemaNotFound` and one for `JSONSchemaDuplicate`.
  Both are therefore cases of the base class `JSONSchemaError`. Each
  stores the exception's fields, and `Message()` is the exact text.

The shared modules are `Wrappers` (`Option`, `Result`), `Json` (the JSON
value: null, bool, integer, string, array, string-keyed map) and
`PyStrings` (the `str` operations the code uses: `lower`, `startswith`,
`endswith`, `in`, `replace(..., 1)`, `split(..., 1)` and ordering).

Foreign code is a parameter of the model:

- `os.path.abspath` is a function given to `SchemaState`.
- `os.walk` is a given sequence of `(relative directory, file names)`
  steps (`SchemaDir`).
- File contents after `json.load` are a map from path to value.
- The entry points of a group are a function from the group name to
  directories.
- `url_for` (the URL of a schema path), `urlparse`, `resolve_pointer` and
  `jsonschema.validate` are fields of `Api.Env`.
- The reference resolution of `urlparse.urljoin` is the parameter
  `resolve` of `Utils.UrlJoin`.

## Model

| member | source | states |
|---|---|---|
| Errors.NotFoundSchemaOf | invenio_jsonschemas/errors.py:37-45 | whatever path it recovers from a message gives back that message when formatted as `Schema "<p>" not found` |
| Errors.NotFoundRoundTrip | invenio_jsonschemas/errors.py:43-45 | the not-found message of `p` parses back to exactly `p` |
| Errors.NotFoundMessageInjective | invenio_jsonschemas/errors.py:43-45 | two not-found errors with the same message are about the same path |
| Errors.DuplicateMessageOmitsSchema | invenio_jsonschemas/errors.py:59-65 | the duplicate message is the same for every schema path and contains the literal `{schema}`, because `.format` binds only to the second literal |
| Errors.DuplicateMessageNamesDirectories | invenio_jsonschemas/errors.py:59-65 | the duplicate message contains the first directory and then the second, at fixed offsets |
| Ext.PathJoin | invenio_jsonschemas/ext.py:65 | `os.path.join` of two parts: ends with the second part, starts with the first unless the second is absolute, and is the second part when the first is empty |
| Ext.SchemaName | invenio_jsonschemas/ext.py:60-65 | a file in the walked root (relative directory `.`) is keyed by its bare name |
| Ext.Commit | invenio_jsonschemas/ext.py:72 | the reference result of a clash-free registration: all new names map to the directory and the other keys are unchanged |
| Ext.InsertNamesSucceeds | invenio_jsonschemas/ext.py:63-72 | registering a list of names raises nothing if and only if no name is already registered and none repeats |
| Ext.InsertNamesCommits | invenio_jsonschemas/ext.py:63-72 | a registration that raises nothing yields exactly `Commit` of the names |
| Ext.InsertNamesStopsAtClash | invenio_jsonschemas/ext.py:66-72 | a registration that raises stops at the first clashing name; the error carries that name, its existing directory and the new raw directory, and the names before it stay committed |
| Ext.WalkNamesMembers | invenio_jsonschemas/ext.py:59-65 | a name is produced by the walk if and only if some walked file is a `.json` file (case-insensitive) with that relative path |
| Ext.FileNamesMembers | invenio_jsonschemas/ext.py:63-65 | within one walked directory, a name is produced if and only if some file there is a schema file with that name |
| Ext.RegisterDirAddsItsSchemaFiles | invenio_jsonschemas/ext.py:54-72 | after a successful directory registration the new keys are exactly the walked schema files, each mapped to the absolute directory, and old keys are unchanged |
| Ext.Touch | invenio_jsonschemas/ext.py:101 | an LRU hit keeps the cached values and makes the key most recently used |
| Ext.WithoutCutsOut | invenio_jsonschemas/ext.py:101 | removing a cached key from the recency list cuts out its one position; the other keys keep their order |
| Ext.TouchMovesKeyToEnd | invenio_jsonschemas/ext.py:101 | a hit moves the key from its position to the most recent end, the other keys keeping their order |
| Ext.Admit | invenio_jsonschemas/ext.py:101 | an LRU miss caches the value as most recently used and evicts the least recently used entry only when 1000 are held; the other keys keep their recency order (`order + [k]`, or `order[1..] + [k]` on eviction) |
| Ext.SchemaState.constructor | invenio_jsonschemas/ext.py:46-52 | a new state has no schemas, an empty cache and no file read |
| Ext.SchemaState.RegisterSchemasDir | invenio_jsonschemas/ext.py:54-72 | the new `schemas` map and the raised error are those of inserting the walk's schema names in walk order, stopping at the first duplicate |
| Ext.SchemaState.RegisterFiles | invenio_jsonschemas/ext.py:63-72 | the inner loop over one directory's files: the new map and the error are those of inserting that directory's schema names |
| Ext.SchemaState.RegisterSchema | invenio_jsonschemas/ext.py:74-80 | `schemas[path]` becomes `abspath(directory)`, with no check, and every other key is unchanged |
| Ext.SchemaState.GetSchemaDir | invenio_jsonschemas/ext.py:82-90 | raises `JSONSchemaNotFound(path)` exactly when the path is unregistered, else returns its directory |
| Ext.SchemaState.GetSchemaPath | invenio_jsonschemas/ext.py:92-99 | raises the same not-found error in the same cases, else returns `join(directory, path)`, which ends with the path |
| Ext.SchemaState.ListSchemas | invenio_jsonschemas/ext.py:112-118 | the listed names are exactly the paths whose lookup succeeds |
| Ext.SchemaState.GetSchema | invenio_jsonschemas/ext.py:101-110 | the outcome in each case, and the files opened: a cached path is served with no read; an unregistered path raises not-found; otherwise the file is read once and cached, or the read error is returned |
| Ext.ReadTwiceOpensOnce | invenio_jsonschemas/ext.py:101-110 | reading one schema twice and another twice opens exactly two files |
| Ext.EntryPointGroup | invenio_jsonschemas/ext.py:143-146 | the explicit group if truthy, else the keyword argument if given, else `invenio_jsonschemas.schemas` |
| Ext.RegisterDirsStep | invenio_jsonschemas/ext.py:151-155 | the directories of a group are registered in order; the first error stops the rest |
| Ext.NoGroupLoadsNothing | invenio_jsonschemas/ext.py:143-151 | the chosen group is falsy if and only if no truthy explicit group was given and the keyword argument is present and falsy |
| Ext.InitApp | invenio_jsonschemas/ext.py:139-163 | the new state holds exactly what registering the group's directories from an empty map yields, and holds nothing when the group is falsy |
| Ext.InitConfig | invenio_jsonschemas/ext.py:165-169 | `setdefault` of `JSONSCHEMAS_ENDPOINT` to `/schemas` and `JSONSCHEMAS_HOST` to `http://localhost`; existing keys unchanged |
| Ext.InitConfigIdempotent | invenio_jsonschemas/ext.py:165-169 | initialising the configuration twice is the same as once |
| Transform.Merged | invenio_jsonschemas/transform.py:69-78 | the merge of two dicts has the keys of both |
| Transform.MergedEntries | invenio_jsonschemas/transform.py:72-77 | a key only in `first` keeps its value; a non-dict or empty-dict value of `second` replaces; a non-empty dict is merged recursively into `first`'s entry or `{}` |
| Transform.MergeableExactly | invenio_jsonschemas/transform.py:69-78 | merging an empty dict always succeeds and changes nothing; merging a non-empty dict into a non-dict faults |
| Transform.MergeIntoEmpty | invenio_jsonschemas/transform.py:69-78 | `merge_dicts({}, d) == d` |
| Transform.MergeEmpty | invenio_jsonschemas/transform.py:69-78 | `merge_dicts(d, {}) == d` |
| Transform.MergeSelf | invenio_jsonschemas/transform.py:69-78 | merging a dict into itself gives it back |
| Transform.MergeDicts | invenio_jsonschemas/transform.py:69-78 | the loop succeeds exactly when the merge is defined and then returns `Merged`; `first` is a value and is never modified |
| Transform.MergeMembers | invenio_jsonschemas/transform.py:39-42 | merging the `allOf` members into a dict yields a dict |
| Transform.FlattenAllOf | invenio_jsonschemas/transform.py:38-43 | after merging the members the `allOf` key is gone |
| Transform.TransformAllOf | invenio_jsonschemas/transform.py:34-53 | a non-dict is returned unchanged, as is a dict with none of `allOf`, `properties` and `items`; a transformed dict has no top-level `allOf` |
| Transform.MergeMembersLoop | invenio_jsonschemas/transform.py:39-42 | the `for x in schema['allOf']` loop computes `MergeMembers` |
| Transform.Traverse | invenio_jsonschemas/transform.py:36-51 | the recursive `traverse` computes `TransformAllOf` |
| Transform.TraverseProperties | invenio_jsonschemas/transform.py:45-48 | the loop over `properties` computes `TransformAllOf` of the node |
| Transform.PropertyFaults | invenio_jsonschemas/transform.py:45-48 | one faulting property makes the node fault |
| Transform.PropertiesTransformed | invenio_jsonschemas/transform.py:45-48 | when every property transforms, the node is the same with each property replaced by its transform |
| Transform.TransformedIsFlat | invenio_jsonschemas/transform.py:36-51 | no `allOf` remains on any path the traversal visits |
| Transform.FlatIsUnchanged | invenio_jsonschemas/transform.py:36-51 | a schema with no `allOf` on those paths is returned unchanged |
| Transform.TransformIdempotent | invenio_jsonschemas/transform.py:34-53 | transforming a transformed schema changes nothing |
| Transform.MergeMembersKeepsTitle | invenio_jsonschemas/transform.py:39-42 | members' titles are dropped, so merging keeps the node's own `title` and adds none |
| Transform.TitleKept | invenio_jsonschemas/transform.py:36-51 | the transformed node has a `title` exactly when the input did, with the same value |
| Transform.LastMemberWins | invenio_jsonschemas/transform.py:39-42 | a scalar key set by the last member ends with that member's value |
| Transform.TransformLastMemberWins | invenio_jsonschemas/transform.py:38-44 | after the whole traversal, a scalar key of the last `allOf` member holds that member's value |
| Transform.OtherKeysKept | invenio_jsonschemas/transform.py:45-50 | a node without `allOf` keeps its key set, and every key except `properties` and `items` keeps its value |
| Transform.PropertiesLeaveItems | invenio_jsonschemas/transform.py:45-48 | with `properties` present, only the property values are transformed, `items` included among the untouched keys |
| Transform.ItemsOnlyAlone | invenio_jsonschemas/transform.py:49-50 | with neither `allOf` nor `properties`, exactly `items` is replaced by its transform |
| Transform.MergeTwoPropertySets | invenio_jsonschemas/transform.py:34-53 | an `allOf` of two members with disjoint `properties` flattens to one dict holding both properties |
| Api.RecordName | invenio_jsonschemas/api.py:78-79 | replacing the leading `forms` by `records` gives a `records/` name that maps back |
| Api.FormName | invenio_jsonschemas/api.py:96-97 | replacing the leading `records` by `forms` gives a `forms/` name |
| Api.FormNameInverse | invenio_jsonschemas/api.py:96-97 | the two renamings are inverse on `records/` names |
| Api.SchemaNamesMembers | invenio_jsonschemas/api.py:68-81 | a name is listed if and only if it is registered or is the `records/` twin of a registered `forms/` name |
| Api.GetSchemas | invenio_jsonschemas/api.py:68-81 | the loop builds exactly `SchemaNames` |
| Api.NamesOfAdd | invenio_jsonschemas/api.py:74-80 | one loop step adds the name and, for a `forms/` name, its `records/` twin, and nothing else |
| Api.GetSchemaData | invenio_jsonschemas/api.py:84-107 | a registered name is served from its file, even when the rewrite would apply; an unregistered `records/X` with a base schema and a registered `forms/X` gives the two-element `allOf`, base first; everything else gives `default` |
| Api.GetSchemaFromUri | invenio_jsonschemas/api.py:110-138 | a URI is rejected as insecure if and only if it is not internal (scheme, netloc and path prefix of the base URL); an internal one resolves the remainder of its path and its fragment |
| Api.InternalPathRoundTrip | invenio_jsonschemas/api.py:123-126 | the base path followed by the internal path is the URI's path |
| Api.InsecureMessageNamesUri | invenio_jsonschemas/api.py:136-138 | the insecure-location message is the fixed prefix followed by the URI |
| Api.PrepareValidation | invenio_jsonschemas/api.py:141-162 | the data handed to the validator is the document without `$schema`. The schema is the truthy argument, else the document's `$schema` (default `{}`), resolved by `get_schema_from_uri` when a string. It is used as is when `additional_properties` is `None` and otherwise gets that entry written into it. A resolution error is the error returned; a non-dict document fails |
| Api.PreparedDataKeepsDocument | invenio_jsonschemas/api.py:161-162 | the prepared data has every key of the document except `$schema`, with the same values |
| Api.SchemaFromDocument | invenio_jsonschemas/api.py:148-153 | with no schema argument, the document's `$schema` URI is resolved and its error, if any, is raised |
| Api.ValidateJson | invenio_jsonschemas/api.py:141-165 | returns `True` exactly when preparation succeeds and the validator accepts |
| Api.ListedButNotServed | invenio_jsonschemas/api.py:68-107 | with no base schema, `records/a.json` is listed but `get_schema_data` gives the default for it |
| Api.ListedSchemas | invenio_jsonschemas/api.py:68-81 | every listed name is served |
| Api.ListedExactlyServed | invenio_jsonschemas/api.py:68-107 | a name is listed by the corrected listing if and only if it is served |
| Utils.LastSlash | invenio_jsonschemas/utils.py:63 | the index of the last `/`, or -1, as `os.path.split` finds it |
| Utils.RStripSlashes | invenio_jsonschemas/utils.py:63 | the head without its trailing slashes, as `os.path.split` strips them |
| Utils.SplitStep | invenio_jsonschemas/utils.py:62-65 | one loop step: the head is strictly shorter, keeps no leading `/`, and its parts followed by the tail are the parts of the whole |
| Utils.SplitPath | invenio_jsonschemas/utils.py:56-66 | the `while` loop returns the `/`-separated segments in order: the empty ones before the last `/` are dropped and the one after it is kept even when empty (`split_path('a/') == ['a', '']`); the empty string gives `[]` |
| Utils.StripParts | invenio_jsonschemas/utils.py:62-65 | the parts of a head with its trailing slashes stripped, as `os.path.split` leaves it, are exactly the non-empty segments of the unstripped head |
| Utils.LeadingSlashNeverShrinks | invenio_jsonschemas/utils.py:62-65 | the head of a path with a leading `/` still has one, so the source loop never ends |
| Utils.JoinSegments | invenio_jsonschemas/utils.py:56-66 | joining the segments with `/` restores the string |
| Utils.SplitPathRoundTrip | invenio_jsonschemas/utils.py:56-66 | with no empty segment, the result is the segments, whitespace intact, and joining them restores the input |
| Utils.TreeInsert | invenio_jsonschemas/utils.py:125-133 | returns the tree with the element inserted and empties the caller's path list |
| Utils.InsertedAppends | invenio_jsonschemas/utils.py:130-133 | the element is appended at the end of the `.` list of the node reached by the path, which exists afterwards |
| Utils.InsertedCreatesPath | invenio_jsonschemas/utils.py:127-128 | every prefix of the path leads to a node afterwards |
| Utils.InsertedKeepsOtherLists | invenio_jsonschemas/utils.py:125-133 | the `.` list at every other path is unchanged |
| Utils.InsertedKeepsOtherBranches | invenio_jsonschemas/utils.py:125-133 | every branch off the path is unchanged |
| Utils.InsertedProper | invenio_jsonschemas/utils.py:125-133 | insertion along a path without `.` keeps the tree free of `.` child keys |
| Utils.KeyAsWritten | invenio_jsonschemas/utils.py:197-199 | the key lambda as written raises exactly on a string containing `name`, and otherwise agrees with `Key` |
| Utils.InsertByKey | invenio_jsonschemas/utils.py:195-200 | inserting into the sorted list adds exactly the element |
| Utils.SortByKey | invenio_jsonschemas/utils.py:195-200 | the sorted `.` list is a permutation of the input |
| Utils.SortByKeySorted | invenio_jsonschemas/utils.py:195-200 | the sorted list is ordered by the lowercased string or lowercased `name` |
| Utils.SortByKeyStable | invenio_jsonschemas/utils.py:195-200 | entries with equal keys keep their input order, as `sorted` is stable |
| Utils.FileNameContainingNameFaults | invenio_jsonschemas/utils.py:197-199 | the list `['filename.json']` makes the code as written fail, while the corrected sort returns it |
| Utils.SortedFilesAsWrittenAgrees | invenio_jsonschemas/utils.py:195-200 | for lists without such strings, the code as written and the corrected sort agree |
| Utils.SortedKeys | invenio_jsonschemas/utils.py:201 | `sorted(tree.iterkeys())` lists exactly the child keys |
| Utils.SortedKeysAscending | invenio_jsonschemas/utils.py:201 | that list is strictly ascending and has one entry per key |
| Utils.TreeSortedShape | invenio_jsonschemas/utils.py:192-203 | the result has `.` exactly when the input did, holding a sorted permutation of it, and the same child keys in ascending order |
| Utils.TreeSortedEverywhere | invenio_jsonschemas/utils.py:192-203 | the previous property holds at every level of the result |
| Utils.Stripped | invenio_jsonschemas/utils.py:193-194 | the input node after the call has no `.` list and the same child keys |
| Utils.StrippedEverywhere | invenio_jsonschemas/utils.py:192-203 | after the call no node of the input has a `.` list, and the same paths exist |
| Utils.TreeSort | invenio_jsonschemas/utils.py:192-203 | returns `TreeSorted` of the input and the input as left behind, `Stripped` |
| Utils.SortChildren | invenio_jsonschemas/utils.py:201-202 | the loop over the sorted keys builds the sorted children in key order and the stripped subtrees |
| Utils.StrippedFrom | invenio_jsonschemas/utils.py:201-202 | stripping every child, key by key, gives the whole stripped node |
| Utils.AddTrailingSlash | invenio_jsonschemas/utils.py:36-40 | the result ends with `/`, extends the input by at most that slash, and is the input if it already ends with `/` |
| Utils.AddTrailingSlashIdempotent | invenio_jsonschemas/utils.py:36-40 | adding the slash twice is the same as once |
| Utils.SlashAll | invenio_jsonschemas/utils.py:43 | `map(_add_trailing_slash, ...)` keeps the number of parts and gives each part, extended by at most a slash, a trailing `/` |
| Utils.UrlJoin | invenio_jsonschemas/utils.py:34-53 | no arguments give `''`; one argument is resolved against `''` |

## Left out

- File I/O, JSON parsing, `os.walk`, `os.path.abspath`, `pkg_resources` and the Flask application are inputs or functions given to the model. Blueprint registration in `init_app`, `__getattr__` and the state's `app` attribute are not modelled.
- `transform_refs`: it only calls the `jsonref` library and reads the request.
- `Utils.UrlJoin`: the reference resolution of `urlparse.urljoin` (section 5.2 of RFC 3986) is the parameter `resolve`. Only the slash handling and the zero- and one-argument cases are stated.
- `jsonschema.validate` and JSON Pointer evaluation (RFC 6901) in `resolve_pointer` are parameters of `Api.Env`. Validation errors are the single outcome `ValidationFailed`.
- Floats: JSON numbers are integers.
- `Utils.TreeInsert`: the tree is a value and the new tree is returned. Mutation in place and aliasing of sub-dicts are not captured. Only the path list, modelled as the class `PathList`, is consumed in place.
- `Utils.TreeSort`: the input's loss of its `.` lists is returned as a second result (`after`) instead of happening in place.
- `Transform.Traverse`: the schema is a value. The popping of `title` from the `allOf` members is what the caller of such a member object would see through aliasing, and it is not modelled. Only its effect on the merge is.
- `Transform.TransformAllOf`: Python raises `TypeError` or `AttributeError` on shapes the code does not expect, and which of the two depends on dict order. Both are the single outcome `Fault`.
- `Utils.Key`: an entry that is a dict without a `name` key sorts by the dict itself under Python 2 cross-type ordering. That case is not modelled; an entry is a string or a dict with a `name`.
- `Utils.InsertedProper`: a path segment `.` would put a subtree where the `.` list lives. That case is excluded (`Proper`).
- `Utils.TreeInsert`: on a path segment `.` the source raises `TypeError` when the `.` list is indexed by a segment (utils.py:128-129 or 132-133 on a list), raises `AttributeError` when a dict stored under `.` is appended to (utils.py:133), or stores a dict under `.`. The model instead creates a child named `.` and returns normally. Paths built from walked schema names have no such segment.
- `Utils.TreeSort`: it sorts every `.` list with the corrected key `Utils.Key`, so it returns a sorted tree where the source raises `TypeError` on a string entry containing `name` (first row of the findings below). The code as written is `Utils.KeyAsWritten` and `Utils.SortedFilesAsWritten`.
- `Api.PrepareValidation`: the source writes `additionalProperties` into the schema dict itself. When the caller passed a parsed schema, the caller's dict changes. When the schema came from the document's own dict-valued `$schema`, the caller's document changes too. The model returns a new value and does not capture this write; the data handed to the validator is unaffected, since `$schema` is removed from the copy.
- `Utils.SplitPath`: it requires that the path does not start with `/`. On such a path the source loops forever, because `os.path.split('/')` returns `('/', '')`. `Utils.LeadingSlashNeverShrinks` states this.
- `tree_sort` orders child keys case-sensitively (`sorted(tree.iterkeys())`), although its docstring says lowercase comparison. The model follows the code; only the `.` list is compared lowercased.
- `Ext.SchemaState.GetSchema`: the `lru_cache` on a method is shared by all instances and keyed by `(self, path)`. The model gives each state its own cache.
- `PyStrings.Lower`: Python's `str.lower` is modelled for ASCII letters only. This affects `Ext.IsSchemaFile`, `Utils.Key` and `Utils.SortByKeySorted`.
- `JSONSCHEMAS_HOST` defaults to `'localhost'` in `config.py` but to `'http://localhost'` in `init_config`. The model uses the value `init_config` sets.

## Findings

| source | as written | input that shows it | evidently intended | confidence | as-written member | corrected member |
|---|---|---|---|---|---|---|
| invenio_jsonschemas/utils.py:197-199 | the sort key tests `'name' in e`, which for a string entry is a substring test; `e['name']` then raises `TypeError` | a `.` list `['filename.json']` | a string entry is keyed by its lowercased text and a dict by its lowercased `name` (`isinstance(e, dict)`) | not executed | Utils.FileNameContainingNameFaults | Utils.SortByKeySorted |
| invenio_jsonschemas/api.py:68-81 | `get_schemas` lists `records/X` for every `forms/X` even when no base schema is configured | `forms/a.json` registered and `JSONSCHEMAS_BASE_SCHEMA` unset: `records/a.json` is listed, yet `get_schema_data` returns the default for it | virtual schemas are absent when the base schema is not configured, as the module docstring (api.py:28-31) says | not executed | Api.ListedButNotServed | Api.ListedExactlyServed |
