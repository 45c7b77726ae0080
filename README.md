# Cabinet designer: a verified model of its core logic

This project models the sequential logic of a small web application for laying out a row of
system cabinets. It has four parts:

- **The editor** (`src/pages/EditorPage.jsx`). It holds the cabinet row, the selected index and
  the ceiling height, and has one handler per user action. The canvas code turns centimetres
  into pixels at 3 px/cm, after a 24 px ruler and with 12 px gaps. A click hit-test re-walks
  the same offsets.
- **The rendering-service client** (`src/services/geminiApi.js`). `buildPrompt` compiles
  materials, vendor specs and environment settings into the prompt text. The client guards
  against a missing API key, builds the request parts and searches the response for the first
  image part.
- **The texture manager** (`src/components/admin/TextureManager.jsx`). It checks filenames
  against the `A-B-C.(png|jpg|jpeg)` pattern and derives the stored name and category from a
  filename. An upload accepts or rejects each file in turn and counts both outcomes. It also
  filters by category and counts per category.
- **The browser database** (`src/services/db.js`). Each table is an in-memory sequence of
  records in primary-key order, with its auto-increment counter. The vendor-spec table folds
  into a last-wins map, and `set` updates the first record with a key or appends one. The
  texture table stamps records on `add` and lists them newest first.

Modules, one per file:

- `Wrappers`: Option and Result.
- `Strings`: JavaScript `split`/`join` on one character, and ASCII case folding.
- `Sequences`: subsequences.
- `Cabinets`: the design data and its pure list transformations.
- `CanvasLayout`: drawing geometry and the hit-test.
- `EditorPage`: the class `Editor` with its handlers.
- `GeminiApi`: the service client.
- `Db`: the tables, with the classes `TextureTable` and `VendorSpecTable`.
- `TextureManager`: the texture manager.

State the source changes in place is modelled as classes, with `modifies` on every handler:
the editor and the two tables. The upload loop's counters and notices are local variables of
the method that models the loop, returned as its results. The drawing loop, the hit-test, the
upload loop, the `getAll` fold, `setAll` and the response search are loops with invariants.

The model follows the code. The code has no bound on a cabinet's width (the slider offers
30–90 cm, but nothing checks the value), no clamping of a cabinet's height to the ceiling, no
dividers, no snapping or clamping of drawer positions and no split cabinets. The model has
none of them either. Doors are only ever created opening to the left
(`src/pages/EditorPage.jsx:195`). The door glyph also handles a right-opening door, which the
model's `OpensRight` stands for, but nothing ever builds one.

## Model

| member | source | states |
|---|---|---|
| Cabinets.DefaultAccessory | src/pages/EditorPage.jsx:192-198 | the accessory `addAccessory` creates: shelf at h/2 (2 cm), drawer at 0.6h (20 cm), left-opening door from 0 over the full height, hanging rod at 0.4h (4 cm), LED at 10 cm (2 cm); properties in `Cabinets.DefaultAccessoryFits` |
| Cabinets.ExcludeIndex | src/pages/EditorPage.jsx:180 | `filter((_, i) => i !== idx)`; properties in `Cabinets.ExcludeIndexRemovesOne` |
| Cabinets.WithoutId | src/pages/EditorPage.jsx:207 | `accessories.filter(a => a.id !== id)`; properties in `Cabinets.WithoutIdSpec` |
| Cabinets.NewCabinet | src/pages/EditorPage.jsx:173 | a new cabinet carries the given id, is 60 cm wide and 220 cm tall, and has no accessories |
| Cabinets.DefaultAccessoryFits | src/pages/EditorPage.jsx:190-199 | each default keeps its kind and id; only a door opens (to the left); the band lies inside the cabinet exactly when h ≥ 4 (shelf), h ≥ 50 (drawer), always (door), h ≥ 7 (hanging rod), h ≥ 12 (LED) |
| Cabinets.WithField | src/pages/EditorPage.jsx:186 | `{...c, [field]: v}` changes the named dimension only; id, accessories and the other dimension stay |
| Cabinets.ExcludeIndexRemovesOne | src/pages/EditorPage.jsx:180 | filtering out index `idx` gives `s[..idx] + s[idx+1..]`, and an index outside the list removes nothing |
| Cabinets.WithoutIdShorter | src/pages/EditorPage.jsx:207 | filtering accessories by id never lengthens the list |
| Cabinets.WithoutIdCounts | src/pages/EditorPage.jsx:207 | every accessory with the id is gone; every other one occurs as often as before |
| Cabinets.WithoutIdInOrder | src/pages/EditorPage.jsx:207 | the remaining accessories are a subsequence of the old list |
| Cabinets.WithoutIdSpec | src/pages/EditorPage.jsx:207 | the three facts above together |
| EditorPage.Editor.constructor | src/pages/EditorPage.jsx:152-156 | the initial state: one 60 × 220 cabinet with id 1, selected, under a 240 cm ceiling |
| EditorPage.Editor.AddCabinet | src/pages/EditorPage.jsx:172-176 | appends exactly `NewCabinet(id)` after the unchanged old row and selects index old length |
| EditorPage.Editor.RemoveCabinet | src/pages/EditorPage.jsx:178-182 | refused, with nothing changed, iff at most one cabinet; otherwise removes exactly index `idx`, keeps the rest in order (length n−1 for a listed index) and selects max(0, idx−1) |
| EditorPage.Editor.UpdateCabinet | src/pages/EditorPage.jsx:184-188 | only the selected cabinet changes, and only in the named field |
| EditorPage.Editor.AddAccessory | src/pages/EditorPage.jsx:190-203 | appends the kind's default, sized from the selected cabinet's height, to that cabinet only; earlier accessories stay in place |
| EditorPage.Editor.RemoveAccessory | src/pages/EditorPage.jsx:205-209 | the selected cabinet loses exactly the accessories with that id; every other cabinet is unchanged; the count never grows |
| EditorPage.Editor.SetCeilingHeight | src/pages/EditorPage.jsx:263 | the ceiling slider changes the ceiling only; no cabinet is touched |
| EditorPage.Editor.Select | src/pages/EditorPage.jsx:241 | a click on the list selects that entry and changes nothing else |
| EditorPage.Editor.Click | src/pages/EditorPage.jsx:349-357 | a click selects the first cabinet whose span holds x, the only one when no width is negative; a click off every span leaves the selection unchanged |
| CanvasLayout.TotalWidth | src/pages/EditorPage.jsx:17 | `cabinets.reduce((s, c) => s + c.width, 0)`, the row's total width in cm, as a left fold; properties in `CanvasLayout.PrefixWidth` and `CanvasLayout.TotalWidthMonotone` |
| CanvasLayout.PrefixWidth | src/pages/EditorPage.jsx:17 | the width fold over one more cabinet adds that cabinet's width |
| CanvasLayout.LayoutCabinets | src/pages/EditorPage.jsx:15-18 | the `xOffset` walk puts cabinet i at 44 + Σ_{j<i}(3·w_j + 12), with top 24 + 3(ceilingH − h_i); every bottom edge is 24 + 3·ceilingH; the canvas is (3Σw + 64) × (3·ceilingH + 64) |
| CanvasLayout.TotalWidthMonotone | src/pages/EditorPage.jsx:37-42 | with widths that are not negative, the width fold over a longer prefix of the row is never smaller |
| CanvasLayout.SpansSeparated | src/pages/EditorPage.jsx:133 | a later cabinet starts at least 12 px after an earlier one ends |
| CanvasLayout.HitIsUnique | src/pages/EditorPage.jsx:352-357 | with widths that are not negative, a click lies in at most one span |
| CanvasLayout.HitTest | src/pages/EditorPage.jsx:352-357 | the loop with `break` returns the first index whose span holds x, or nothing exactly when no span does |
| CanvasLayout.CanvasWidthAsWritten | src/pages/EditorPage.jsx:17 | `canvas.width` as line 17 computes it, 3·Σw + 24 + 40, without the gaps; properties in `CanvasLayout.LastCabinetFitsAsWrittenIff` |
| CanvasLayout.CanvasWidth | src/pages/EditorPage.jsx:17 | the corrected width, which also counts the 12 px gap after every cabinet but the last; properties in `CanvasLayout.CabinetsFitCanvas` |
| CanvasLayout.LastCabinetFitsAsWrittenIff | src/pages/EditorPage.jsx:17 | with the canvas width as written, the last cabinet's right edge stays on the canvas iff there are at most two cabinets |
| CanvasLayout.ThreeCabinetsOverflow | src/pages/EditorPage.jsx:17 | three standard cabinets end 4 px past the canvas edge as written |
| CanvasLayout.CabinetsFitCanvas | src/pages/EditorPage.jsx:17-18 | with the gaps counted, every cabinet ends at least 20 px before the canvas edge |
| GeminiApi.SpecsText | src/services/geminiApi.js:65-67 | the vendor-spec fragment: the `k: v` clauses joined by `、`, or the fallback when that is empty; properties in `GeminiApi.SpecsTextSpec` |
| GeminiApi.MaterialClauses | src/services/geminiApi.js:69-71 | the `zone使用mat` clauses of the zones with a non-empty material; properties in `GeminiApi.MaterialClausesIndexed` |
| GeminiApi.MaterialText | src/services/geminiApi.js:69-72 | the material fragment: the clauses joined by `、`, or `白色系材質` when that is empty; properties in `GeminiApi.MaterialTextFallback` |
| GeminiApi.LightLabel | src/services/geminiApi.js:74-78 | the light table lookup with its two defaults; values in `GeminiApi.LabelTables` |
| GeminiApi.FloorLabel | src/services/geminiApi.js:80-84 | the floor table lookup with its default; values in `GeminiApi.LabelTables` |
| GeminiApi.BuildPrompt | src/services/geminiApi.js:64-95 | the prompt template filled with the material, spec, light and floor fragments; properties in `GeminiApi.BuildPromptShape` |
| GeminiApi.FirstImageIn | src/services/geminiApi.js:51-57 | the inner `for (const part of …)` search: the first inline image part of one candidate, if any; properties in `GeminiApi.FirstImageInSpec` |
| GeminiApi.FirstImage | src/services/geminiApi.js:48-59 | the first inline image part over the candidates, then their parts; properties in `GeminiApi.FirstImageSpec` |
| GeminiApi.SpecClauses | src/services/geminiApi.js:65-66 | one `k: v` clause per entry, in entry order, with no filtering |
| GeminiApi.SpecsTextSpec | src/services/geminiApi.js:65-67 | the fallback `18mm 塑合板、標準五金` is used exactly when the map is absent or empty; otherwise the text is the joined clauses, and splitting it on `、` gives them back when no key or value holds a `、` |
| GeminiApi.MaterialClausesEmptyIff | src/services/geminiApi.js:69-71 | there are no material clauses exactly when no zone has a material |
| GeminiApi.MaterialClausesFromAssigned | src/services/geminiApi.js:69-71 | every clause is `zone使用mat` for a zone with a non-empty material |
| GeminiApi.MaterialClausesIndexed | src/services/geminiApi.js:69-71 | there is an increasing list of indices, holding every index of a zone with a non-empty material and no other, such that clause i is `zone使用mat` of the i-th of them: every assigned zone gets exactly one clause, in entry order |
| GeminiApi.MaterialClausesFirst | src/services/geminiApi.js:69-71 | the first clause belongs to the first zone with a material |
| GeminiApi.MaterialTextFallback | src/services/geminiApi.js:69-72 | the fallback `白色系材質` is used exactly when no zone has a material (or there is no map); otherwise the text is the joined clauses |
| GeminiApi.MaterialTextSplits | src/services/geminiApi.js:69-72 | splitting the material text on `、` gives the clauses back when no name holds a `、` |
| GeminiApi.LabelTables | src/services/geminiApi.js:74-84 | the three light and three floor labels; a missing light is 4000K, an unknown one `自然光`; a missing or unknown floor is `淺色木地板` |
| GeminiApi.BuildPromptShape | src/services/geminiApi.js:64-95 | the prompt starts with the fixed heading and the material text and ends with the fixed viewpoint and style lines; the cabinets never affect it |
| GeminiApi.BuildPromptLines | src/services/geminiApi.js:86-95 | the prompt is the heading, the material text, the `廠商規格：` line with the vendor-spec text, the environment lines ending in the light label, the `地板：` line with the floor label, then the fixed tail, in that order |
| GeminiApi.FirstImageInSpec | src/services/geminiApi.js:51-57 | within one candidate the search finds nothing iff no part is an image; otherwise it finds the first image part |
| GeminiApi.FirstImageSpec | src/services/geminiApi.js:48-59 | over the response the search finds nothing iff no part of any candidate is an image; otherwise it finds the first one in candidate-then-part order |
| GeminiApi.FindImage | src/services/geminiApi.js:48-59 | the nested loops with an early return compute exactly that first image |
| GeminiApi.GenerateCabinetRender | src/services/geminiApi.js:7-61 | an empty key fails before any request; otherwise the request carries the model, key and fixed config, with parts `[image] ++ [text]` (image only when present, text always last); an HTTP failure is passed on; the answer is the first image part, or NoImage |
| Strings.Split | src/components/admin/TextureManager.jsx:49 | `split` on one character: one more field than separators, none holding the separator |
| Strings.Join | src/services/geminiApi.js:67 | `join` with one character; properties in `Strings.SplitJoin` and `Strings.JoinSplit` |
| Strings.SplitJoin | src/services/geminiApi.js:67 | splitting what `join('、')` built gives the parts back when none holds the separator |
| Strings.JoinSplit | src/components/admin/TextureManager.jsx:49 | joining the fields of a `split('-')` restores the string |
| Strings.SplitFirstField | src/components/admin/TextureManager.jsx:49 | the first field of `split` ends at the first separator |
| TextureManager.ValidateFilename | src/components/admin/TextureManager.jsx:6-9 | the regular-expression test for three `-`-separated non-empty fields and a `png`, `jpg` or `jpeg` extension in any letter case; characterised in `TextureManager.ValidateFilenameIff` |
| TextureManager.ValidateFilenameIff | src/components/admin/TextureManager.jsx:6-9 | the check holds exactly for `A-B-C.ext` with A, B, C non-empty, without line terminators, and ext `png`/`jpg`/`jpeg` in any letter case |
| TextureManager.ValidatedSplits | src/components/admin/TextureManager.jsx:8 | every name the check accepts has such a split |
| TextureManager.PatternValidates | src/components/admin/TextureManager.jsx:8 | every name with such a split passes the check |
| TextureManager.ImageExtensionHasNoDot | src/components/admin/TextureManager.jsx:8 | an accepted extension has 3 or 4 letters and no dot |
| TextureManager.LastIndexOf | src/components/admin/TextureManager.jsx:49 | returns the last position of the character, or nothing when it does not occur |
| TextureManager.Stem | src/components/admin/TextureManager.jsx:49 | `replace(/\.[^.]+$/, '')` yields a prefix of the name |
| TextureManager.StemOfSuffix | src/components/admin/TextureManager.jsx:49 | a non-empty dotless suffix after the last dot is removed, dot included |
| TextureManager.StemUnchanged | src/components/admin/TextureManager.jsx:49 | a name without a dot, or ending in one, stays as it is |
| TextureManager.Category | src/components/admin/TextureManager.jsx:50 | the second dash field when there are at least two, `其他` when the name has no dash |
| TextureManager.ValidatedNameAndCategory | src/components/admin/TextureManager.jsx:49-54 | for `a-b-c.ext` the stored name is `a-b-c` with at least three fields, so the category is its second field and never the fallback; it is `b` when a and b hold no dash |
| TextureManager.ValidatedFieldCount | src/components/admin/TextureManager.jsx:49-50 | the same for every name the check accepts |
| TextureManager.EmptyCategoryAccepted | src/components/admin/TextureManager.jsx:8-50 | a name `x--y-z.png` passes the check yet gets the empty category |
| TextureManager.HintExampleAccepted | src/components/admin/TextureManager.jsx:95 | the hint's example `客廳-橡木-001.png` passes the check |
| TextureManager.HintExampleCategory | src/components/admin/TextureManager.jsx:95 | the hint's example is filed under `橡木` |
| TextureManager.Classify | src/components/admin/TextureManager.jsx:38-47 | a bad filename is rejected first, regardless of type; a good name with a type not starting `image/` is rejected next; everything else is accepted |
| TextureManager.AcceptedTextureShape | src/components/admin/TextureManager.jsx:49-58 | an accepted file is stored with its full filename, its data URL, its name minus `.ext`, and the second field as category |
| TextureManager.Verdicts | src/components/admin/TextureManager.jsx:37 | one verdict per file |
| TextureManager.EveryFileCountedOnce | src/components/admin/TextureManager.jsx:36-59 | every file counts exactly once, as an upload or as an error |
| TextureManager.Stored | src/services/db.js:16-18 | consecutive `add`s create records with consecutive keys, each with its texture and stamp |
| TextureManager.UploadFile | src/components/admin/TextureManager.jsx:38-59 | one pass of the loop body: the verdict is `Classify(file)`; an accepted file adds exactly one record under the next key; a rejected one leaves the table alone |
| TextureManager.Tally | src/components/admin/TextureManager.jsx:38-47 | a rejected file raises its own error notice and counts one error; an accepted one counts one success |
| TextureManager.StoreNext | src/components/admin/TextureManager.jsx:38-59 | one pass of the upload loop (`UploadFile`, then `Tally`): the verdict is that of the next file, and the counters, notices and table advance to those of one more file |
| TextureManager.StoreFiles | src/components/admin/TextureManager.jsx:36-60 | after the loop: success and errors count the accepted and rejected files and sum to the number of files; the notices are the rejections in order; the table gained exactly the accepted textures, in file order, under consecutive keys |
| TextureManager.HandleFiles | src/components/admin/TextureManager.jsx:34-64 | the loop, then the reload newest first, then the success notice only when something was stored |
| TextureManager.WithCategory | src/components/admin/TextureManager.jsx:78 | `textures.filter(t => t.category === cat)`; properties in `TextureManager.WithCategorySpec` |
| TextureManager.Filtered | src/components/admin/TextureManager.jsx:78 | the list shown for the chosen category, everything for `全部`; properties in `TextureManager.FilteredSpec` |
| TextureManager.CategoryCount | src/components/admin/TextureManager.jsx:115 | the count on a category button; properties in `TextureManager.FilteredSpec` and `TextureManager.CategoryButtonsCount` |
| TextureManager.WithCategorySpec | src/components/admin/TextureManager.jsx:78 | the filter keeps exactly the textures of the category, as often as they occur, and in order |
| TextureManager.FilteredSpec | src/components/admin/TextureManager.jsx:78 | `全部` leaves the list unchanged; any other category gives exactly the textures of it, as a subsequence |
| TextureManager.CategoryButtonsCount | src/components/admin/TextureManager.jsx:109-115 | the named buttons' counts add up to at most the `全部` count, with equality iff every texture is filed under a named category |
| TextureManager.HintCategoryHasNoButton | src/components/admin/TextureManager.jsx:4 | the category `橡木` of the hint's example is not among the buttons' categories |
| TextureManager.NamedCategoriesDistinct | src/components/admin/TextureManager.jsx:4 | the category buttons are pairwise distinct |
| Db.Insert | src/services/db.js:14 | inserting adds exactly that record to the multiset |
| Db.InsertKeepsOrder | src/services/db.js:14 | inserting keeps a newest-first list in order |
| Db.NewestFirst | src/services/db.js:14 | `orderBy('createdAt').reverse()` is a permutation of the table, newest first, ties by key descending |
| Db.TextureTable.constructor | src/services/db.js:6 | an empty table whose key counter starts at 1 |
| Db.TextureTable.Add | src/services/db.js:16-18 | appends `{...texture, createdAt: now}` under the next key and returns that key; the keys stay increasing |
| Db.TextureTable.GetAll | src/services/db.js:13-15 | returns every stored record, in newest-first order |
| Db.SpecMap | src/services/db.js:25-30 | the `forEach` fold of the records into a map; properties in `Db.SpecMapLastWins` |
| Db.SpecMapLastWins | src/services/db.js:25-30 | a key is in the map iff some record has it, and it maps to the value of the last record with that key |
| Db.FirstWithKey | src/services/db.js:32 | `where('key').equals(k).first()` finds the first record with the key, or nothing when there is none |
| Db.Upsert | src/services/db.js:31-37 | `set` on the table as a value; properties in `Db.UpsertShape`, `Db.UpsertThenGet` and `Db.UpsertKeepsKeysOrdered` |
| Db.UpsertShape | src/services/db.js:31-37 | an existing key updates that record's value and stamp, with the count and the other records unchanged; a new key appends exactly one record under the next key |
| Db.UpsertThenGet | src/services/db.js:31-37 | with unique keys, after `set(k, v)` the map has k bound to v and every other key as before; the keys stay unique |
| Db.DuplicateKeyHidesSet | src/services/db.js:28-34 | with two records for one key, `set` updates the first while `getAll` reads the last, so the new value is not seen |
| Db.UpsertKeepsKeysOrdered | src/services/db.js:34-36 | `set` keeps the primary keys increasing and below the counter |
| Db.SetAllTable | src/services/db.js:38-41 | `setAll` as a fold of `set` over the entries, entry i stamped with its own time; properties in `Db.SetAllThenGet` |
| Db.SetAllThenGet | src/services/db.js:38-41 | with unique keys, after `setAll(m)` the map is the old one with every key of m bound to its value in m |
| Db.EntriesMapSpec | src/services/db.js:39 | with distinct keys every entry is in the entries' map and nothing else is |
| Db.EntriesMapOrderIrrelevant | src/services/db.js:39 | with distinct keys, two orders of the same entries give the same map |
| Db.SetAllOrderIrrelevant | src/services/db.js:38-41 | on a table with unique keys and with distinct entry keys, neither the entry order nor the stamps change the map `getAll` reads back after `setAll` |
| Db.VendorSpecTable.constructor | src/services/db.js:7 | an empty spec table whose key counter starts at 1 |
| Db.VendorSpecTable.GetAll | src/services/db.js:25-30 | the `forEach` loop's map holds exactly the keys in the table, each with the value of its last record |
| Db.VendorSpecTable.Set | src/services/db.js:31-37 | the table becomes `Upsert` of the old one and the map read back is `old[key := value]`; keys stay unique and ordered |
| Db.VendorSpecTable.SetAll | src/services/db.js:38-41 | `set` for each entry in turn, each with its own stamp; the map read back is the old one merged with the entries |

## Left out

- Canvas drawing details (colours, strokes, fonts, labels, accessory glyphs) and the JPEG
  export with its session-storage writes have no behaviour to state beyond the geometry
  above. They are I/O.
- The HTTP exchange is a parameter `service` from request to response. JSON decoding,
  `response.ok`, and the error-message fallback `err?.error?.message || ...` are left out:
  a failed status is passed on with the message the service reports.
- `fileToBase64`/`FileReader` is left out: each file arrives with its data URL. Drag and
  drop, `setUploading` and the `async`/`await` sequencing are left out too.
- Toasts are recorded as `Notice` values, not as the displayed texts.
- `textureService.delete`, `handleDelete` and `loadTextures` as UI glue are not modelled;
  `HandleFiles` calls `GetAll` for the reload.
- Date stamps and `Date.now()` identifiers are parameters. Nothing assumes they are unique
  or increasing.
- `Object.entries` order is the order of the entry list given to the model. JavaScript lists
  integer-like keys first; that reordering is not modelled. A `__proto__` key and lookups of
  inherited names such as `constructor` in the label tables are not modelled either.
- `setAll` is modelled as a sequential fold of `set`. The parallel `Promise.all` is not
  modelled as concurrency.
- The Dexie schema and versioning are left out. IndexedDB is a plain in-memory record
  sequence: `first()` is the lowest key, and equal `createdAt` stamps list the higher key
  first.
- Db.SetAllOrderIrrelevant: is about the map read back only. The ids of records that `setAll`
  adds do follow the entry order (on an empty table `a, b` gives ids 1, 2 and `b, a` the
  reverse), and the stamps are whatever the clock says at each `set`.
- `EditorPage.Editor.Click` takes the click position `e.clientX - rect.left` as an integer
  number of canvas pixels. In the browser it is a fractional CSS-pixel value, and the canvas
  is not scaled, so both units agree; fractions are not modelled.
- Lengths are unbounded integers in cm and px. The h/2, 0.6h and 0.4h accessory defaults are
  exact reals, with no IEEE rounding. `Number(value)` on a slider is taken as an integer.
- `addAccessory` with a type outside the five buttons (which would create `{id}` alone) is
  not modelled: the kind is one of the five.
- Falsy JavaScript strings (`undefined`, `null`, `''`) are the empty string, since the code
  only tests them for truthiness. An absent `materials`, `vendorSpecs` or `environment` is
  `None`.
- The regular expression's `.` is modelled as any character except `\n`, `\r`, U+2028 and
  U+2029. The `i` flag is modelled as ASCII case folding of the extension.
- Routing, the admin and renderer pages, and timers are outside the modelled core.

## Findings

| source | as written | input that shows it | evidently intended | confidence | as-written member | corrected member |
|---|---|---|---|---|---|---|
| src/pages/EditorPage.jsx:17 | the canvas width is 3·Σw + 24 + 40 and omits the 12 px gaps that line 133 adds between cabinets | three 60 cm cabinets: the last one ends at 44 + 3·180 + 24 = 608 px on a 604 px canvas | the width counts the gaps, 3·Σw + 64 + 12·(n−1), so the 20 px right margin is kept | not executed | CanvasLayout.CanvasWidthAsWritten, CanvasLayout.LastCabinetFitsAsWrittenIff, CanvasLayout.ThreeCabinetsOverflow | CanvasLayout.CanvasWidth, CanvasLayout.CabinetsFitCanvas |
