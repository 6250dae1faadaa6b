# Solar projects catalogue: search filter and registration form

This project models the two pieces of logic in the solar-projects web
application that can be stated precisely:

- **The project search page** (`app/page.tsx`). Eight filter criteria are
  combined with AND over an in-memory list of projects:
  - a free-text search over name, location and projetista;
  - module and inverter quantity;
  - module and inverter brand;
  - module and inverter model;
  - distribuidora (the electricity utility).

  A criterion that is the empty string places no constraint. The page also
  has the "Limpar Filtros" reset and the de-duplicated model lists offered by
  the two model selects. It is modelled with datatypes and functions in
  module `SearchPage` (`search_page.dfy`).
- **The project registration form** (`app/cadastro/page.tsx`). This covers:
  - the attachment validator (`validateFile`) and the file icon rule
    (`getFileIcon`), as functions;
  - the page state, as the class `Cadastro.ProjectForm`. It holds
    `formData`, the attachment list `uploadedFiles` and the project list kept
    in browser storage. Its methods are `handleInputChange`, the two atomic
    halves of `uploadToCloudinary` (start, then completion with the storage
    service's answer passed in as a parameter), `removeFile` and
    `handleSubmit`.

The JavaScript string operations both pages use are in module `Strings`
(`strings.dfy`): `toLowerCase`, `includes`, `endsWith`, `toString` of an
integer and `split(".").pop()`. Module `Sequences` (`sequences.dfy`) holds
what "keeps the order" means, and the duplicate-free list that
`[...new Set(xs)]` builds.

Three points of the code that are easy to misread:

- The select items "Todas as distribuidoras" / "Todos os modelos" set the
  criterion to the literal string `"all"` (`app/page.tsx:305`, `:352`, `:400`).
  That string is non-empty, so it is compared by equality like any other
  value. Choosing it therefore hides every project whose field is not literally
  `"all"`; it does not clear the criterion.
- The free-text search also matches `projetista`, not only name and location.
- A project has one module quantity/brand/model and one inverter
  quantity/brand/model. The code has no lists of equipment line items, no
  line-item editor, and no `tipoPadrao` or `capacidadeDisjuntor` criteria.

## Model

| member | source | states |
|---|---|---|
| `SearchPage.Filter` | app/page.tsx:183-220 | the result keeps the input's order (a subsequence), and it holds exactly the projects that satisfy all criteria; `FilterCounts` states that every copy is kept |
| `SearchPage.FilterCounts` | app/page.tsx:184 | each project occurs in the result as often as in the list when it matches, and not at all otherwise, so duplicates are kept |
| `SearchPage.Holds` | app/page.tsx:185-207 | one criterion's test, an empty value always passing; its contract is stated by `SearchTermIff`, `QuantityCriterionIff`, `BrandCriterionIff` and `ExactCriteriaConstrain` |
| `SearchPage.Matches` | app/page.tsx:209-218 | the predicate given to `filter`; its contract is stated by `MatchesIffEveryCriterion` |
| `SearchPage.MatchesIffEveryCriterion` | app/page.tsx:209-218 | a project is kept iff each of the eight criteria holds for it, where an empty criterion always holds |
| `SearchPage.ClearFilters` | app/page.tsx:222-233 | the reset sets every criterion to the empty string |
| `SearchPage.ClearFiltersKeepsAll` | app/page.tsx:183-233 | with the reset filter state the result is the whole list, in the same order |
| `SearchPage.Filters.With` | app/page.tsx:297-300 | an input's or select's change handler sets exactly that criterion and leaves the other seven as they were |
| `SearchPage.FilterOfFilter` | app/page.tsx:184-218 | filtering by weaker criteria and then by stronger ones gives the same result as filtering by the stronger ones alone |
| `SearchPage.FilterNarrowing` | app/page.tsx:209-218 | setting extra criteria (keeping those already set) can only shrink the result, and the result stays a subsequence of the wider one |
| `SearchPage.AddCriterion` | app/page.tsx:209-218 | setting one more criterion equals filtering the previous result by that criterion alone (the criteria compose by AND) |
| `SearchPage.FilterIdempotent` | app/page.tsx:184 | filtering an already filtered list again changes nothing |
| `SearchPage.SearchTermIff` | app/page.tsx:185-189 | a non-empty search term keeps a project iff its lower-cased text occurs in the lower-cased name, location or projetista |
| `SearchPage.QuantityCriterionIff` | app/page.tsx:191-200 | a non-empty quantity criterion matches iff it is the canonical decimal numeral of the quantity (digits only, no leading zero) |
| `SearchPage.QuantityLeadingZero` | app/page.tsx:191-192 | "20" matches a quantity of 20; "020" matches no module or inverter quantity |
| `SearchPage.BrandCriterionIff` | app/page.tsx:194-203 | a non-empty module or inverter brand criterion keeps a project iff its lower-cased text occurs in the lower-cased brand |
| `SearchPage.BrandIgnoresCase` | app/page.tsx:194-195 | an example of that rule: "jinko" matches "Jinko Solar", "Trina" does not |
| `SearchPage.ExactCriteriaConstrain` | app/page.tsx:197-207 | a non-empty model or distribuidora criterion keeps only projects whose field equals it exactly |
| `SearchPage.AllItemConstrains` | app/page.tsx:304-305 | choosing the "all" item in a model or distribuidora select gives an empty result unless some project's field is literally "all" |
| `SearchPage.SingleCriterion` | app/page.tsx:186-207 | with the other seven criteria cleared, a project is kept iff the one set criterion holds |
| `SearchPage.AllItemEmptiesSampleList` | app/page.tsx:61-162 | on the built-in list, choosing "all" in any of the three selects shows no project |
| `SearchPage.DistribuidoraOnSampleList` | app/page.tsx:207 | on the built-in list, "CPFL Energia" selects projects 1 and 4, in that order |
| `SearchPage.ModuleQuantityOnSampleList` | app/page.tsx:191-192 | on the built-in list, module quantity "20" selects project 1 alone and "020" selects none |
| `SearchPage.UniqueModuleModels` | app/page.tsx:179 | the module model select's items; their contract is stated by `UniqueModuleModelsExactlyOnce` |
| `SearchPage.UniqueInverterModels` | app/page.tsx:180 | the inverter model select's items; their contract is stated by `UniqueInverterModelsExactlyOnce` |
| `SearchPage.UniqueModuleModelsExactlyOnce` | app/page.tsx:179 | the module models offered are pairwise distinct, a model is offered iff some project has it, and one model comes before another iff the first project carrying it comes before the first project carrying the other |
| `SearchPage.UniqueInverterModelsExactlyOnce` | app/page.tsx:180 | the inverter models offered are pairwise distinct, a model is offered iff some project has it, and they come in the order of the first project carrying each |
| `SearchPage.OfferedModelFindsProject` | app/page.tsx:352-357 | picking any offered module model, with the other criteria cleared, finds at least one project |
| `Sequences.Dedup` | app/page.tsx:179-180 | spreading a `Set` built from a list gives each element of the list exactly once, and nothing else |
| `Sequences.DedupIsSubsequence` | app/page.tsx:179-180 | that de-duplicated list is a subsequence of the list |
| `Sequences.DedupFirstAppearance` | app/page.tsx:179-180 | that de-duplicated list is in the order of first appearance: of two elements, the one whose first occurrence in the list is earlier comes first |
| `Strings.Lower` | app/page.tsx:187-189 | `toLowerCase` keeps the length; `LowerOfLower`, `LowerSlice` and `LowerKeepsDots` state the rest |
| `Strings.Contains` | app/page.tsx:187-189 | `includes`; its contract is stated by `ContainsIff` |
| `Strings.EndsWith` | app/cadastro/page.tsx:122 | `endsWith`; used by `ValidateFileIff` and `DwgNameGetsDrawingIcon` |
| `Strings.NatToString` | app/page.tsx:192 | `toString` of a quantity is non-empty; its contract is stated by `NatToStringIff` |
| `Strings.ContainsIff` | app/page.tsx:187-189 | `includes` holds iff the part occurs at some position of the text |
| `Strings.NatToStringIff` | app/page.tsx:192 | `toString` of a quantity is the one canonical decimal numeral whose value is that quantity |
| `Strings.NatToStringInjective` | app/page.tsx:200 | distinct quantities have distinct decimal renderings |
| `Strings.AfterLastDot` | app/cadastro/page.tsx:248 | `split(".").pop()` is the suffix after the last '.', or the whole name when there is none; it contains no '.' |
| `Strings.AfterLastDotIs` | app/cadastro/page.tsx:248 | the extension of `prefix + "." + e` is `e` when `e` has no '.' |
| `Strings.AfterLastDotNoDot` | app/cadastro/page.tsx:248 | a name without '.' is its own extension |
| `Cadastro.IsDwgName` | app/cadastro/page.tsx:122 | the `.dwg` name test; stated through `EndsWith` in `ValidateFileIff` |
| `Cadastro.IsAllowedType` | app/cadastro/page.tsx:123 | the type test; stated through `OccursAt` in `ValidateFileIff` |
| `Cadastro.ValidateFile` | app/cadastro/page.tsx:99-135 | `validateFile`; its contract is stated by `ValidateFileIff` |
| `Cadastro.ValidateFileIff` | app/cadastro/page.tsx:99-135 | a file is rejected as too large iff it exceeds 10·1024·1024 bytes; it is accepted iff it is within that size and an allow-listed string occurs in its type or its lower-cased name ends in ".dwg" |
| `Cadastro.SizeBoundary` | app/cadastro/page.tsx:100-119 | a PDF of exactly 10 MiB is accepted; one of 11 MiB is rejected for its size |
| `Cadastro.DwgAcceptedByName` | app/cadastro/page.tsx:121-123 | "PLANTA.DWG" with an empty type is accepted by its name |
| `Cadastro.Optimistic` | app/cadastro/page.tsx:140-145 | the optimistic record is uploading, has no url and no publicId, keeps name and size, and gets type "application/dwg" when the browser gave none |
| `Cadastro.MarkUploaded` | app/cadastro/page.tsx:172-183 | the list update of a successful upload keeps the length; its contract is stated by `MarkUploadedEffect` |
| `Cadastro.MarkUploadedEffect` | app/cadastro/page.tsx:172-183 | a successful upload resolves exactly the in-flight records of that name, giving them the url and publicId; every other record, every resolved one included, is unchanged; length, order, names, sizes and types are kept; no uploading record holds a url |
| `Cadastro.DropNamed` | app/cadastro/page.tsx:191 | removal by name keeps, in their relative order, exactly the records with another name |
| `Cadastro.DropNamedEffect` | app/cadastro/page.tsx:240 | removal by name keeps the list well formed, and it is a no-op when no record has that name |
| `Cadastro.DropNamedAppend` | app/cadastro/page.tsx:147-191 | removal by name distributes over the append of the optimistic record |
| `Cadastro.FailedUploadRollsBack` | app/cadastro/page.tsx:137-198 | when no record of that name existed before, a failed upload restores the list exactly |
| `Cadastro.FailedUploadDropsSameName` | app/cadastro/page.tsx:189-191 | a failed upload also removes an earlier, already resolved attachment of the same name |
| `Cadastro.SuccessfulUploadAppendsResolved` | app/cadastro/page.tsx:140-183 | start followed by a successful completion, with no in-flight record of that name, appends exactly the resolved record |
| `Cadastro.AnyUploading` | app/cadastro/page.tsx:287 | some record is still uploading; used by `HandleSubmit`'s contract and `FinishedWhenNoneUploading` |
| `Cadastro.Finished` | app/cadastro/page.tsx:300 | the saved files are exactly the records that are not uploading, in order |
| `Cadastro.FinishedCounts` | app/cadastro/page.tsx:300 | each record occurs among the saved files as often as in the list when it is not uploading, and not at all otherwise, so duplicates are kept |
| `Cadastro.FinishedWhenNoneUploading` | app/cadastro/page.tsx:286-300 | once the pending-upload check has passed, keeping the finished records keeps all of them |
| `Cadastro.GetFileIcon` | app/cadastro/page.tsx:247-254 | `getFileIcon`; its contract is stated by `DwgNameGetsDrawingIcon`, `IconWithoutDot` and `IconAfterLastDot` |
| `Cadastro.IconForExtension` | app/cadastro/page.tsx:250-253 | the four icon branches over the lower-cased extension; stated through `GetFileIcon` by the icon lemmas below |
| `Cadastro.DwgNameGetsDrawingIcon` | app/cadastro/page.tsx:247-250 | every file whose lower-cased name ends in ".dwg" is shown with the drawing icon |
| `Cadastro.IconWithoutDot` | app/cadastro/page.tsx:248-250 | a name without a '.' is its own extension, so a file named just "dwg" gets the drawing icon |
| `Cadastro.IconOnlyExtension` | app/cadastro/page.tsx:247-253 | for every name and type, only the text after the last '.' decides the icon: `prefix.e` with any type gets the icon of the bare `e` with any other type |
| `Cadastro.IconAfterLastDot` | app/cadastro/page.tsx:247-251 | an example of that rule, in any case: "memorial.v2.PDF" typed "image/png" gets the document icon |
| `Cadastro.EmptyForm` | app/cadastro/page.tsx:321-333 | the reset form has exactly the eleven required fields, all "" |
| `Cadastro.MissingFields` | app/cadastro/page.tsx:262-275 | a field is reported missing iff it is required and absent or "" |
| `Cadastro.EmptyFormMissesEverything` | app/cadastro/page.tsx:275-283 | a freshly reset form misses every required field, so it is refused |
| `Cadastro.ProjectForm.constructor` | app/cadastro/page.tsx:66-80 | the page starts with the empty form and no attachments |
| `Cadastro.ProjectForm.HandleInputChange` | app/cadastro/page.tsx:84-89 | only the named field changes; the other fields, the attachments and the stored list do not |
| `Cadastro.ProjectForm.BeginUpload` | app/cadastro/page.tsx:137-147 | the verdict is `validateFile`'s; a rejected file leaves the list unchanged, and an accepted one appends the optimistic record |
| `Cadastro.ProjectForm.CompleteUpload` | app/cadastro/page.tsx:171-191 | on success the list becomes `MarkUploaded` of the old list; on failure every record of that name is dropped |
| `Cadastro.ProjectForm.RemoveFile` | app/cadastro/page.tsx:224-245 | a delete request is issued iff a non-empty publicId is given; the records of that name are dropped either way |
| `Cadastro.ProjectForm.HandleSubmit` | app/cadastro/page.tsx:256-350 | a missing field refuses first and a pending upload second, and a refused submit changes nothing; a complete form with no pending upload is always saved; a successful one appends the project with exactly the non-uploading files (that is, all of them), then empties the form and the list |

## Left out

- The network requests are not modelled: the upload request to the media
  storage service, the delete request in `removeFile`, and the API routes under
  `app/api/`. A completed upload is a parameter of `CompleteUpload`. Whether
  `removeFile` would send a delete request is its boolean result.
- `lib/supabase.ts` only builds a client and declares types. `next.config.js`
  is build configuration.
- `formatFileSize` is left out: it computes with floating point (`Math.log`,
  `Math.pow`, `toFixed`).
- `handleFileSelect` and `handleDrop` only call `uploadToCloudinary` for each
  file. Each such upload is a `BeginUpload` followed, later, by a
  `CompleteUpload`.
- Concurrent uploads are not interleaved inside a step. Each completion is one
  atomic list update, and any number of them may run between a start and its
  completion. The consequences of matching records by name are stated as
  lemmas (`FailedUploadDropsSameName`, and the "no in-flight record of that
  name" precondition of `SuccessfulUploadAppendsResolved`).
- `Cadastro.ProjectForm.HandleSubmit`: some behaviour is not modelled:
  - the one-second wait before the reset, so an upload started during that
    second would also be wiped out in the real page;
  - the `createdAt` timestamp. The temporary id is a clock parameter;
  - the JSON encoding of the stored list;
  - the `catch` branch for storage errors.
- Notifications (`toast`), `console` logging, the drag and submitting flags,
  and all rendering are left out.
- `Strings.Lower` lower-cases only the ASCII letters A to Z. JavaScript's
  `toLowerCase` also lower-cases accented and other non-ASCII letters.
- `SearchPage.Project` holds quantities as non-negative integers. JavaScript
  numbers that are negative or fractional render differently, and the page's
  data never holds them.
- `Strings.NatToString` models `toString` only below 10^21. From 10^21 on,
  JavaScript writes the number in exponent form (`"1e+21"`), and above 2^53
  a number is no longer stored exactly. `QuantityCriterionIff` therefore holds
  for the source only for quantities below those bounds, which every quantity
  of the page's data is.
- The search page's per-project attachment list and the date formatting of
  its detail view are not modelled; neither takes part in the filter.
