# Bookxpert core, modelled in Dafny

Bookxpert is an iOS app. It shows a catalogue of mobile devices fetched from a
REST service and cached in Core Data, and lets the user edit an item's name and
fields under validation rules. It keeps the signed-in user's details in a
single stored row and shows a PDF document with page navigation. This project
models the logic behind those features and proves what it promises.

- `wrappers.dfy`: `Option` and `Result`.
- `text.dfy` (`Text`): trimming `.whitespacesAndNewlines`, ASCII
  `lowercased()` and `capitalized`, and the `<` order on strings.
- `numbers.dfy` (`Numbers`): `Int(String)`, `String(Int)`,
  `Double(String)` and `String(Double)`. A finite `Double` is an exact
  decimal, so "is negative" and "has no fractional part" are exact.
- `catalogue_values.dfy` (`CatalogueValues`): `JSONValue` decoding, encoding
  and `stringValue`; `MobileCatalogueItem.keyValueList`; the JSON blob an
  item's fields are stored as.
- `catalogue_repository.dfy` (`CatalogueRepository`):
  `MobileCatalogueRepository`, a class over the published `catalogueItems`
  list and the `CatalogueItemEntity` rows.
- `edit_catalogue.dfy` (`EditCatalogue`): `EditCatalogueItemViewModel`. It
  covers the field and name rules, the capacity pattern, validation of the
  whole item, rebuilding an item with type preservation, change detection
  and saving.
- `user_details_repository.dfy` (`UserDetailsStore`):
  `UserDetailsRepository`, with its stored rows and its in-memory copy.
- `pdf_repository.dfy` (`PdfStore`): `PDFRepository`, a URL-keyed cache in
  front of the download service.
- `pdf_viewer.dfy` (`PdfViewer`): `PDFViewerViewModel`. It covers page
  navigation, the page text and the load and refresh transitions.

The stores are modelled as the managed-object context sees them:
- An insert, change or delete is visible to later fetches at once.
- A failed `save()` reports an error but does not undo the change.

The outcomes of the outside world are parameters of each operation:
- whether a Core Data fetch succeeds (`fetchOk`);
- whether a save succeeds (`saveOk`);
- what the catalogue service answers;
- what a PDF download gives.

Ghost fields count the calls to the catalogue and PDF services. A ghost log
records the view states the PDF viewer publishes, in order.

Dictionary iteration order is not fixed in Swift. The loops that depend on it
(field validation, rebuilding an item) are proved for every visiting order.

The JSON decoder works on typed tokens: a JSON string such as `"1"` stays a
`.string`. This follows the code at MobileCatalogueService.swift:52-63, where
`container.decode(Bool.self)` and `decode(Int.self)` fail on a JSON string.

A failed fetch in `saveUserDetails` is read through `try?` as "no row", so the
save inserts a second row. The model keeps this behaviour: "at most one row"
is proved for saves whose fetch succeeds.

Scenario methods walk through the flows the repository's tests check. They
carry no contract of their own:
- `CatalogueRepository.CacheThenReuse`;
- `UserDetailsStore.SignInLifecycle`;
- `PdfStore.FetchTwice`;
- `PdfViewer.ViewThreePages`;
- `EditCatalogue.StaleValidationExample` and `EditCatalogue.StaleNameExample`.

## Model

| member | source | states |
|---|---|---|
| Text.Trim | Bookxpert/Bookxpert/MobileCatalogue/EditCatalogueItemViewModel.swift:200-201 | the trimmed text is no longer than the input, is empty exactly when the input is all white space, and otherwise starts and ends with a non-white-space character |
| Text.TrimRemovesOnlyEnds | Bookxpert/Bookxpert/MobileCatalogue/EditCatalogueItemViewModel.swift:200-201 | the trimmed text is the slice of the input between a white-space prefix and a white-space suffix |
| Text.TrimIdempotent | Bookxpert/Bookxpert/MobileCatalogue/EditCatalogueItemViewModel.swift:172 | trimming the already-trimmed name again changes nothing |
| Text.CapitalizedIgnoresCase | Bookxpert/Bookxpert/MobileCatalogue/EditCatalogueItemViewModel.swift:124 | `key.capitalized` is the same for two keys that differ only in case |
| Text.CapitalizedWordStarts | Bookxpert/Bookxpert/MobileCatalogue/EditCatalogueItemViewModel.swift:124 | a word starts after any character that is not a letter: "wi-fi" capitalizes to "Wi-Fi" and "5g" to "5G" |
| Text.PrecedesTransitive | Bookxpert/Bookxpert/Services/MobileCatalogueService.swift:39 | the `<` order used to sort keys is transitive |
| Text.PrecedesTotal | Bookxpert/Bookxpert/Services/MobileCatalogueService.swift:39 | any two different keys are ordered one way or the other |
| Text.PrecedesAsymmetric | Bookxpert/Bookxpert/Services/MobileCatalogueService.swift:39 | two keys are never ordered both ways |
| Numbers.ParseIntText | Bookxpert/Bookxpert/Services/MobileCatalogueService.swift:90 | `Int(String(i)) == i` for every `Int` |
| Numbers.ParseDoubleText | Bookxpert/Bookxpert/Services/MobileCatalogueService.swift:91 | `Double(String(d)) == d` for every finite double |
| Numbers.ParseIntThenParseDouble | Bookxpert/Bookxpert/MobileCatalogue/EditCatalogueItemViewModel.swift:255-262 | text that `Int(_)` accepts is also accepted by `Double(_)`, as a whole number of the same value |
| Numbers.FromInt | Bookxpert/Bookxpert/Services/MobileCatalogueService.swift:77-78 | an integer written as a JSON number is a whole number of the same value and sign |
| CatalogueValues.Decode | Bookxpert/Bookxpert/Services/MobileCatalogueService.swift:49-70 | exactly bool, number and string tokens decode; anything else is a type mismatch; a decoded `.double` never fits `Int`; re-encoding gives the token back (except for negative zero) |
| CatalogueValues.DecodersAgree | Bookxpert/Bookxpert/Services/MobileCatalogueService.swift:56-61 | the decoder as written and the corrected one agree on every token except whole numbers beyond `Int`'s range |
| CatalogueValues.DecodeAsWrittenTrapsAboveIntMax | Bookxpert/Bookxpert/Services/MobileCatalogueService.swift:57-58 | as written, the number 10^19 stops the program; the corrected decoder gives `.double` |
| CatalogueValues.DecodeEncode | Bookxpert/Bookxpert/Services/MobileCatalogueService.swift:72-84 | decode(encode(v)) == v for `.string`, `.int` and `.bool`; a whole `.double` that fits `Int` comes back as `.int` |
| CatalogueValues.StringValueReadsBack | Bookxpert/Bookxpert/Services/MobileCatalogueService.swift:86-94 | `stringValue` of a string is the string itself; the text of an int or double parses back to the same number; a bool's text is "true" or "false" according to its value |
| CatalogueValues.SortedKeys | Bookxpert/Bookxpert/Services/MobileCatalogueService.swift:39 | every key appears exactly once, in strictly ascending order |
| CatalogueValues.KeyValueList | Bookxpert/Bookxpert/Services/MobileCatalogueService.swift:36-40 | one pair per data key, holding that key's `stringValue`, strictly ascending by key; empty when data is nil |
| CatalogueValues.DecodeEncodeFields | Bookxpert/Bookxpert/Repository/MobileCatalogue/MobileCatalogueRepository.swift:50-73 | fields stored as a JSON blob decode back to the same fields, up to int collapse of whole doubles |
| CatalogueRepository.ItemOfRecordOf | Bookxpert/Bookxpert/Repository/MobileCatalogue/MobileCatalogueRepository.swift:48-56 | an item written to a row and read back is the same item, up to the int collapse |
| CatalogueRepository.ItemsOfRecordsOf | Bookxpert/Bookxpert/Repository/MobileCatalogue/MobileCatalogueRepository.swift:64-81 | rows written by a refresh read back in the same order as the refreshed items |
| CatalogueRepository.FirstIndex | Bookxpert/Bookxpert/Repository/MobileCatalogue/MobileCatalogueRepository.swift:112 | `firstIndex(where:)`: none exactly when the id is absent; otherwise an index holding the id with no earlier one |
| CatalogueRepository.ReplaceFirst | Bookxpert/Bookxpert/Repository/MobileCatalogue/MobileCatalogueRepository.swift:112-114 | the same length; only the first element with the id becomes the item, at its index; no change when the id is absent |
| CatalogueRepository.ReplaceFirstFindsItem | Bookxpert/Bookxpert/Repository/MobileCatalogue/MobileCatalogueRepository.swift:112-113 | after the replace, the first element with the id is the item, at the same index |
| CatalogueRepository.RemoveWithId | Bookxpert/Bookxpert/Repository/MobileCatalogue/MobileCatalogueRepository.swift:126 | no element with the id remains, and every other element stays |
| CatalogueRepository.RemoveWithIdSingle | Bookxpert/Bookxpert/Repository/MobileCatalogue/MobileCatalogueRepository.swift:126 | a single element is dropped iff it has the id, and kept otherwise |
| CatalogueRepository.RemoveWithIdAppend | Bookxpert/Bookxpert/Repository/MobileCatalogue/MobileCatalogueRepository.swift:126 | removing from a concatenation removes from each part and concatenates the results, so survivors keep their order and their number of occurrences |
| CatalogueRepository.RemoveWithIdIdempotent | Bookxpert/Bookxpert/Repository/MobileCatalogue/MobileCatalogueRepository.swift:117-128 | removing an id twice is the same as removing it once |
| CatalogueRepository.RemoveWithIdLength | Bookxpert/Bookxpert/Repository/MobileCatalogue/MobileCatalogueRepository.swift:126 | the list shrinks by the number of elements with the id |
| CatalogueRepository.StoredBigDoubleReadBack | Bookxpert/Bookxpert/Repository/MobileCatalogue/MobileCatalogueRepository.swift:48-56 | an item whose price is the whole double 10^19 is stored as that JSON number, which the decoder as written cannot read back (it stops the program); the corrected read gives the item back |
| CatalogueRepository.MobileCatalogueRepository.constructor | Bookxpert/Bookxpert/Repository/MobileCatalogue/MobileCatalogueRepository.swift:26-36 | an empty list over the given rows, with no service call yet |
| CatalogueRepository.MobileCatalogueRepository.FetchCatalogue | Bookxpert/Bookxpert/Repository/MobileCatalogue/MobileCatalogueRepository.swift:42-91 | not forced and the fetch finds rows: the list is read back from the rows, with no service call. Otherwise (forced, a failed fetch, or no rows) one service call: on failure the error propagates and nothing changes; on success every returned item is appended as a row and the list becomes the returned items |
| CatalogueRepository.MobileCatalogueRepository.UpdateCatalogueItem | Bookxpert/Bookxpert/Repository/MobileCatalogue/MobileCatalogueRepository.swift:93-115 | a failed fetch throws a persistence error; no row with the id gives `unableToUpdate`; in both cases nothing changes. Otherwise the first such row takes the item, and only after a successful save is the first list element with the id replaced in place |
| CatalogueRepository.MobileCatalogueRepository.DeleteCatalogueItem | Bookxpert/Bookxpert/Repository/MobileCatalogue/MobileCatalogueRepository.swift:117-128 | a failed fetch throws and changes nothing; the first row with the id is deleted and, after a successful save, every list element with the id is removed; no such row is a silent no-op |
| CatalogueRepository.MobileCatalogueRepository.DeleteCatalogue | Bookxpert/Bookxpert/Repository/MobileCatalogue/MobileCatalogueRepository.swift:130-144 | every row is deleted and, after a successful save, the list is emptied; a failed fetch changes nothing and nothing is thrown |
| EditCatalogue.ResultOf | Bookxpert/Bookxpert/MobileCatalogue/EditCatalogueItemViewModel.swift:193 | the result carries exactly the collected messages and is `.valid` iff there are none |
| EditCatalogue.CapacityFormAccepted | Bookxpert/Bookxpert/MobileCatalogue/EditCatalogueItemViewModel.swift:268-273 | digits, optional spaces and GB/TB/MB in one case form a valid capacity |
| EditCatalogue.CapacityBodyForm | Bookxpert/Bookxpert/MobileCatalogue/EditCatalogueItemViewModel.swift:268-273 | every accepted capacity without a final line break is one or more digits, then spaces, then a unit |
| EditCatalogue.CapacityRejectsMixedCase | Bookxpert/Bookxpert/MobileCatalogue/EditCatalogueItemViewModel.swift:269 | a unit in mixed case ("Gb") is refused |
| EditCatalogue.FieldErrors | Bookxpert/Bookxpert/MobileCatalogue/EditCatalogueItemViewModel.swift:91-128 | an empty value never gives an error, and no rule gives more than one message |
| EditCatalogue.FieldErrorsIgnoreKeyCase | Bookxpert/Bookxpert/MobileCatalogue/EditCatalogueItemViewModel.swift:94 | the rule is chosen by the lower-cased key: keys that differ only in case give the same messages |
| EditCatalogue.PriceRule | Bookxpert/Bookxpert/MobileCatalogue/EditCatalogueItemViewModel.swift:95-101 | exactly "Price must be a valid number" iff non-empty and unparseable; exactly "Price cannot be negative" iff it parses below zero; no message otherwise |
| EditCatalogue.YearRule | Bookxpert/Bookxpert/MobileCatalogue/EditCatalogueItemViewModel.swift:108-114 | the number message iff non-empty and not an `Int`; the range message iff an `Int` outside 1900...2030; no message iff empty or in range |
| EditCatalogue.CapacityRuleAccepts | Bookxpert/Bookxpert/MobileCatalogue/EditCatalogueItemViewModel.swift:103-106 | for capacity and storage in any case, digits, optional spaces and GB/TB/MB in one case give no message |
| EditCatalogue.CapacityRuleForm | Bookxpert/Bookxpert/MobileCatalogue/EditCatalogueItemViewModel.swift:103-106 | for capacity and storage, a value without a final line break that gives no message is one or more digits, then spaces, then a unit; any other outcome is exactly the format message |
| EditCatalogue.NameErrors | Bookxpert/Bookxpert/MobileCatalogue/EditCatalogueItemViewModel.swift:171-178 | no name message iff the name is not blank and has at most 50 characters |
| EditCatalogue.Flatten | Bookxpert/Bookxpert/MobileCatalogue/EditCatalogueItemViewModel.swift:180-184 | the field messages are empty iff every visited field has none |
| EditCatalogue.CaseDuplicatesIffCollision | Bookxpert/Bookxpert/MobileCatalogue/EditCatalogueItemViewModel.swift:186-191 | comparing the count of lower-cased keys with the key count detects exactly two different keys that agree once lower-cased |
| EditCatalogue.CompleteErrorsEmptyIff | Bookxpert/Bookxpert/MobileCatalogue/EditCatalogueItemViewModel.swift:168-194 | in any visiting order, no message iff the trimmed name has 1 to 50 characters, no field has a message and no two keys collide by case |
| EditCatalogue.ValidationVerdict | Bookxpert/Bookxpert/MobileCatalogue/EditCatalogueItemViewModel.swift:160-166 | validating the rebuilt item gives the editor's verdict, and its messages are empty iff it is valid |
| EditCatalogue.ConvertToOriginalType | Bookxpert/Bookxpert/MobileCatalogue/EditCatalogueItemViewModel.swift:219-245 | text that reads as the original's type keeps that type with the parsed value; otherwise `.string(text)`; an original string always gives a string |
| EditCatalogue.ConvertStringValue | Bookxpert/Bookxpert/MobileCatalogue/EditCatalogueItemViewModel.swift:204-206 | a field's own `stringValue` converts back to the field's value |
| EditCatalogue.InferJsonValueType | Bookxpert/Bookxpert/MobileCatalogue/EditCatalogueItemViewModel.swift:247-266 | bool iff the text is "true"/"false" in any case; int iff not a bool and `Int(_)` accepts it; double only when `Int(_)` refuses and `Double(_)` accepts; string iff neither bool nor `Double(_)`; each with the parsed value |
| EditCatalogue.InferStringValue | Bookxpert/Bookxpert/MobileCatalogue/EditCatalogueItemViewModel.swift:247-266 | the text of an int, double or bool is inferred as that same value |
| EditCatalogue.UpdatedItemShape | Bookxpert/Bookxpert/MobileCatalogue/EditCatalogueItemViewModel.swift:196-217 | the rebuilt item keeps the id and trims the name. It keeps exactly the fields whose text is not blank, and its data is nil iff none is left. A field that was in the item keeps its type or becomes its trimmed text; a new field is inferred |
| EditCatalogue.InitialFields | Bookxpert/Bookxpert/MobileCatalogue/EditCatalogueItemViewModel.swift:131-139 | the editor starts with exactly the item's data keys; UneditedFieldsUnchanged shows each text converts back to its field |
| EditCatalogue.AreItemsEqualIff | Bookxpert/Bookxpert/MobileCatalogue/EditCatalogueItemViewModel.swift:294-311 | `areItemsEqual` holds iff id, name and key set agree and every key has the same `stringValue` |
| EditCatalogue.UneditedItemRebuilt | Bookxpert/Bookxpert/MobileCatalogue/EditCatalogueItemViewModel.swift:196-217 | an editor left untouched rebuilds exactly the original item, for a trimmed name, trimmed non-empty strings and data that is nil or non-empty |
| EditCatalogue.UneditedItemUnchanged | Bookxpert/Bookxpert/MobileCatalogue/EditCatalogueItemViewModel.swift:289-292 | an editor left untouched reports no change, for a trimmed name and trimmed non-empty strings; empty data and nil data compare alike |
| EditCatalogue.UneditedFieldsUnchanged | Bookxpert/Bookxpert/MobileCatalogue/EditCatalogueItemViewModel.swift:199-210 | each field's own text, trimmed and reinterpreted, gives the field back |
| EditCatalogue.OwnTextTrimmed | Bookxpert/Bookxpert/MobileCatalogue/EditCatalogueItemViewModel.swift:200-201 | the text of a number or bool is non-empty and already trimmed |
| EditCatalogue.EditCatalogueItemViewModel.constructor | Bookxpert/Bookxpert/MobileCatalogue/EditCatalogueItemViewModel.swift:58-68 | the editor opens on the item's name and one text per field, valid and with no message |
| EditCatalogue.EditCatalogueItemViewModel.ValidateField | Bookxpert/Bookxpert/MobileCatalogue/EditCatalogueItemViewModel.swift:91-129 | the appending method returns exactly the rule's messages |
| EditCatalogue.EditCatalogueItemViewModel.CollectFieldErrors | Bookxpert/Bookxpert/MobileCatalogue/EditCatalogueItemViewModel.swift:180-184 | the loop visits every field once and collects every field's messages in visiting order; none are collected iff no field has a message |
| EditCatalogue.EditCatalogueItemViewModel.ValidateCompleteItem | Bookxpert/Bookxpert/MobileCatalogue/EditCatalogueItemViewModel.swift:168-194 | name messages, then every field's messages, then one duplicate message, in some visiting order; `.valid` iff the name, every field and the key set each pass |
| EditCatalogue.EditCatalogueItemViewModel.ValidateCurrentState | Bookxpert/Bookxpert/MobileCatalogue/EditCatalogueItemViewModel.swift:160-166 | `isValid` is the editor's verdict on the current name and fields, and `validationErrors` is empty iff valid |
| EditCatalogue.EditCatalogueItemViewModel.CreateUpdatedItem | Bookxpert/Bookxpert/MobileCatalogue/EditCatalogueItemViewModel.swift:196-217 | the loop over the fields returns the rebuilt item of the current name and fields, whose shape UpdatedItemShape states |
| EditCatalogue.EditCatalogueItemViewModel.UpdateField | Bookxpert/Bookxpert/MobileCatalogue/EditCatalogueItemViewModel.swift:87-89 | the field takes the text, and the verdict published is that of the fields after the edit |
| EditCatalogue.EditCatalogueItemViewModel.UpdateFieldAsWritten | Bookxpert/Bookxpert/MobileCatalogue/EditCatalogueItemViewModel.swift:150-156 | the field takes the text, but the verdict published is that of the fields before the edit |
| EditCatalogue.EditCatalogueItemViewModel.EditName | Bookxpert/Bookxpert/MobileCatalogue/EditCatalogueItemViewModel.swift:143-148 | the name takes the text, and the verdict published is that of the new name |
| EditCatalogue.EditCatalogueItemViewModel.EditNameAsWritten | Bookxpert/Bookxpert/MobileCatalogue/EditCatalogueItemViewModel.swift:143-148 | the name takes the text, but the verdict published is that of the name before the edit |
| EditCatalogue.EditCatalogueItemViewModel.HasChanges | Bookxpert/Bookxpert/MobileCatalogue/EditCatalogueItemViewModel.swift:289-292 | true iff the rebuilt item is not equal to the original by `areItemsEqual` |
| EditCatalogue.EditCatalogueItemViewModel.SaveItem | Bookxpert/Bookxpert/MobileCatalogue/EditCatalogueItemViewModel.swift:70-81 | the rebuilt item goes to `updateCatalogueItem`; its error, if any, is kept; loading ends; name, fields and verdict are unchanged; no service call is made. A failed fetch and a missing id change neither the rows nor the catalogue list; a failed save leaves the list unchanged; a successful save replaces the first list element with the id |
| UserDetailsStore.UserDetailsRepository.constructor | Bookxpert/Bookxpert/Repository/UserDetails/UserDetailsRepository.swift:25-27 | the repository opens on the stored rows with no in-memory copy |
| UserDetailsStore.UserDetailsRepository.GetUserDetails | Bookxpert/Bookxpert/Repository/UserDetails/UserDetailsRepository.swift:63-74 | the copy when there is one, otherwise the first row when the fetch succeeds, otherwise nil; reading fills no copy |
| UserDetailsStore.UserDetailsRepository.IsUserLoggedIn | Bookxpert/Bookxpert/Repository/UserDetails/UserDetailsRepository.swift:29-31 | logged in iff `getUserDetails()` is not nil, i.e. there is a copy or a fetchable row |
| UserDetailsStore.UserDetailsRepository.ConsistentReadsRow | Bookxpert/Bookxpert/Repository/UserDetails/UserDetailsRepository.swift:63-74 | with at most one row and a copy equal to it, a read gives that row or nil |
| UserDetailsStore.UserDetailsRepository.SaveUserDetails | Bookxpert/Bookxpert/Repository/UserDetails/UserDetailsRepository.swift:33-61 | the first row found is overwritten, else a row is inserted. Only a successful save sets the copy, after which reads give the details. A failed save leaves the copy. Fetch and save succeeding keep at most one row with the copy equal to it |
| UserDetailsStore.UserDetailsRepository.SaveProfileImage | Bookxpert/Bookxpert/Repository/UserDetails/UserDetailsRepository.swift:76-91 | with a row, only its image changes, and the copy becomes it whatever the save gives; email, name and uid are read back intact. With no row it is a no-op. The row/copy agreement is preserved |
| UserDetailsStore.UserDetailsRepository.DeleteUserDetails | Bookxpert/Bookxpert/Repository/UserDetails/UserDetailsRepository.swift:93-102 | with a row, the row is removed and the copy cleared; from a consistent state the user is then logged out. With no row it is a no-op |
| PdfStore.FetchStoresAnswer | Bookxpert/Bookxpert/Repository/PDFViewer/PDFRespository.swift:17-25 | a hit answers from the cache with no download. A miss answers with the download, and a document returned is the one now cached; an error leaves the cache unchanged |
| PdfStore.FetchKeepsOtherEntries | Bookxpert/Bookxpert/Repository/PDFViewer/PDFRespository.swift:23 | a fetch changes only the entry for its own url |
| PdfStore.SecondFetchHits | Bookxpert/Bookxpert/Repository/PDFViewer/PDFRespository.swift:18-24 | after a successful fetch, fetching the url again downloads nothing and gives the same document whatever a download would give |
| PdfStore.PdfRepository.constructor | Bookxpert/Bookxpert/Repository/PDFViewer/PDFRespository.swift:11-15 | an empty cache and no download yet |
| PdfStore.PdfRepository.FetchPdfDocument | Bookxpert/Bookxpert/Repository/PDFViewer/PDFRespository.swift:17-25 | answers and leaves the cache as `Fetch` does; one download on a miss, none on a hit |
| PdfViewer.NextPage | Bookxpert/Bookxpert/PDFViewer/PDFViewerViewModel.swift:124-127 | one page on iff a later page exists, otherwise unchanged; stays within the document |
| PdfViewer.PreviousPage | Bookxpert/Bookxpert/PDFViewer/PDFViewerViewModel.swift:129-132 | one page back iff the page is above 0, otherwise unchanged; never below 0 |
| PdfViewer.NavigationInverse | Bookxpert/Bookxpert/PDFViewer/PDFViewerViewModel.swift:124-132 | next then previous, or previous then next, returns to the starting page when the first step is allowed |
| PdfViewer.ForwardStopsAtLastPage | Bookxpert/Bookxpert/PDFViewer/PDFViewerViewModel.swift:124-127 | n calls of next page move n pages on, but never past the last page |
| PdfViewer.PdfViewerViewModel.constructor | Bookxpert/Bookxpert/PDFViewer/PDFViewerViewModel.swift:81-84 | idle at page 0 of 0, nothing published yet |
| PdfViewer.PdfViewerViewModel.IsLoaded | Bookxpert/Bookxpert/PDFViewer/PDFViewerViewModel.swift:45-48 | true exactly in the loaded state |
| PdfViewer.PdfViewerViewModel.CanGoToPreviousPage | Bookxpert/Bookxpert/PDFViewer/PDFViewerViewModel.swift:50-52 | from a page of the document, true iff the page before it is one too |
| PdfViewer.PdfViewerViewModel.CanGoToNextPage | Bookxpert/Bookxpert/PDFViewer/PDFViewerViewModel.swift:54-56 | from a page of the document, true iff the page after it is one too |
| PdfViewer.PdfViewerViewModel.NoPagesExactlyWhenEmpty | Bookxpert/Bookxpert/PDFViewer/PDFViewerViewModel.swift:68-71 | the text is "No pages" iff `totalPages <= 0` |
| PdfViewer.PdfViewerViewModel.PageDisplayTextReadsBack | Bookxpert/Bookxpert/PDFViewer/PDFViewerViewModel.swift:68-71 | with a page in range, the text is "<p> of <n>", where p parses back to `currentPage + 1` and n to `totalPages` |
| PdfViewer.PdfViewerViewModel.GoToNextPage | Bookxpert/Bookxpert/PDFViewer/PDFViewerViewModel.swift:124-127 | the page becomes `NextPage` of the old one; a page in range stays in range |
| PdfViewer.PdfViewerViewModel.GoToPreviousPage | Bookxpert/Bookxpert/PDFViewer/PDFViewerViewModel.swift:129-132 | the page becomes `PreviousPage` of the old one; a page in range stays in range |
| PdfViewer.PdfViewerViewModel.LoadPdf | Bookxpert/Bookxpert/PDFViewer/PDFViewerViewModel.swift:86-117 | no URL: failed("Failed to Load PDF"). Otherwise loading is published, then the repository fetch: on success loaded at page 0 with the page count; on failure failed with the position kept |
| PdfViewer.PdfViewerViewModel.RefreshPdf | Bookxpert/Bookxpert/PDFViewer/PDFViewerViewModel.swift:119-122 | idle is published first, then the load runs as above, answered from the repository's cache when the document is there; with no URL the cache and the download count are unchanged |

## Left out

- The network calls `MobileCatalogueService.fetchCatalogue` and `PDFService.downloadPDF` are not modelled. Their outcome is a parameter of the operation that makes the call.
- Core Data is not modelled. The store is a sequence of rows, and fetch and save failures are parameters. Rows are read in insertion order; a fetch request without sort descriptors promises no order, so the order of the cached list and the row `.first` picks among rows with the same id rest on that choice.
- `JSONEncoder` and `JSONDecoder` byte formats are not modelled. A blob is either a JSON document or bytes that do not parse.
- CatalogueRepository.RecordOf: encoding fields never fails. `JSONEncoder` fails only on non-finite doubles, which the model cannot hold.
- Numbers.ParseDouble accepts decimal literals with an optional exponent. `nan`, `inf`, hexadecimal floats and other forms that Swift's parser accepts are not modelled.
- Numbers.DoubleText always writes positional notation. Swift writes exponent notation (for example `1e+16`) for very large or very small values.
- Binary rounding of `Double` is not modelled. A double is an exact decimal.
- Numbers.ParseInt and the capacity pattern's `\d` recognise ASCII digits only. `\d` in `NSRegularExpression` matches any Unicode decimal digit.
- `String.count` counts grapheme clusters. The model counts characters. This affects the 50-character name limit and the 100-character field limit for text with combining marks.
- `lowercased()` and `capitalized` map ASCII letters only. `capitalized` starts a word after any character that is not an ASCII letter; how Foundation classifies non-ASCII characters there is not modelled.
- Swift compares strings, and hashes dictionary keys, up to canonical equivalence: "é" and "e" followed by U+0301 are the same key. The model compares sequences of Unicode scalars. This affects key order, key lookup and the case-duplicate check for such keys.
- ItemOfRecordOf: the round trip is stated for the corrected decoder. As written, reading back a stored whole double beyond `Int`'s range stops the program; StoredBigDoubleReadBack and the first row under Findings show it.
- FetchCatalogue: the cache branch reads rows with the corrected decoder. As written, a row holding a whole double beyond `Int`'s range stops the program during the fetch, as under Findings.
- DecodeFields: uses the corrected decoder, for the reason given on the two lines above.
- ItemOf: reads a row through DecodeFields, with the corrected decoder.
- `PDFViewerViewModel.init(pdfURL: String)` is not modelled, because `URL(string:)` parsing is Foundation's. The model takes the optional URL that the initialisers store.
- `zoomScale`, `zoomIn`, `zoomOut` and `zoomInfo` are not modelled: they are floating-point arithmetic and `%.0f` formatting.
- The zoom reset in `loadPDF` and the delayed fit-page zoom (`DispatchQueue.asyncAfter`) are not modelled.
- PdfViewer.PdfViewerViewModel: `currentPage` and `totalPages` are unbounded integers. Swift's overflow traps on `currentPage + 1` at `Int.max` and `totalPages - 1` at `Int.min` are not modelled. Navigation and loading keep both far from those values.
- `isLoading` is modelled in `saveItem` only as its final value. The `true` it holds while the save runs is not modelled.
- `errorMessage` keeps the thrown error. Its `localizedDescription` text is not modelled.
- `validationSummary`, `cancelEditing`, the editor's delegate calls and the unused `clearValidationErrors` are not modelled.
- Concurrency is not modelled: async/await, `@MainActor` and Combine scheduling. Each operation runs to completion. The one Combine timing effect the model keeps is the one under Findings.
- `localizedCaseInsensitiveCompare` sorting in the catalogue screen's view model is outside this model, as are the views, coordinators, login and side menu, the photo picker, notifications and the test mocks.

## Findings

| source | as written | input that shows it | evidently intended | confidence | as-written member | corrected member |
|---|---|---|---|---|---|---|
| Bookxpert/Bookxpert/Services/MobileCatalogueService.swift:56-58 | A whole JSON number that `decode(Int.self)` refuses is converted with `Int(doubleVal)`. That conversion stops the program when the number lies beyond `Int`'s range. | the JSON number 10000000000000000000 (10^19) in an item's data from the service; or, from the editor, a `.double` field such as a price of 2.5 changed to "10000000000000000000" and saved: the row then holds that number, and the next fetch from the rows stops the program (MobileCatalogueRepository.swift:52) | only a whole number that fits `Int` becomes `.int`; larger ones stay `.double` | not executed | CatalogueValues.DecodeAsWrittenTrapsAboveIntMax | CatalogueValues.Decode |
| Bookxpert/Bookxpert/MobileCatalogue/EditCatalogueItemViewModel.swift:150-156 | The `$editableFields` subscriber ignores the value it receives and calls `validateCurrentState()`. `@Published` emits before the property is set, so that call validates the fields before the edit. | item "Phone" with the field "year" = 2020, so the editor shows a "year" text field (EditCatalogueItemView.swift:22); then `updateField(key: "year", value: "abc")`: `isValid` stays true, so the Save button (EditCatalogueItemView.swift:53) stays enabled | the verdict describes the fields after the edit | not executed | EditCatalogue.EditCatalogueItemViewModel.UpdateFieldAsWritten | EditCatalogue.EditCatalogueItemViewModel.UpdateField |
| Bookxpert/Bookxpert/MobileCatalogue/EditCatalogueItemViewModel.swift:143-148 | The `$editedName` subscriber has the same stale read: the name is validated as it was before the edit. | item "Phone" with no data, then the name cleared to "": `isValid` stays true | the verdict describes the name after the edit | not executed | EditCatalogue.EditCatalogueItemViewModel.EditNameAsWritten | EditCatalogue.EditCatalogueItemViewModel.EditName |
