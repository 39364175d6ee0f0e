# Course Compare / GradMatch: a Dafny model of the extension's core

This project models the Chrome extension that saves graduate-program pages and compares them. It covers:

- **The background worker** (`background.js`). It keeps `savedPrograms`, `isPremium` and `trialUsed` in local storage. It saves a program after a duplicate test and a free-plan limit of three. It removes programs by id and upgrades the user to premium.
- **The storage manager** (`utils/storage.ts`). It keeps one `StorageData` object under one key: add with duplicate test and ceiling, remove, read with defaults.
- **The page extractor** (`utils/extractor.ts`). It runs CSS-selector cascades with fallbacks to the document title and the host name. It also scans for GRE phrases and cleans whitespace.
- **The save-button page reader** (`content.js`). It reads the university, degree title, tuition, deadline, duration, location and GRE requirement. The result is offered for saving only when both a title and a university were found.
- **The GradMatch content script** (`src/content.ts`). It has keyword tests for searches and pages. It picks a university name from the title, then the headings, then the host. It keeps a list of the ten most recent matches, at most one per URL.
- **The university-page test** (`src/content-script.ts`). A page qualifies on a URL pattern or on three keywords.
- **The popup** (`popup.js`). It shows the saved-count header and action bar, removes programs from its local list, follows storage changes, and exports the comparison as CSV.

Each handler that reads storage, decides and writes back is modelled twice:

- as a pure function from the stored keys to the new keys and the response (for example `Background.Save` and `Storage.Add`);
- as a method on a class whose fields are the stored keys (`Background.ExtensionStorage`, `Storage.StorageManager`, `Popup.PopupState`). Each method's `ensures` ties its new state and its result to the function.

The properties the extension promises are proved about the functions. Examples:

- the free plan never holds more than three programs, over any sequence of messages;
- a duplicate is refused and nothing is written;
- removing keeps exactly the other records, in order;
- cleaned text is single-spaced and at most 200 characters;
- the CSV splits back into its seven lines and its cells.

The page itself (DOM queries, regular-expression matches) is an input. `Extractor.Document` gives the text each selector finds. `ContentPage.Page` gives the elements and the matches of each pattern. What the code does with these observations is modelled step for step: the order of the selectors, the fallbacks, the clean-up replacements, the length filters and the keyword lists. Case mapping is ASCII only and lengths count code points, as "## Left out" says.

JavaScript string operations are written out in module `Text`:

- `toLowerCase`, `trim`, `includes` and `split`/`join`;
- `replace` with a string or a case-insensitive regex (first occurrence);
- `replace(/…/gi)` (every occurrence);
- `/\s+/g` collapsing;
- the anchored tail patterns `/\s*-\s*.*$/` and `/\s*\|\s*.*$/`. There is no `m` flag, so `.` does not cross a line terminator.

## Model

| member | source | states |
|---|---|---|
| Programs.WithoutIdMembers | background.js:108 | filtering by id keeps exactly the records whose id differs, and never lengthens the list |
| Programs.WithoutIdAppend | background.js:108 | the filter works record by record, so the kept records stay in order |
| Programs.WithoutIdAbsent | utils/storage.ts:44 | removing an id that no record has leaves the list unchanged |
| Programs.WithoutIdIdempotent | utils/storage.ts:44 | removing the same id twice is the same as removing it once |
| Cascade.FirstNonBlankIsFirst | utils/extractor.ts:69-77 | the first selector whose element has non-blank text decides the result, which is that text trimmed |
| Cascade.FirstNonBlankEmpty | utils/extractor.ts:69-77 | the cascade gives "" exactly when every selector found nothing or only whitespace |
| Cascade.FirstFoundIsFirst | content.js:206-211 | the first selector that found an element decides, whatever its text |
| Cascade.FirstFoundNone | content.js:206-212 | no element is taken exactly when no selector found one |
| Cascade.FirstMatchIsFirst | content.js:148-153 | the first match of the first pattern that matched decides |
| Cascade.FirstMatchNone | content.js:148-155 | no match is taken exactly when no pattern matched |
| Cascade.FirstPatternMatch | content.js:148-153 | the pattern loop returns the first match of the first pattern that matched, or nothing |
| Background.SaveRejectsDuplicate | background.js:62-71 | a program with the same university and title as a saved one, ignoring case, is refused with "Program already saved!" and nothing is written |
| Background.SaveRejectsAtFreeLimit | background.js:73-77 | on the free plan with three or more saved, a new program is refused with the free-limit error and nothing is written |
| Background.SaveReportsDuplicateFirst | background.js:62-77 | a duplicate offered at the limit is reported as a duplicate, because the duplicate test runs first |
| Background.SaveAppends | background.js:79-99 | otherwise exactly one record is appended after the earlier ones, and the response carries that record and the stored list; the premium flag is not written |
| Background.SaveRecord | background.js:80-84 | the stored record has the payload's fields, the payload's own id or else the clock's, and the clock's save time |
| Background.SaveCountsTrials | background.js:88-91 | `trialUsed` rises by one on a successful free-plan save and is unchanged otherwise |
| Background.SaveTwiceRejected | background.js:56-101 | sending a payload again after it was saved is refused as a duplicate and writes nothing |
| Background.RemoveKeepsOthers | background.js:105-114 | removal always writes the list and keeps exactly the records with another id; an unknown id changes nothing; the other keys are kept |
| Background.HandleKeepsLimit | background.js:56-123 | a save, a removal or an upgrade never takes a free user over the limit |
| Background.RunKeepsLimit | background.js:22-54 | after any sequence of save, remove and upgrade messages, a free user holds at most three programs |
| Background.InstallStartsWithinLimit | background.js:4-19 | a fresh install writes an empty list and starts within the limit |
| Background.ExtensionStorage.constructor | background.js:8 | storage before installation has none of the three keys |
| Background.ExtensionStorage.OnInstalled | background.js:4-19 | each missing key gets its default (`[]`, `false`, `0`) and keys already present are kept |
| Background.ExtensionStorage.HandleSaveProgram | background.js:56-101 | the keys and the response are those of `Save`: the duplicate scan, the limit, the append and the trial count |
| Background.ExtensionStorage.HandleRemoveProgram | background.js:105-114 | the filtered list is stored and returned, with success |
| Background.ExtensionStorage.HandleUpgradeToPremium | background.js:117-123 | `isPremium` becomes true, nothing else changes, and success is reported |
| Background.ExtensionStorage.GetSavedPrograms | background.js:28-33 | returns the stored list, or `[]` when the key is absent |
| Background.ExtensionStorage.CheckPremiumStatus | background.js:40-48 | premium only when the flag is stored as true; trials default to 0 |
| Storage.DefaultsWhenAbsent | utils/storage.ts:7-16 | an empty store reads as no programs, the free plan and a ceiling of three |
| Storage.AddRefusesDuplicate | utils/storage.ts:25-31 | a program with exactly the same university and title is not added: `false` is returned and nothing is written |
| Storage.AddThrowsAtLimit | utils/storage.ts:33-35 | on the free plan at the stored ceiling, the free-limit error is thrown and nothing is written |
| Storage.AddAppends | utils/storage.ts:37-39 | otherwise the program is appended, the premium flag and the settings are kept, and `true` is returned |
| Storage.AddKeepsCeiling | utils/storage.ts:22-40 | on the free plan, a store within its ceiling stays within it after any add |
| Storage.RemoveDropsId | utils/storage.ts:42-46 | removal keeps exactly the programs with another id, is idempotent, and keeps the premium flag and the settings |
| Storage.StorageManager.constructor | utils/storage.ts:5-9 | a new store has nothing under its key |
| Storage.StorageManager.GetData | utils/storage.ts:7-16 | returns the stored object, or the defaults when nothing is stored |
| Storage.StorageManager.SaveData | utils/storage.ts:18-20 | the whole object is written under the key |
| Storage.StorageManager.AddProgram | utils/storage.ts:22-40 | the duplicate loop and the ceiling give exactly `Add`'s new store and its result or error |
| Storage.StorageManager.RemoveProgram | utils/storage.ts:42-46 | stores exactly `Remove`'s result |
| Storage.StorageManager.GetPrograms | utils/storage.ts:48-51 | returns the stored programs, or `[]` by default |
| Extractor.CleanText | utils/extractor.ts:90-92 | the result is exactly the first 200 characters of the trimmed, collapsed text, or all of it when it is shorter; it has no run of whitespace and starts with a non-space |
| Text.Truncate | utils/extractor.ts:91 | `substring(0, n)` keeps a prefix of the text, of length `n` or the whole text when it is shorter |
| Text.BeforeFirstIsPrefix | utils/extractor.ts:37 | `split(' \| ')[0]` is a prefix of the title without the separator: the whole title when it holds none, else the text up to where the first separator begins |
| Extractor.CleanTextEmpty | utils/extractor.ts:90-92 | cleaning gives "" exactly when the text is all whitespace |
| Extractor.CleanTextKeepsClean | utils/extractor.ts:90-92 | a text that is single-spaced, trimmed and at most 200 characters is left as it is |
| Extractor.CleanTextIdempotent | utils/extractor.ts:90-92 | cleaning twice equals cleaning once when the first pass did not cut the text |
| Extractor.FindTextBySelectors | utils/extractor.ts:69-77 | the loop returns the trimmed text of the first selector with non-blank text, or "" |
| Extractor.FirstNonBlankStarts | utils/extractor.ts:72-73 | a non-empty cascade result starts with a non-space character |
| Extractor.Capitalize | utils/extractor.ts:84 | the same length and the same letters ignoring case; the tail is unchanged and the first character is not a lower-case letter |
| Extractor.HostLabelNameIsFirst | utils/extractor.ts:82-85 | the first host label outside www/edu/ac/uk/ca/com is the name, capitalised |
| Extractor.HostLabelNameAllSkipped | utils/extractor.ts:82-87 | a host made only of skipped labels yields "" |
| Extractor.UrlNameOfLabels | utils/extractor.ts:79-81 | for a host written as dot-joined labels, exactly those labels are scanned |
| Extractor.ExtractFromUrl | utils/extractor.ts:79-88 | the label loop gives the first non-skipped label capitalised, or "" |
| Extractor.CleanFallbackEmpty | utils/extractor.ts:36-42 | in a `a || b || c` fallback whose first and last choices cannot be whitespace, the cleaned choice is "" exactly when the middle one was taken and is all whitespace |
| Extractor.ExtractFromPage | utils/extractor.ts:33-67 | the record has the cleaned title and university fallbacks, the three cleaned detail texts, the GRE status, the page URL, the id and save time given, and the uncleaned texts in `extractedData` |
| Extractor.PageTitleEmpty | utils/extractor.ts:36-38 | the saved title is "" only when no title selector found text and the part of the document title before " \| " is non-empty whitespace |
| Extractor.PageUniversityEmpty | utils/extractor.ts:40-42 | the saved university is "" only when no selector found text and the host-name fallback is non-empty whitespace |
| Extractor.PageFieldsGre | utils/extractor.ts:44-53 | `extractedData` always holds tuition, duration and deadline; it holds `gre` exactly when a GRE phrase was found, with the record's own value |
| ContentPage.CutIndexLeftmost | content.js:93-94 | the cut falls at the leftmost position where `\s*<sep>\s*.*$` matches, or at the end of the name when it matches nowhere |
| ContentPage.StripTailCut | content.js:93-94 | the cut is at the leftmost position where `\s*<sep>\s*.*$` matches, and what is cut off matches it |
| ContentPage.StripTailRemovesSep | content.js:93-94 | on a one-line name no separator survives the cut |
| ContentPage.StripTailAtLeftmost | content.js:93-94 | the leftmost matching position decides the cut |
| ContentPage.StripTailAtFirstSep | content.js:93-94 | on a one-line name the result is the text before the first separator with its trailing whitespace removed |
| ContentPage.CutRemovesSeparators | content.js:93-94 | after both cuts a one-line name holds neither "-" nor "\|" |
| ContentPage.StripTailAbsent | content.js:93-94 | a name without the separator is left as it is |
| ContentPage.CleanUniversityNameNoSeparators | content.js:93-96 | a cleaned one-line name holds neither "-" nor "\|" and is trimmed |
| ContentPage.DomainNameOfEduHost | content.js:102-103 | for `www.<name>.edu` the fallback is the bare name |
| ContentPage.DomainNamePlain | content.js:102-103 | a host with none of "www.", ".edu" and ".ac.uk" is its own fallback |
| ContentPage.ExtractUniversity | content.js:68-104 | the selector loop gives the cleaned name of the first element with a name, or the host-name fallback |
| ContentPage.FirstTitleSkips | content.js:119-132 | elements whose trimmed text is not a title are passed over |
| ContentPage.FirstTitleInSkips | content.js:117-132 | selectors that list no title are passed over |
| ContentPage.FirstTitleSound | content.js:119-132 | a chosen title passes the title test and is the trimmed text of a listed element |
| ContentPage.FirstTitleNone | content.js:119-132 | none is chosen exactly when no element's trimmed text passes the test |
| ContentPage.FirstTitleFoundBy | content.js:119-132 | one element whose trimmed text passes the test is enough for a title to be chosen |
| ContentPage.FirstDegreeTitleOf | content.js:118-133 | the element loop of one selector returns the first trimmed text that is a degree title, or nothing |
| ContentPage.ExtractProgramTitle | content.js:106-138 | the nested loops return the first degree title in selector and element order, or "" |
| ContentPage.DropLabelSeps | content.js:169 | dropping the `[:\s]+` run leaves a suffix |
| ContentPage.StripLabels | content.js:169 | removing the labels never lengthens the text |
| ContentPage.StripLabelsNoLabel | content.js:169 | a match without a deadline label is left as it is |
| ContentPage.ToDigitsLeavesNoWords | content.js:189 | after the conversion, no "one" to "four" is left in any case |
| ContentPage.ToDigitsNoWords | content.js:189 | a match that spells out no number is left as it is |
| ContentPage.DetailFieldsFirstMatch | content.js:148-190 | tuition, deadline and duration come from the first match of the first pattern that matched, after their own clean-up |
| ContentPage.DetailFieldsNoMatch | content.js:155-194 | with no match, each field is "Not specified" |
| ContentPage.ExtractTuition | content.js:140-156 | the pattern loop gives the trimmed first match, or "Not specified" |
| ContentPage.ExtractDeadline | content.js:158-174 | the pattern loop gives the first match with labels removed and trimmed, or "Not specified" |
| ContentPage.ExtractDuration | content.js:176-195 | the pattern loop gives the first match with the number words converted and trimmed, or "Not specified" |
| ContentPage.FirstReasonableIsFirst | content.js:220-224 | the first city match longer than 5 and shorter than 50 characters is taken |
| ContentPage.FirstReasonableNone | content.js:218-227 | with no match of such a length, none is taken |
| ContentPage.FirstReasonableBounded | content.js:221 | a location taken from the text is one of the matches and its length is between 6 and 49 |
| ContentPage.ExtractLocation | content.js:197-228 | the first found location element's trimmed text, else the first match of suitable length trimmed, else "Not specified" |
| ContentPage.GreNotSpecifiedIff | content.js:230-242 | the GRE requirement is "Not specified" exactly when the lower-cased page never mentions "gre" |
| ContentPage.GreAgreesWithExtractor | content.js:230-242 | where the popup-side extractor finds "Optional" this reader says "Not required"; where it finds "Required" this reader says "Required" or "Not required" |
| ContentPage.ExtractProgramData | content.js:27-66 | a record is returned exactly when the title and the university are both non-empty, and it holds every extracted field |
| ContentPage.OfferedPageHasDegreeTitle | content.js:60-63 | an offered record's title is a degree title and the trimmed text of a listed element |
| ContentPage.TitleInSound | content.js:117-132 | a title found over all selectors is a degree title taken from one of their elements |
| GradMatch.MentionsProgramIff | src/content.ts:100-104 | the test holds exactly when some keyword, lower-cased, occurs in the lower-cased text |
| GradMatch.NoQueryIsNotGraduateSearch | src/content.ts:101-103 | a search with no `q` parameter, or an empty one, is not a graduate search |
| GradMatch.MentionsProgramCaseInsensitive | src/content.ts:102-109 | the keyword tests ignore the case of the query and of the page |
| GradMatch.UniversityPageDetected | src/content.ts:106-115 | a page that mentions "university" in any case is a program page |
| GradMatch.ExtractUniversityName | src/content.ts:273-290 | the trimmed title match if there is one, else the trimmed match of the first heading that matched, else the host name |
| GradMatch.WithoutUrlMembers | src/content.ts:255 | the URL filter keeps exactly the entries for other URLs |
| GradMatch.WithoutUrlAppend | src/content.ts:255 | the URL filter works entry by entry, so the kept entries stay in their order |
| GradMatch.WithoutUrlKeepsDistinct | src/content.ts:255 | filtering keeps URLs distinct |
| GradMatch.SaveToRecentMatches | src/content.ts:251-264 | the new entry is first and no other entry has its URL; the rest are the earlier entries for other URLs in order, cut to ten entries in all; distinct URLs stay distinct |
| ContentScript.PresentKeywordsSound | src/content-script.ts:42 | the counted keywords are exactly the listed ones present in the text, and there are no more of them than are listed |
| ContentScript.PresentKeywordsDistinct | src/content-script.ts:42 | a keyword is counted at most once |
| ContentScript.KeywordCountBounded | src/content-script.ts:35-42 | the count is at most twelve, with distinct keywords |
| ContentScript.PresentKeywordsAtLeast | src/content-script.ts:42 | keywords found at k distinct list positions give a count of at least k |
| ContentScript.DetectUniversityPageIff | src/content-script.ts:21-44 | a university page exactly when the lower-cased URL contains one of the path patterns or the text holds at least three keywords |
| ContentScript.UrlPatternSuffices | src/content-script.ts:25-34 | any of the path patterns, in any case, makes a university page whatever the text |
| ContentScript.ThreeKeywordsSuffice | src/content-script.ts:35-43 | three different keywords in the text make a university page whatever the URL |
| ContentScript.DetectUniversityPageCaseInsensitive | src/content-script.ts:22-23 | the test ignores the case of the URL and of the text |
| Popup.SavedCountReadsBack | popup.js:53-55 | the header splits at "/" into the decimal count, which reads back as the number of saved programs, and "∞" or "3" by plan |
| Popup.CompareButtonMatchesGuard | popup.js:127-170 | the action bar is hidden exactly when nothing is saved, and the compare button is enabled exactly when the comparison opens (two or more programs) |
| Popup.GenerateCsv | popup.js:267-286 | the header line, then one row pushed per field in the fixed order, joined by line breaks |
| Popup.CellKeepsAbsentChar | popup.js:281 | a cell holds no character the value, the quotes and "Not specified" do not hold |
| Popup.RowKeepsAbsentChar | popup.js:281-282 | a field row holds no character missing from its label, its cells and the comma |
| Popup.CsvLines | popup.js:267-286 | when no saved text holds a line break, the CSV splits back into exactly its seven lines |
| Popup.LinesKeepNoBreak | popup.js:268-282 | then no line holds a line break |
| Popup.CsvRowItems | popup.js:268-282 | when no saved text holds a comma, each row splits into its label or "Field" followed by one item per program, in saved order |
| Popup.CsvFieldOrder | popup.js:271-278 | the six rows start with Tuition, Duration, Application Deadline, Location, GRE Requirement and Program URL, in that order |
| Popup.PopupState.constructor | popup.js:32-44 | the popup starts from the loaded list and premium flag |
| Popup.PopupState.OnRemoveResponse | popup.js:310-322 | after a successful remove the local list drops that id; after a failure it is unchanged |
| Popup.PopupState.OnStorageChanged | popup.js:325-330 | a local change of `savedPrograms` replaces the list, with `[]` when the key was removed; other changes are ignored |
| Popup.PopupState.ExportComparison | popup.js:257-265 | a CSV is produced exactly for premium users, and it is `generateCSV`'s text |
| Popup.RemoveResponseKeepsOthers | popup.js:317 | the local filter keeps exactly the records with another id, record by record |

## Left out

- Chrome messaging, `chrome.storage` callbacks and their asynchrony. Each handler is one atomic read-decide-write, so two racing handlers are not modelled.
- The DOM and the regular-expression engine. The elements found and the matches of each pattern are inputs. The patterns for tuition, deadline, duration, location and university names are not interpreted. Only `\s*-\s*.*$`, `\s*\|\s*.*$`, the deadline label pattern, the number-word replacements and the URL path patterns are written out.
- The clock and the id generator (`Date.now()`, `toISOString`, `Math.random().toString(36)`). They are parameters. The save time is an opaque string, although `types/program.ts` types it as a number.
- `toLowerCase` and `toUpperCase` as ASCII case mapping only. String lengths count code points, not UTF-16 units. This affects `substring(0, 200)` and the location length filter.
- Extractor.CleanTextIdempotent: stated only for texts the first pass did not cut. A cut that ends in a space is trimmed away by a second pass, so idempotence does not hold in general.
- ContentPage.StripTailAtFirstSep and ContentPage.CleanUniversityNameNoSeparators: stated for one-line names. Where the text after a separator spans lines, `.*$` cannot reach the end and `StripTail` cuts later or not at all, as the regex does.
- ContentPage.ExtractProgramData: the record carries no `extractedData`; it is modelled as an empty map. The page and selector loop in `init`, the save button, the floating button and the notifications are UI and are not modelled.
- In `src/content.ts`: `init`, `enhanceSearchResults`, `extractProgramInfo`, the overlay, `programCache`, the fetch to the matching server and the random GPA helpers are not modelled. They are UI, network calls and random data.
- The popup's rendering (`renderPrograms`, `renderComparisonTable`, `formatDate`), `clearAllPrograms`, the `confirm` and `alert` dialogs and `downloadCSV` are not modelled. They are UI, and the confirmation is taken as given before `OnRemoveResponse`.
- `src/background.ts`, `src/popup.ts`, `server/server.js` and `webpack.config.js` are not part of this model. Neither is the `description`/`additionalInfo` shape of `src/types/index.ts`.
- The duplicate test matches on university and title only, never on the URL. `background.js` ignores case and `utils/storage.ts` compares exactly; both are modelled as written.
- Upgrading to premium is the only change of plan. No operation downgrades or resets the trial count.
- The duration conversion covers only "one" to "four", as the code does. CSV cells are always quoted, with "Not specified" for a missing or empty value. A value holding a quote, comma or line break is not escaped. That is why `Popup.CsvLines` requires texts without line breaks and `Popup.CsvRowItems` requires texts without commas.
- The two GRE scans use different vocabularies: the extractor says "Optional" where the content script says "Not required". `ContentPage.GreAgreesWithExtractor` states how they relate.
