# Cookie Viewer: a verified model

This project models the cookie-viewer Chrome extension in Dafny. The
extension has three scripts and a release validator:

- **The background service worker** (`extension/background.js`) fetches the
  cookies of a tab, merges two fetched lists into one, counts them for the
  toolbar badge, clears a domain's cookies, exports them, answers messages,
  and compares version strings on update.
- **The popup** (`extension/popup.js`) keeps a `CookieViewer` object. It
  loads and merges the cookie lists, filters them by a search box and filter
  checkboxes, writes a status line, and renders attribute badges.
- **The content script** (`extension/content.js`) parses `document.cookie`
  and counts its segments. It polls the cookie string once a second, and it
  forwards cookie-related page messages.
- **The validator** (`test_extension.js`) checks the extension directory.
  Its `ExtensionValidator` appends to an error list and a warning list.

Every browser and Node API becomes a parameter. This covers the cookie
store's answers, the removal outcomes, the tab, `window.location`,
`decodeURIComponent`, the file system and `JSON.parse`. What the code
decides from those inputs is modelled as written.

Modules, one per file:

- `Wrappers`: the `Option` and `Result` types.
- `Strings`: the JavaScript string operations the code uses. These are
  `split` on one character, `join`, `trim`, ASCII `toLowerCase`,
  `includes`, `startsWith`, and decimal rendering of naturals.
- `CookieMerge`: the `Map` keyed by `${name}-${domain}-${path}`. The code
  folds cookie lists through it three times, and it is modelled once.
  `Merged` is its specification: one cookie per key string, placed where
  the key first appears, and holding the key's last cookie.
  `MergeCookies` is the imperative fold, proved equal to `Merged`.
- `Versions`: `compareVersions` and the `onUpdate` migration gate.
- `Background`: the badge count, `clearCookiesForDomain`, the badge text
  and colour, the `handleMessage` dispatch, and `exportCookies`.
- `Popup`: the filter predicate, the status line, the badges, and the
  `CookieViewer` class. Its `cookies`, `filteredCookies`, status and error
  fields are updated by `LoadCookies`, `FilterCookies` and `UpdateStats`.
- `Content`: the `document.cookie` parser, as a specification function
  and as the loop that implements it. Also the page-info count, the polling
  monitor as a class with a `Tick` method, and the forwarding filter.
- `Validator`: the five checks as specification functions returning a
  `Report`, and the `ExtensionValidator` class whose methods append to
  `errors` and `warnings`. Each method is proved to append exactly its
  check's report.

## Model

| member | source | states |
|---|---|---|
| CookieMerge.FirstKeysFacts | extension/background.js:147-153 | the key order of the map lists every key string of the input exactly once |
| CookieMerge.LastIndex | extension/background.js:148-151 | the last position where a key occurs: that cookie has the key and no later cookie does, so it is the one `map.set` leaves bound |
| CookieMerge.Merged | extension/background.js:153 | `Array.from(map.values())` has as many entries as the map has keys |
| CookieMerge.TableOf | extension/background.js:147-151 | the map after the fold binds exactly the keys of the input |
| CookieMerge.SetStepOrder | extension/background.js:150 | one `map.set` appends a new key to the key order and leaves an existing key in place |
| CookieMerge.SetStepTable | extension/background.js:150 | one `map.set` rebinds the cookie's key to that cookie and changes nothing else |
| CookieMerge.FoldStep | extension/background.js:148-151 | one turn of the `forEach` takes the fold's order and map for a prefix to those for the prefix plus one cookie |
| CookieMerge.MergedIsReadOut | extension/background.js:153 | every key of the fold's order is bound in its map, and the merged list is the map's values read in that key order (`ReadOut`) |
| CookieMerge.MergeCookies | extension/background.js:147-153 | the fold over the domain list and then the URL list returns exactly `Merged` of their concatenation |
| CookieMerge.MergedOnePerKey | extension/background.js:147-153 | the merged list has pairwise distinct keys, and they are exactly the input's keys in first-appearance order |
| CookieMerge.MergedIsLastOccurrence | extension/background.js:148-151 | every merged cookie is an input cookie that no later cookie with the same key follows |
| CookieMerge.FirstKeysPrefix | extension/background.js:148 | folding more cookies never moves a key already in the order |
| CookieMerge.UrlListOverrides | extension/background.js:148-150 | for a key of the URL list, the map holds that list's last cookie with the key, overriding any domain cookie |
| CookieMerge.DomainOrderKept | extension/background.js:148-153 | the first keys of the domain list keep their positions in the merged list |
| CookieMerge.MergedSize | extension/background.js:305 | the map's size is the number of distinct key strings |
| CookieMerge.KeyCollision | extension/background.js:149 | the key is a string: name `a-b` with domain `c` and name `a` with domain `b-c` share a key, and only the later cookie survives |
| CookieMerge.MergeThree | extension/popup.js:55-61 | domain list [A, B] and URL list [B, C] with distinct keys merge to exactly [A, B, C] |
| Versions.VersionParts | extension/background.js:313-314 | a version has as many parts as its `split('.')` pieces, and at least one |
| Versions.ComponentsAppend | extension/background.js:313 | `map(Number)` over joined piece lists is the concatenation of the two maps |
| Versions.MapSeqAppend | extension/background.js:313 | `map` over a concatenation is the concatenation of the maps |
| Versions.AppendPart | extension/background.js:313 | appending '.' and a piece appends that piece's number to the parts |
| Versions.CompareFrom | extension/background.js:316-322 | the loop's result from index i on is -1, 0 or 1 |
| Versions.CompareVersions | extension/background.js:312-325 | the loop with its two early returns gives `Compare` of the two part lists, and only -1, 0 or 1 |
| Versions.CompareFromCharacterization | extension/background.js:316-324 | with no difference before index k, a difference at k decides the result and no difference from k on gives 0 |
| Versions.FirstDifferenceDecides | extension/background.js:316-322 | the first differing part decides: -1 if it is smaller in the first version, 1 if larger |
| Versions.CompareZeroIff | extension/background.js:316-324 | the result is 0 exactly when every part is equal, missing parts read as 0 |
| Versions.CompareReflexive | extension/background.js:312-325 | every version compares equal to itself |
| Versions.CompareAntisymmetric | extension/background.js:312-325 | swapping the versions negates the result |
| Versions.DigitComponent | extension/background.js:313 | a one-digit piece reads as its digit |
| Versions.AppendZeroPart | extension/background.js:317-318 | appending ".0" appends a zero part |
| Versions.TrailingZerosIgnored | extension/background.js:316-318 | any version equals itself with ".0" or ".0.0" appended, so "1", "1.0" and "1.0.0" are equal |
| Versions.PartsOfOneZero | extension/background.js:70 | "1.0" has the parts 1 and 0 |
| Versions.OnUpdate | extension/background.js:66-74 | the migration runs exactly when the previous version compares below "1.0" |
| Versions.MigrationIffMajorZero | extension/background.js:70-73 | a version is below "1.0" exactly when its first part reads as 0 |
| Background.GetCookiesForUrl | extension/background.js:136-158 | success exactly when both fetches succeed, and then the merged union of the two lists |
| Background.GetCookieCountForUrl | extension/background.js:288-310 | the count is the length of the merged list for the same two lists, and 0 when anything throws |
| Background.RemovalUrl | extension/background.js:168 | the URL is `https://` for a secure cookie, else `http://`, followed directly by the domain and the path |
| Background.RemovalUrlShape | extension/background.js:168 | the URL starts with `https://` exactly for a secure cookie, else with `http://`, and ends with the domain then the path |
| Background.CountTrue | extension/background.js:163-171 | the number of resolved removals is at most the number of removals |
| Background.ClearCookiesForDomain | extension/background.js:160-182 | every cookie gets one removal request for its URL and name, in order (so a failure does not stop the loop); the result counts the resolved removals and is at most the number of cookies; a failed `getAll` rethrows with no removals |
| Background.AllClearedIff | extension/background.js:165-177 | the cleared count equals the number of cookies exactly when no removal failed |
| Background.BadgeFor | extension/background.js:259-286 | a failed lookup, an empty URL, `chrome://` or `chrome-extension://` gives an empty text and no colour; otherwise the text is "" iff the count is 0, else the canonical decimal rendering of the count (no leading zero), and the colour is `#4CAF50` iff the count is above 0, else `#757575` |
| Background.UpdateBadgeForTab | extension/background.js:259-286 | the badge is `BadgeFor` the tab and the merged count of what was fetched |
| Background.BadgeCountsDistinctKeys | extension/background.js:268-269 | for a page that is not excluded, the badge text is empty exactly when the merged list is empty |
| Background.ActionOf | extension/background.js:78-128 | an action string outside the eight known names falls to the default branch |
| Background.BackgroundReply | extension/background.js:76-134 | an unknown action gets `Unknown action`; the cookie handlers fail with the thrown message exactly when they throw; the rest succeed |
| Background.ExportCookiesFor | extension/background.js:184-208 | the export exists exactly when the fetch succeeds; it carries the URL and timestamp, and one entry per merged cookie with its eight fields copied |
| Content.ParseSegment | extension/content.js:60-74 | a segment is skipped exactly when its name is empty; a parsed record has the page attributes, the trimmed name, and the value "" when the raw value is empty, else the decoding of the trimmed value; decoding fails exactly for a named segment with a non-empty value that does not decode, with the decoder's message |
| Content.Collect | extension/content.js:56-77 | a successful parse has one record per parsed segment, each from a parsed segment |
| Content.GetDocumentCookies | extension/content.js:47-78 | the loop returns exactly `DocumentCookies`: the records in segment order, or the first decoding error |
| Content.ParsedRecordsHavePageAttributes | extension/content.js:64-73 | every record has the page host as domain, path "/", `secure` iff https, httpOnly false and sameSite "Lax" |
| Content.EmptyStringParsesToNothing | extension/content.js:52-54 | an empty cookie string parses to [] |
| Content.SegmentSplitsAtFirstEquals | extension/content.js:60-61 | the name has no '='; with an '=' the trimmed segment is name, '=', value; without one the value is "" |
| Content.ValueKeepsLaterEquals | extension/content.js:60-61 | when the trimmed segment is `name=value` and the name has no '=', the value is everything after the first '=', later '=' kept (so `c=x=y` gives `x=y`) |
| Content.CollectFailsIff | extension/content.js:59-66 | the loop throws exactly when some segment's value fails to decode |
| Content.ParseFailsIff | extension/content.js:47-78 | a non-empty cookie string fails to parse exactly when some segment fails to decode; an empty one never fails |
| Content.RecordOfSegment | extension/content.js:59-74 | the record of the i-th parsed segment sits at the position given by the number of parsed segments before it |
| Content.NonBlankCount | extension/content.js:87 | the non-blank count is at most the number of segments |
| Content.NamedIsNonBlank | extension/content.js:60-63 | a segment with a name is non-blank |
| Content.ParsedAtMostNonBlank | extension/content.js:63 | at most one record per non-blank segment |
| Content.CookieCountBoundsParse | extension/content.js:87 | the page-info count is at least the number of parsed records |
| Content.EmptyStringCountsZero | extension/content.js:87 | an empty cookie string counts 0 |
| Content.GetPageInfo | extension/content.js:80-89 | the page info copies the location and title; its count is at most the number of segments |
| Content.HandleContentMessage | extension/content.js:20-45 | `getDocumentCookies` replies with the parsed records, or fails with the parse error exactly when parsing fails; `getPageInfo` replies with `GetPageInfo` of the page; `injectCookieMonitor` gets the bare success; any other action gets `Unknown action` |
| Content.CookieMonitor.constructor | extension/content.js:93 | the monitor starts with the initial string stored and nothing sent |
| Content.CookieMonitor.Tick | extension/content.js:96-103 | a tick sends (old, current) exactly when they differ, and afterwards the stored string is the current one |
| Content.ChangesChain | extension/content.js:96-103 | reported changes never pair equal strings, each starts where the previous ended, and the last ends at the final string |
| Content.NoChangesIff | extension/content.js:99-102 | no tick notifies exactly when every snapshot equals the initial string |
| Content.ChangesSnoc | extension/content.js:96-102 | one more tick adds the pair (stored, current) exactly when they differ, and nothing otherwise |
| Content.CookieMonitor.Poll | extension/content.js:96-103 | after the interval fires once per snapshot, the monitor has sent exactly one `documentCookieChanged` message per pair of `Changes`, in order, carrying the page URL, and stores the last snapshot |
| Content.PollingScenario | extension/content.js:96-103 | snapshots "", "a=1", "a=1", "a=1; b=2" from "" notify exactly twice |
| Content.PollingScenarioSends | extension/content.js:91-103 | a monitor started on "" that reads those snapshots sends exactly two messages: "" to "a=1", then "a=1" to "a=1; b=2" |
| Content.ForwardIff | extension/content.js:191-193 | an event is forwarded exactly when its source is the window and "COOKIE" occurs in its type |
| Content.CookieKindForwarded | extension/content.js:193 | any type with "COOKIE" inside is forwarded exactly when the source is the window |
| Content.ForwardedKinds | extension/content.js:191-193 | `COOKIE_SET`, `FETCH_COOKIE_SET` and `XHR_COOKIE_SET` are forwarded iff the source is the window; an event without a type never is |
| Popup.Filtered | extension/popup.js:88-125 | the filtered list is no longer than the list, and holds exactly the listed cookies the callback keeps |
| Popup.FilteredIsSubsequence | extension/popup.js:88 | the filtered list is an order-preserving subsequence of `this.cookies` |
| Popup.SubsequenceKeepsDistinct | extension/popup.js:88 | filtering a list with one cookie per key keeps one cookie per key |
| Popup.AnyFilterIff | extension/popup.js:101-122 | `some` holds exactly when one checked filter matches |
| Popup.NoFiltersIsSearch | extension/popup.js:95-98 | with no checked filter, exactly the cookies matching the search are kept; an empty search keeps the whole list |
| Popup.EmptySearchKeepsAll | extension/popup.js:90 | an empty search with no filters returns the list unchanged |
| Popup.FiltersAreOred | extension/popup.js:101-124 | with filters checked, a cookie is kept exactly when it matches the search and at least one checked filter |
| Popup.MoreFiltersShowMore | extension/popup.js:101-124 | checking one more filter never hides a cookie that was shown |
| Popup.FilterCases | extension/popup.js:102-121 | session and persistent are complementary on the expiry; noSameSite iff sameSite is empty; the sameSite cases compare the lower-cased text; httpOnly and secure read the flags |
| Popup.SameSiteIgnoresCase | extension/popup.js:111-118 | two cookies whose sameSite texts agree after `toLowerCase` pass the same sameSite filters |
| Popup.UnknownFiltersMatchNothing | extension/popup.js:119-120 | a filter value outside the `switch` matches nothing, so checking only such values empties the list |
| Popup.SearchIsSubstringTest | extension/popup.js:82-93 | the search holds exactly when the input is empty or its lower-cased text occurs in the lower-cased name, value or domain |
| Popup.SearchFindsName | extension/popup.js:90-93 | typing a cookie's name in any letter case finds it |
| Popup.HttpOnlyCount | extension/popup.js:195 | the HTTP-only count is at most the list's length |
| Popup.SecureCount | extension/popup.js:196 | the secure count is at most the list's length |
| Popup.SessionCount | extension/popup.js:197 | the session count is at most the list's length |
| Popup.CountsMatchFilters | extension/popup.js:195-197 | each count is the length of the list shown with an empty search and only that filter checked |
| Popup.StatsPhrases | extension/popup.js:212-224 | the parenthetical has no phrase exactly when all three counts are 0 |
| Popup.StatsPhrasesExact | extension/popup.js:212-224 | the parenthetical has exactly one phrase per count that is not 0, each phrase present iff its count is not 0, in the order HTTP-only, secure, session |
| Popup.StatPhraseRanks | extension/popup.js:213-223 | each phrase ends with what it counts, so the HTTP-only, secure and session phrases never coincide |
| Popup.StatusOfNothing | extension/popup.js:202-203 | an empty list reads "No cookies" |
| Popup.StatusStartsWithCount | extension/popup.js:202-208 | the status line starts with "No cookies", "1 cookie" or "n cookies", and the number reads back as the length |
| Popup.ParentheticalIff | extension/popup.js:210-229 | the parenthetical is absent exactly when the list is empty or all three counts are 0 |
| Popup.StatusTextParenthetical | extension/popup.js:193-232 | a list's status line has no parenthetical exactly when it has no HTTP-only, no secure and no session cookie |
| Popup.StatusWithAllCounts | extension/popup.js:212-228 | with all counts present the parenthetical lists HTTP-only, secure and session in that order, joined by ", " |
| Popup.SameSiteBadgeDistinct | extension/popup.js:163-171 | a sameSite badge ranks after the HTTP-Only and Secure badges, so it is neither of them |
| Popup.Badges | extension/popup.js:159-175 | each badge is present exactly when its attribute is truthy; the sameSite badge is last and shows the text; badges come in the order HTTP-Only, Secure, sameSite |
| Popup.GenerateBadges | extension/popup.js:159-175 | the pushes give the badges of `Badges`, joined with "" |
| Popup.CookieViewer.constructor | extension/popup.js:2-7 | the viewer starts with empty lists and the given tab, and is valid |
| Popup.CookieViewer.FilterCookies | extension/popup.js:81-128 | stores the filtered list for the lower-cased search and the checked filters, a subsequence of the list that keeps one cookie per key; nothing else changes |
| Popup.CookieViewer.UpdateStats | extension/popup.js:193-232 | stores the status line of the current list; nothing else changes |
| Popup.CookieViewer.LoadCookies | extension/popup.js:36-79 | with a tab URL and a successful fetch, stores the merged lists, the filtered list and their status, and hides the error; otherwise empties both lists, shows "No cookies" and the error text; the viewer stays valid (one cookie per key) |
| Strings.Split | extension/content.js:57 | `split` gives at least one piece, none containing the separator |
| Strings.JoinSplit | extension/content.js:60-61 | joining a split with its separator gives the string back |
| Strings.SplitJoin | extension/content.js:60-61 | splitting a join of separator-free pieces gives the pieces back |
| Strings.SplitConcat | extension/background.js:313 | splitting at a separator between two strings splits each side on its own |
| Strings.TrimEnds | extension/content.js:60 | a trimmed string has no white space at either end |
| Strings.TrimIsSubstring | extension/content.js:60 | the trimmed string is a contiguous run of the original |
| Strings.TrimIdempotent | extension/content.js:65 | trimming twice is trimming once |
| Strings.TrimEmptyIff | extension/content.js:87 | a string trims to empty exactly when it is all white space |
| Strings.Lower | extension/popup.js:82 | the result has the same length and no upper-case ASCII letter, and a character changes only from an upper-case letter to the letter 32 code points above it |
| Strings.LowerIdempotent | extension/popup.js:91-93 | lower-casing twice is lower-casing once |
| Strings.ContainsIff | extension/popup.js:91-93 | `includes` holds exactly when the text occurs at some offset |
| Strings.DecimalString | extension/background.js:269 | `toString` of a natural is a non-empty digit string without a leading zero |
| Strings.DecimalRoundTrip | extension/background.js:269 | reading back the decimal rendering of n gives n |
| Strings.DecimalStringInjective | extension/popup.js:207 | different counts have different renderings |
| Validator.TextMarksSeverity | test_extension.js:30-164 | error texts start with the cross mark, warning texts with the warning sign |
| Validator.MissingFiles | test_extension.js:35-42 | at most one error per required file |
| Validator.MissingFilesIff | test_extension.js:35-42 | exactly the absent files are reported, each as a "Missing" error |
| Validator.MissingFilesAppend | test_extension.js:35-42 | the errors follow the order of the file names |
| Validator.MissingFileSingle | test_extension.js:36-41 | a present file adds nothing, an absent one adds one "Missing" error |
| Validator.AllFilesPresent | test_extension.js:25-43 | with the directory and every required file present, the file check reports nothing |
| Validator.MissingDirectory | test_extension.js:29-32 | a missing directory adds exactly one error and skips every per-file test |
| Validator.JsFileReport | test_extension.js:118-141 | one script gives at most one message |
| Validator.JsReport | test_extension.js:113-143 | the scripts give at most one message each |
| Validator.IconReport | test_extension.js:154-166 | one icon gives at most one message: an error exactly when `statSync` throws, a warning exactly when it has 0 bytes |
| Validator.IconMessagesBound | test_extension.js:145-167 | at most one message per icon, and none when every icon has bytes |
| Validator.MissingFields | test_extension.js:54-61 | at most one error per required field, each naming a required field |
| Validator.MissingFieldsIff | test_extension.js:54-61 | a field is reported exactly when it is required and absent or falsy |
| Validator.PermissionErrors | test_extension.js:71-75 | no error exactly when `permissions` is an array holding "cookies" or a string in which "cookies" occurs; otherwise exactly one error: the missing-permission error, or the `includes is not a function` error for a truthy value of another kind |
| Validator.UnusableManifest | test_extension.js:45-80 | an unreadable, unparsable or null manifest gives exactly one error and no warning |
| Validator.VersionOnlyWarns | test_extension.js:63-68 | replacing a truthy `manifest_version` by any other truthy value leaves the errors unchanged, and the warning appears exactly when it is not 3 |
| Validator.ArrayWithoutCookies | test_extension.js:71-75 | a permission array without "cookies" adds exactly one error after the field errors |
| Validator.ArrayWithCookies | test_extension.js:71-75 | a permission array holding "cookies" adds no error: the manifest's errors are the field errors alone |
| Validator.StringWithCookies | test_extension.js:71-75 | a permission string in which "cookies" occurs adds no error: the manifest's errors are the field errors alone |
| Validator.FieldErrorsIff | test_extension.js:54-61 | in a parsed manifest a field error appears exactly when a required field is absent or falsy |
| Validator.FilesWellSorted | test_extension.js:25-43 | the file check only produces errors |
| Validator.ManifestWellSorted | test_extension.js:45-80 | the manifest check's errors are error kinds and its warnings warning kinds |
| Validator.HtmlWellSorted | test_extension.js:82-111 | the HTML check's errors are error kinds and its warnings warning kinds |
| Validator.JsWellSorted | test_extension.js:113-143 | the script check's errors are error kinds and its warnings warning kinds |
| Validator.IconsWellSorted | test_extension.js:145-167 | the icon check's errors are error kinds and its warnings warning kinds |
| Validator.RunWellSorted | test_extension.js:174-181 | every check of `run` pushes errors onto `errors` and warnings onto `warnings` |
| Validator.RunReportParts | test_extension.js:174-179 | `run`'s report is the reports of the five checks in order |
| Validator.ExtensionValidator.constructor | test_extension.js:8-23 | both lists start empty |
| Validator.ExtensionValidator.ValidateFiles | test_extension.js:25-43 | appends exactly the file check's errors |
| Validator.ExtensionValidator.CheckFile | test_extension.js:36-41 | one required file appends its "Missing" error when absent |
| Validator.ExtensionValidator.ValidateHtml | test_extension.js:82-111 | appends exactly the HTML check's errors and warnings |
| Validator.ExtensionValidator.ValidateJavaScript | test_extension.js:113-143 | appends exactly the script check's errors and warnings, script by script |
| Validator.ExtensionValidator.CheckScript | test_extension.js:119-141 | one script appends its error or warning |
| Validator.ExtensionValidator.ValidateIcons | test_extension.js:145-167 | appends exactly the icon check's errors and warnings, icon by icon |
| Validator.ExtensionValidator.CheckIcon | test_extension.js:155-165 | one icon appends its error or warning |
| Validator.ExtensionValidator.ValidateManifest | test_extension.js:45-80 | appends exactly the manifest check's errors and warnings |
| Validator.ExtensionValidator.CheckRequiredFields | test_extension.js:54-61 | appends one error per absent or falsy required field, in order |
| Validator.ExtensionValidator.CheckField | test_extension.js:55-60 | one field appends its error when it is absent or falsy |
| Validator.ExtensionValidator.CheckPermissions | test_extension.js:71-75 | appends exactly the permission errors |
| Validator.ExtensionValidator.Run | test_extension.js:174-181 | appends exactly `run`'s report, and both lists only grow |

## Left out

- All `chrome.*` calls are left out: `cookies.getAll` and `remove`, `tabs.query` and `get`, `storage.sync`, `action.setBadgeText` and `setBadgeBackgroundColor`, and `runtime.sendMessage` and `onMessage`. Their results are parameters, and removal outcomes are a sequence of booleans. The badge model returns the text and colour that would be set.
- Async and Promise plumbing is left out: the `.catch` handlers that swallow send failures, the listener wiring in the `init` methods, `setInterval`, and the `beforeunload` cleanup. The polling callback is the `Tick` method on explicit state.
- `onFirstInstall`, `getSettings`, `saveSettings`, `onCookieChanged`, `onTabUpdated`, `updateBadgeForActiveTab` and `migrateToV1` are left out. They only forward to storage or to the badge update, or log. `BackgroundReply` gives their reply.
- The injected page script (extension/content.js:126-187) is left out. It patches `document.cookie`, `fetch` and `XMLHttpRequest` inside the page. Only the filter on the messages it posts is modelled. A `type` that is not a string is read as absent.
- DOM rendering is left out: `renderCookies`, `escapeHtml`, `showLoading`, `showError`, `hideError`, `generateDetails` and the `confirm` of `clearAllCookies`. `clearAllCookies` builds the same removal URL as `RemovalUrl`.
- `getCurrentTab` is left out as a call. The tab's URL is the viewer's `currentTab`, and a failed query leaves it `None`. `init`'s automatic first load is not modelled.
- Time and locale are left out. The export timestamp is a parameter, and expiry dates are not formatted.
- `decodeURIComponent` is an uninterpreted partial function given by the caller.
- `JSON.parse` and the `fs` calls are parameters. The error messages of `readFileSync`, `statSync` and `JSON.parse` are carried as given.
- `path.join` is modelled with the POSIX separator.
- The icons' `expectedSize` is never compared by the code and is not used here.
- `console` output and `generateReport` are left out.
- Versions.ComponentValue: a part is an exact natural, while `Number` gives a double. Digit strings above 2^53 are rounded in the source and very long ones give `Infinity`, so `compareVersions("9007199254740993", "9007199254740992")` is 0 there and 1 here. A trimmed digit string reads as its decimal value, the empty piece as 0, and every other text as 0. That matches `NaN || 0` for text that is not a number. Other forms `Number` accepts are not modelled: signs, decimal points, exponents, `Infinity`, and `0x`, `0b` and `0o` literals. The source reads those as non-zero numbers.
- Strings.Lower: `toLowerCase` is modelled on ASCII letters only.
- Content.CookieMonitor.Poll: every tick of one run reads the same page URL. A URL change between ticks, such as a history navigation, is not modelled; `Tick` alone takes any URL.
- Popup.HasExpiry: an `expirationDate` of NaN is not modelled. An expiry is a real number, and 0 counts as no expiry, as `!!` gives.
- Validator.PermissionErrors: calling `includes` on a truthy value that has none gives the V8 message `manifest.permissions.includes is not a function`. A `null` manifest gives the V8 message for reading a property of null. Other engines word these differently.
- Background.ClearCookiesForDomain requires exactly one removal outcome per fetched cookie. This is how the model supplies the results of the `remove` calls.
