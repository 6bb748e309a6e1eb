# CookieDookie popup: a Dafny model

CookieDookie is a browser extension. Its popup keeps a user-edited allow-list of
domains in a text area, one entry per line. It shows how many cookies the browser
holds and names the sites of the cookies that no entry allows. Its "Delete"
button removes those cookies, and its "Add This Site" button adds the current
tab's domain to the list. All of this logic lives in `popup.js`. This project models
that logic and proves what the code promises about it.

The model is split into these modules:

- `JsStrings` (`jsstrings.dfy`): the JavaScript string operations the popup uses.
  - `split` and `join` with a one-character separator. `"".split(sep)` is `[""]`.
  - `trim`, with the full ECMAScript white-space and line-terminator set.
  - The decimal rendering of a count inside a template literal.
- `JsOrder` (`jsorder.dfy`): `Array.prototype.sort()` without a comparator. It sorts ascending by UTF-16 code units. The module proves that this is a total order, and that sorting gives a sorted permutation.
- `JsSet` (`jsset.dfy`): `[...new Set(xs)]`, which keeps the distinct elements in the order they are first seen.
- `Domains` (`domains.dfy`): `getSecondLevelDomain`, which keeps the last two `.`-separated labels.
- `AllowList` (`allowlist.dfy`): the parse in `getAllowedDomainsFromUI` and the list update of the add-site click handler.
- `Matching` (`matching.dfy`): `filterForNonAllowedCookies` with the allow-list passed in.
  - Each entry is used as the regular expression `entry + "$"`.
  - It is modelled as a suffix matcher where `.` matches any character except a line terminator. Every other character matches only itself.
  - The module proves that this matcher decides exactly what the end-anchored regular expression decides.
- `Report` (`report.dfy`): the summary `update` shows (header, button label, up to five site lines, "…and more", button state) and the removal request `deleteCookie` builds for each cookie.
- `PopupWindow` (`popup.dfy`): the popup's state as a class, with one method per handler.
  - The state is the text area, the add-site button and its registered click handler, and the summary.
  - The handlers are `load`, the active-tab part of `initPopupWindow`, the add-site click, `update`, the text area's input handler and the "Delete" click.
  - `initPopupWindow` is their composition.
- `TextAreaElement` (`textarea.dfy`): the text area element's value, text content and dirty value flag, and the add-site click's write as the handler has it.
- `Optional` (`option.dfy`): an `Option` datatype.

### What popup.js does not do

- It does not match on label boundaries: `example.com` matches `notexample.com`, see `Matching.MatchIgnoresLabelBoundary`.
- It has no country-code second-level domains: `careers.bbc.co.uk` reduces to `co.uk`, not `bbc.co.uk`, see `Domains.ReducesCountryCode`.
- It does not strip a leading dot before reduction: `.ads.tracker.net` reduces to `tracker.net` only because the empty first label is dropped with the rest.
- It does not lower-case hostnames or entries.
- It does not trim kept entries: parsed entries stay untrimmed.
- It does not remove duplicates while parsing: duplicates are kept.
- Its display limit is not configurable: it is fixed at five.

Two more points about what it does:

- The "…and more" line appears when more than five *cookies* are unwanted, even if they all belong to one site (`Report.MoreLineCountsCookies`).
- In `load`, a missing key gives an empty list and a failed read leaves the text area as it was.

## Model

| member | source | states |
|---|---|---|
| JsStrings.Split | popup.js:13 | `split` gives at least one piece, no piece contains the separator, and a single piece exactly when the separator does not occur |
| JsStrings.Join | popup.js:15 | no contract of its own (`Array.prototype.join` with a one-character separator); specified by JsStrings.JoinSplit and JsStrings.SplitJoin, which make it the inverse of `split` |
| JsStrings.JoinSplit | popup.js:13-15 | joining the pieces of a split with the same separator gives back the string |
| JsStrings.SplitJoin | popup.js:34 | splitting a join of at least one separator-free piece gives back the pieces |
| JsStrings.TrimStart | popup.js:24 | the result is a suffix, what was removed is all white space, and the result does not start with white space |
| JsStrings.TrimEnd | popup.js:24 | the result is a prefix, what was removed is all white space, and the result does not end with white space |
| JsStrings.Trim | popup.js:24 | no contract of its own (`String.prototype.trim`); specified by JsStrings.TrimStart, JsStrings.TrimEnd and JsStrings.TrimEmptyIffBlank |
| JsStrings.TrimEmptyIffBlank | popup.js:24 | `x.trim() !== ""` holds exactly when `x` has a character that is not white space |
| JsStrings.DecimalString | popup.js:74-75 | a count renders as at least one decimal digit, without a leading zero |
| JsStrings.DecimalRoundTrip | popup.js:74-75 | reading the rendered digits back gives the count |
| JsOrder.StrLe | popup.js:25 | no contract of its own (the default `sort()` comparison, by UTF-16 code units); specified by JsOrder.StrLeTotal, JsOrder.StrLeAntisymmetric and JsOrder.StrLeTransitive, which make it a total order |
| JsOrder.StrLeTotal | popup.js:25 | any two strings are comparable in the default sort order |
| JsOrder.StrLeAntisymmetric | popup.js:25 | strings ordered both ways are equal |
| JsOrder.StrLeTransitive | popup.js:25 | the default sort order is transitive |
| JsOrder.SortStrings | popup.js:25 | `sort()` gives an ascending list with the same elements, each as often as before |
| JsOrder.SortStringsOfSorted | popup.js:118 | sorting a list already in order changes nothing |
| JsSet.Distinct | popup.js:118 | `[...new Set(xs)]` holds exactly the elements of `xs`, none twice |
| JsSet.DistinctFirstSeenOrder | popup.js:82 | the distinct elements come in the order of their first occurrence |
| JsSet.DistinctOfNoDuplicates | popup.js:118 | a list without duplicates is its own `[...new Set(xs)]` |
| Domains.SecondLevelDomain | popup.js:11-18 | no contract of its own; specified by Domains.SecondLevelDomainLabels, Domains.SecondLevelDomainSuffix, Domains.SecondLevelDomainIdempotent and Domains.ReducesTo |
| Domains.SecondLevelDomainLabels | popup.js:11-18 | with a dot, the result is the last two labels joined by `.`; without a dot, the hostname unchanged |
| Domains.SecondLevelDomainSuffix | popup.js:11-18 | the result is a suffix of the hostname with at most one dot, exactly one when the hostname has one, and it starts right after a dot unless it is the whole hostname |
| Domains.SecondLevelDomainIdempotent | popup.js:11-18 | reducing twice gives the same as reducing once |
| Domains.ReducesTo | popup.js:11-18 | a hostname built from dot-free labels reduces to its last two labels |
| Domains.ReducesWww | popup.js:10-18 | `www.<name>.<tld>` reduces to `<name>.<tld>` (as `www.apple.com` to `apple.com`) |
| Domains.ReducesLeadingDot | popup.js:11-18 | `.<sub>.<name>.<tld>` reduces to `<name>.<tld>` (as `.ads.tracker.net` to `tracker.net`) |
| Domains.ReducesCountryCode | popup.js:11-18 | every `<sub>.<name>.co.uk` reduces to `co.uk`: there is no country-code handling |
| AllowList.Parse | popup.js:21-26 | no contract of its own; specified by AllowList.ParseContents, AllowList.ParseEntries, AllowList.ParseJoin and AllowList.ParseFixedPoint |
| AllowList.NonBlankLines | popup.js:24 | the filter keeps no more lines than it is given |
| AllowList.NonBlankLinesCount | popup.js:24 | the filter keeps each non-blank line as often as it occurs and drops every blank one |
| AllowList.ParseContents | popup.js:22-25 | the parsed list is sorted, has at most as many entries as lines, and holds each non-blank line, untrimmed, exactly as often as it occurs (duplicates kept) |
| AllowList.ParseEntries | popup.js:22-25 | every parsed entry is a line of the text, is not blank and holds no newline |
| AllowList.ParseJoin | popup.js:22-25 | parsing the newline-join of a sorted list of non-blank, newline-free entries gives back that list |
| AllowList.ParseFixedPoint | popup.js:33-48 | what a later load writes from a saved parse parses back to the same list |
| AllowList.AddSite | popup.js:117-118 | no contract of its own; specified by AllowList.AddSiteContents, AllowList.AddSiteIdempotent and AllowList.AddSiteThenParse |
| AllowList.AddSiteContents | popup.js:117-118 | after adding, the list holds the domain and every previous entry and nothing else, without duplicates, in ascending order |
| AllowList.AddSiteIdempotent | popup.js:117-118 | adding the same domain again leaves the list unchanged |
| AllowList.AddSiteThenParse | popup.js:117-119 | when all entries and the domain are proper entries, the text written after adding parses back to the new list |
| Matching.RegexTest | popup.js:62-63 | no contract of its own (`new RegExp(entry + "$").test(domain)` for an entry without special characters other than `.`); specified by Matching.EndsWithPatternIsRegexTest, Matching.MatchIgnoresLabelBoundary, Matching.DotIsWildcard and Matching.DotAt |
| Matching.MatchesWholeIff | popup.js:62-63 | a pattern consumes a string exactly when their lengths agree and each pattern character matches its character |
| Matching.EndsWithPattern | popup.js:62-63 | no contract of its own; specified by Matching.EndsWithPatternIff and Matching.EndsWithPatternIsRegexTest, which make it the same test as Matching.RegexTest |
| Matching.EndsWithPatternIff | popup.js:62-63 | the suffix matcher holds exactly when the pattern fits the string's tail character by character |
| Matching.EndsWithPatternIsRegexTest | popup.js:62-63 | the suffix matcher agrees with `new RegExp(entry + "$").test(domain)` on every input |
| Matching.AnyEntryMatches | popup.js:61-64 | no contract of its own (`allowedDomains.some(…)`); specified by Matching.AnyEntryMatchesIff |
| Matching.AnyEntryMatchesIff | popup.js:61-64 | a domain is allowed exactly when some entry of the list, at any position, matches it |
| Matching.Unwanted | popup.js:57-67 | the result has no more cookies than the input, and a cookie is in it exactly when it is in the input and no entry matches its domain |
| Matching.Exempt | popup.js:60-65 | a cookie is among the exempt ones exactly when it is in the input and some entry matches its domain |
| Matching.UnwantedIsSubsequence | popup.js:60-65 | the unwanted cookies keep their input order |
| Matching.UnwantedExemptPartition | popup.js:60-65 | unwanted and exempt cookies together are the input, and no cookie is in both |
| Matching.UnwantedWithoutEntries | popup.js:57-67 | with an empty allow-list every cookie is unwanted |
| Matching.MoreEntriesFewerUnwanted | popup.js:57-67 | a list with more entries leaves a subsequence of the unwanted cookies, never more |
| Matching.MatchIgnoresLabelBoundary | popup.js:62-63 | the entry `example.com` matches `notexample.com` |
| Matching.DotIsWildcard | popup.js:62-63 | an entry matches itself with one of its `.` replaced by a character `c` exactly when `c` is not a line terminator |
| Matching.DotAt | popup.js:62-63 | a domain that agrees with the entry everywhere except at one `.` of the entry matches exactly when its character there is not a line terminator |
| Report.HeaderText | popup.js:74 | no contract of its own; specified by Report.HeaderCount and Report.SummaryState |
| Report.DeleteLabel | popup.js:75 | no contract of its own; specified by Report.DeleteLabelCount and Report.SummaryState |
| Report.CookieSites | popup.js:82 | one site per cookie, its reduced domain, in order |
| Report.Bullets | popup.js:83 | one line per site, the bullet followed by the site |
| Report.FirstDistinct | popup.js:82-83 | no contract of its own (the `[...new Set(…)]` followed by `slice(0, 5)`); specified by Report.FirstDistinctContents and Report.FirstDistinctLeftOutLater |
| Report.FirstDistinctContents | popup.js:82-83 | exactly the first five distinct sites when there are more than five, all of them otherwise (a prefix of the distinct sites), none twice, each from the list, in first-seen order, every site left out reached later than every site shown, and at least one for a non-empty list |
| Report.FirstDistinctLeftOutLater | popup.js:83 | every site `slice(0, 5)` cuts off is first reached after every site it keeps |
| Report.ShownSites | popup.js:82-83 | no contract of its own; specified by Report.ShownSitesContents and Report.ShownSitesOfOneSite |
| Report.ShownSitesContents | popup.js:82-83 | the shown sites are the first five distinct reduced domains of the unwanted cookies (all of them when there are at most five), in first-seen order, none twice, each the reduced domain of an unwanted cookie, every site left out reached later than every one shown; every unwanted cookie's site is shown when there are at most five distinct sites |
| Report.ShownSitesOfOneSite | popup.js:82-83 | cookies that all reduce to one site show just that site |
| Report.SummaryOf | popup.js:74-88 | no contract of its own; specified by Report.SummaryState, Report.SummaryLength, Report.SummaryInfo and PopupWindow.SummaryKeepsInvariant, and tied to `update` by PopupWindow.BuildSummary and PopupWindow.Popup.Update |
| Report.SummaryState | popup.js:74-88 | the header and button carry the total and unwanted counts; the info is empty and "Delete" disabled exactly when no cookie is unwanted |
| Report.SummaryLength | popup.js:82-86 | the info has at most six lines |
| Report.SummaryInfo | popup.js:82-86 | with unwanted cookies, the info is one bulleted line per shown site, followed by "…and more" exactly when more than five cookies are unwanted |
| Report.HeaderCount | popup.js:74 | the header's number reads back as the cookie count |
| Report.DeleteLabelCount | popup.js:75 | the button's number reads back as the unwanted-cookie count |
| Report.MoreLineCountsCookies | popup.js:84-86 | more than five unwanted cookies of one site show that site and "…and more" |
| Report.RemovalRequests | popup.js:146 | one request per cookie, in order, each built from its cookie |
| Report.Protocol | popup.js:166 | no contract of its own; specified by Report.CookieUrlRoundTrip, which reads `https:` back exactly for a secure cookie |
| Report.CookieUrl | popup.js:172 | no contract of its own; specified by Report.CookieUrlRoundTrip |
| Report.RemovalFor | popup.js:166-178 | no contract of its own; specified by Report.RemovalRequests and Report.RemovalRequestsForUnwanted |
| Report.CookieUrlRoundTrip | popup.js:166-172 | the URL is `https:` exactly for a secure cookie, else `http:`, then `//`, the domain verbatim (leading dot included), then the path |
| Report.RemovalRequestsForUnwanted | popup.js:144-178 | "Delete" issues exactly one request per unwanted cookie, passing its name and store through, with a URL of its protocol, domain and path, and none for a matched cookie |
| PopupWindow.LoadedText | popup.js:33-38 | no contract of its own; specified by PopupWindow.Popup.Load and PopupWindow.Popup.InitPopupWindow, and by AllowList.ParseFixedPoint for a list saved earlier |
| PopupWindow.AddSiteLabel | popup.js:112 | no contract of its own; specified by PopupWindow.Popup.OpenTab and PopupWindow.Popup.InitPopupWindow, which put it on the button with the reduced domain of the tab |
| PopupWindow.AddSiteKeepsHandlerInvariant | popup.js:116-119 | a click keeps the captured list sorted and made of proper entries or the domain, and when the domain is a proper entry the written text parses back to the new list |
| PopupWindow.ParsedHandlerInvariant | popup.js:114 | the list captured from the text area is sorted and made of proper entries |
| PopupWindow.SummaryKeepsInvariant | popup.js:77-88 | every summary has "Delete" disabled exactly when it has no line, and has at most six lines |
| PopupWindow.BuildSummary | popup.js:74-88 | the branches of `update` compute the summary of the cookies under the list and keep the summary invariant |
| PopupWindow.Popup.constructor | popup.js:1-5 | the model's starting state, not the page's (`popup.html` is not part of this model): the text area holds the given text, no handler is registered, and the model starts "Add This Site" enabled and "Delete" disabled with no summary lines |
| PopupWindow.Popup.Load | popup.js:29-39 | the text area becomes the stored list joined by newlines, empty when nothing is stored, unchanged when the read fails |
| PopupWindow.Popup.OpenTab | popup.js:104-130 | with a hostname, the button shows the reduced domain, the handler captures the parsed list, and the button is enabled exactly when it was enabled or the domain is not in the list; without one nothing changes |
| PopupWindow.Popup.ClickAddSite | popup.js:116-122 | the captured list becomes the add-site update of itself, the text area shows it one per line, and the text parses back to it when the domain is a proper entry; without a handler nothing changes |
| PopupWindow.Popup.Update | popup.js:70-89 | the summary becomes the summary of the cookies under the parsed text area |
| PopupWindow.Popup.Input | popup.js:136-139 | the text area takes the edited text and the summary is recomputed from it |
| PopupWindow.Popup.ClickDelete | popup.js:141-153 | one removal request per cookie unwanted under the current list, then the summary of the cookies that remain |
| PopupWindow.Popup.InitPopupWindow | popup.js:93-133 | after start-up the text area holds the loaded list; with a hostname the handler captures its parse and "Add This Site" is disabled exactly when the reduced domain is in it; without one the button keeps its caption and is disabled, and no handler is registered; the summary is that of the cookies under the loaded list |
| TextAreaElement.SetValue | popup.js:34 | setting `value` gives the new value and sets the dirty value flag, leaving the text content |
| TextAreaElement.SetTextContent | popup.js:119 | writing `textContent` changes the text content, and the value only when the dirty value flag is clear |
| TextAreaElement.AddSiteClickAsWritten | popup.js:119 | no contract of its own (the write to `textContent`); specified by TextAreaElement.AddSiteLostAfterLoad and TextAreaElement.AddSiteLostWhenNothingStored |
| TextAreaElement.AddSiteClickIntended | popup.js:119 | no contract of its own (the same write to `value`); specified by TextAreaElement.AddSiteClickIntendedSaves |
| TextAreaElement.AddSiteLostAfterLoad | popup.js:34-119 | after `load` has set the value, the click as written leaves the value and its parsed list unchanged, so a domain not in the loaded list is not added |
| TextAreaElement.AddSiteLostWhenNothingStored | popup.js:33-119 | with nothing stored, a click as written leaves the parsed list empty |
| TextAreaElement.AddSiteClickIntendedSaves | popup.js:117-121 | the click writing `value` makes the parsed list the new list, which holds the domain |

## Findings

| source | as written | input that shows it | evidently intended | confidence | as-written member | corrected member |
|---|---|---|---|---|---|---|
| popup.js:119 | the add-site click writes the new list to the text area's `textContent`; `load` (popup.js:34) has already assigned `value`, which sets the dirty value flag, so the value no longer follows the text content and `save` and `update` read the old list | nothing stored (`load` writes `""`), tab `www.apple.com`: after the click the value is still `""` and the parsed, saved list is `[]` | the text area shows, and `save` stores, the list with `apple.com` added | not executed | TextAreaElement.AddSiteLostAfterLoad, TextAreaElement.AddSiteLostWhenNothingStored | TextAreaElement.AddSiteClickIntendedSaves |

## Left out

- The DOM is not modelled. The summary is a list of lines and a flag, not HTML joined with `<br>`, and the element handles and listener wiring are not modelled.
- The text area's `placeholder` rewrite in `initPopupWindow` is not modelled, because it only changes what an empty text area displays.
- PopupWindow.Popup.ClickAddSite: writes the new list to the text area's value, which is what the button evidently intends, not what the handler does. The handler writes `textContent`, and `load` has already set `value` on every successful read, which sets the element's dirty value flag; from then on a `textContent` write no longer changes `value`. So on the normal path the browser neither shows nor saves the new list (`save` and `update` read `value`). `TextAreaElement` models the element and the handler as written, see "## Findings".
- `chrome.storage.local` is not modelled. The read in `load` becomes the `StoredList` parameter, with found, missing or failed. `save` is storage I/O and is not modelled, so `Input` and `ClickAddSite` do not save.
- `chrome.tabs.query` and `new URL(tab.url)` are foreign calls. The hostname is an input, absent when there is no tab URL or it does not parse.
- `chrome.cookies.getAll` and `chrome.cookies.remove` are not modelled. Cookies are inputs, and removal only produces the list of request records.
- The asynchronous `Promise.all` fan-out is not modelled, so `ClickDelete` takes the cookies read after deletion as a second input.
- Error paths are not modelled: the logging in `catch` blocks, and a `remove` call that fails.
- The general `RegExp` engine is not modelled. Only entries whose sole regular-expression syntax is `.` are covered.
- Matching follows Unicode code points, while JavaScript regular expressions without the `u` flag match UTF-16 code units. A `.` in an entry facing a character outside the Basic Multilingual Plane therefore behaves differently here.
- Matching.Unwanted: requires every entry to be free of regular-expression syntax other than `.`, although the code accepts any text. `Matching.Exempt` has the same requirement, and the popup's `Update`, `Input`, `ClickDelete` and `InitPopupWindow` require it of the text area's entries.
- PopupWindow.Popup.OpenTab: requires that no click handler is registered yet, because `initPopupWindow` registers one handler, once.
- PopupWindow.Popup.InitPopupWindow: is stated for a page whose add-site handler is not yet registered; the contents of `popup.html` are not part of this model.
